/** The TBAA type tags: metadata nodes by their content, and the names that keep them apart. */
module Tags {
  datatype Field = Field(tag: Tag, offset: nat, size: nat)

  /** LLVM merges nodes with equal operands, so a node is its content. */
  datatype Tag =
    | Root
    | Scalar(parent: Tag, size: nat, name: string)
    | Struct(parent: Tag, size: nat, name: string, fields: seq<Field>)

  /** a is b or one of its ancestors. */
  predicate Under(a: Tag, b: Tag)
    decreases b
  {
    a == b || (!b.Root? && Under(a, b.parent))
  }

  /** Two accesses may alias when one tag is an ancestor of the other, or the same. */
  predicate MayAlias(a: Tag, b: Tag) {
    Under(a, b) || Under(b, a)
  }

  lemma {:induction false} UnderTransitive(a: Tag, b: Tag, c: Tag)
    requires Under(a, b) && Under(b, c)
    ensures Under(a, c)
    decreases c
  {
    if b != c {
      UnderTransitive(a, b, c.parent);
    }
  }

  lemma {:induction false} UnderAntisymmetric(a: Tag, b: Tag)
    requires Under(a, b) && Under(b, a)
    ensures a == b
    decreases a, b
  {
    if a != b {
      UnderTransitive(a, b, a.parent);
      UnderAntisymmetric(a.parent, a);
    }
  }

  function Digit(d: nat): char
    requires d < 10
  {
    ('0' as int + d) as char
  }

  /** The decimal image of a number. */
  function Decimal(n: nat): (s: string)
    ensures s != "" && '0' <= s[0] <= '9'
  {
    if n < 10 then [Digit(n)] else Decimal(n / 10) + [Digit(n % 10)]
  }

  function ValueOf(s: string): int {
    if s == "" then 0 else ValueOf(s[..|s| - 1]) * 10 + (s[|s| - 1] as int - '0' as int)
  }

  lemma {:induction false} DecimalReadBack(n: nat)
    ensures ValueOf(Decimal(n)) == n
  {
    if n < 10 {
      assert Decimal(n)[..0] == "";
    } else {
      DecimalReadBack(n / 10);
      assert Decimal(n)[..|Decimal(n)| - 1] == Decimal(n / 10);
    }
  }

  /** The part of a name from its first '#' on. */
  function Suffix(name: string): string {
    if name == "" then "" else if name[0] == '#' then name else Suffix(name[1..])
  }

  lemma {:induction false} SuffixOf(chars: string, suffix: string)
    requires '#' !in chars && (suffix == "" || suffix[0] == '#')
    ensures Suffix(chars + suffix) == suffix
  {
    if chars == "" {
      assert chars + suffix == suffix;
    } else {
      assert (chars + suffix)[1..] == chars[1..] + suffix;
      SuffixOf(chars[1..], suffix);
    }
  }

  /** Native tags: their ancestors are native tags and the root. */
  predicate NativeShape(t: Tag) {
    t.Scalar? && Suffix(t.name) == "#TN" && (t.parent.Root? || NativeShape(t.parent))
  }

  /** For_Aliased tags are below native ones. */
  predicate AliasedShape(t: Tag) {
    t.Scalar? && Suffix(t.name) == "" && NativeShape(t.parent)
  }

  /** Unique tags are below a native tag, or a For_Aliased one if the object is aliased. */
  predicate UniqueShape(t: Tag, n: nat, aliased: bool) {
    t.Scalar? && Suffix(t.name) == "#T" + Decimal(n) && (if aliased then AliasedShape(t.parent) else NativeShape(t.parent))
  }

  lemma {:induction false} AboveNative(a: Tag, t: Tag)
    requires NativeShape(t) && Under(a, t)
    ensures a.Root? || NativeShape(a)
    decreases t
  {
    if a != t && !t.parent.Root? {
      AboveNative(a, t.parent);
    }
  }

  /** What is above a For_Aliased tag. */
  lemma AboveAliased(a: Tag, t: Tag)
    requires AliasedShape(t) && Under(a, t)
    ensures a == t || a.Root? || NativeShape(a)
  {
    if a != t {
      AboveNative(a, t.parent);
    }
  }

  lemma AboveUnique(a: Tag, t: Tag, n: nat, aliased: bool)
    requires UniqueShape(t, n, aliased) && Under(a, t)
    ensures a == t || a.Root? || NativeShape(a) || (aliased && a == t.parent)
  {
    if a != t {
      if aliased {
        AboveAliased(a, t.parent);
      } else {
        AboveNative(a, t.parent);
      }
    }
  }

  /** The three kinds of name are different, and so are two unique names with different indices. */
  lemma SuffixesDiffer(m: nat, n: nat)
    ensures "#T" + Decimal(n) != "#TN" && "#T" + Decimal(n) != ""
    ensures m != n ==> "#T" + Decimal(m) != "#T" + Decimal(n)
  {
    assert ("#T" + Decimal(n))[2] == Decimal(n)[0];
    assert ("#T" + Decimal(n))[2..] == Decimal(n) && ("#T" + Decimal(m))[2..] == Decimal(m);
    DecimalReadBack(m);
    DecimalReadBack(n);
  }

  lemma UniquesNeverAlias(a: Tag, m: nat, aliasedA: bool, b: Tag, n: nat, aliasedB: bool)
    requires UniqueShape(a, m, aliasedA) && UniqueShape(b, n, aliasedB) && m != n
    ensures !MayAlias(a, b)
  {
    SuffixesDiffer(m, n);
    SuffixesDiffer(n, m);
    if Under(a, b) {
      AboveUnique(a, b, n, aliasedB);
    }
    if Under(b, a) {
      AboveUnique(b, a, m, aliasedA);
    }
  }

  /** A unique tag of an object that is not aliased and a For_Aliased tag, or a unique tag of an aliased object. */
  lemma UniqueNeverAliasesAliased(a: Tag, m: nat, b: Tag)
    requires UniqueShape(a, m, false) && AliasedShape(b)
    ensures !MayAlias(a, b)
  {
    SuffixesDiffer(m, m);
    if Under(a, b) {
      AboveAliased(a, b);
    }
    if Under(b, a) {
      AboveUnique(b, a, m, false);
    }
  }
}
