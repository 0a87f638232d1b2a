/** Common ancestors of tags, and the way down into struct tags. */
module AccessTags {
  import opened Wrappers
  import opened Tags

  /** The search for a common ancestor may go from t to its parent. */
  predicate Climbs(t: Tag)
    requires !t.Root?
  {
    !t.parent.Root? && t.size == t.parent.size
  }

  /** Common_TBAA. */
  function Common(a: Tag, b: Tag): Option<Tag>
    requires !a.Root? && !b.Root?
    decreases a, b
  {
    if a == b then Some(a)
    else if Climbs(a) then Common(a.parent, b)
    else if Climbs(b) then Common(a, b.parent)
    else None
  }

  /** c is t, or above it with only tags of the same size on the way. */
  predicate OnChain(c: Tag, t: Tag)
    requires !t.Root?
    decreases t
  {
    c == t || (!t.parent.Root? && t.parent.size == t.size && OnChain(c, t.parent))
  }

  predicate OnBoth(c: Tag, a: Tag, b: Tag)
    requires !a.Root? && !b.Root?
  {
    OnChain(c, a) && OnChain(c, b)
  }

  /** The end of the chain. */
  function Top(t: Tag): (c: Tag)
    requires !t.Root?
    ensures !c.Root? && OnChain(c, t) && (c.parent.Root? || c.parent.size != c.size)
  {
    if t.parent.Root? || t.parent.size != t.size then t else Top(t.parent)
  }

  lemma {:induction false} ChainFacts(c: Tag, t: Tag)
    requires !t.Root? && OnChain(c, t)
    ensures !c.Root? && Under(c, t) && c.size == t.size && Top(c) == Top(t)
    decreases t
  {
    if c != t {
      ChainFacts(c, t.parent);
    }
  }

  /** What the search returns, for all tags. */
  lemma {:induction false} CommonIs(a: Tag, b: Tag)
    requires !a.Root? && !b.Root?
    ensures Common(a, b) ==
      if OnChain(b, a) then Some(b) else if Top(a) == Top(b) then Some(Top(a)) else None
    decreases a, b
  {
    if a == b {
    } else if Climbs(a) {
      CommonIs(a.parent, b);
    } else if Climbs(b) {
      CommonIs(a, b.parent);
      if OnChain(b.parent, a) {
        ChainFacts(b.parent, a);
      }
    }
  }

  /** A tag is returned exactly when the chains meet, and it is then on both. */
  lemma CommonExactly(a: Tag, b: Tag)
    requires !a.Root? && !b.Root?
    ensures Common(a, b).Some? <==> exists c :: OnBoth(c, a, b)
    ensures Common(a, b).Some? ==> OnBoth(Common(a, b).value, a, b)
  {
    CommonOnBoth(a, b);
    if Common(a, b).Some? {
      assert OnBoth(Common(a, b).value, a, b);
    } else if c :| OnBoth(c, a, b) {
      MeetingChains(a, b, c);
    }
  }

  lemma CommonOnBoth(a: Tag, b: Tag)
    requires !a.Root? && !b.Root?
    ensures Common(a, b).Some? ==> OnBoth(Common(a, b).value, a, b)
  {
    CommonIs(a, b);
    assert OnChain(Top(a), a) && OnChain(Top(b), b) && OnChain(b, b);
  }

  lemma MeetingChains(a: Tag, b: Tag, c: Tag)
    requires !a.Root? && !b.Root? && OnBoth(c, a, b)
    ensures Common(a, b).Some?
  {
    CommonIs(a, b);
    ChainFacts(c, a);
    ChainFacts(c, b);
  }

  lemma {:induction false} AncestorsComparable(a: Tag, b: Tag, t: Tag)
    requires Under(a, t) && Under(b, t)
    ensures Under(a, b) || Under(b, a)
    decreases t
  {
    if a != t && b != t {
      AncestorsComparable(a, b, t.parent);
    }
  }

  /** The common tag may alias whatever either of the two may alias. */
  lemma CommonAliasesMore(a: Tag, b: Tag, x: Tag)
    requires !a.Root? && !b.Root? && Common(a, b).Some? && (MayAlias(x, a) || MayAlias(x, b))
    ensures MayAlias(x, Common(a, b).value)
  {
    CommonExactly(a, b);
    var c := Common(a, b).value;
    ChainFacts(c, a);
    ChainFacts(c, b);
    var t := if MayAlias(x, a) then a else b;
    if Under(t, x) {
      UnderTransitive(c, t, x);
    } else {
      AncestorsComparable(x, c, t);
    }
  }

  /**
   Whether there is a common tag does not depend on the order. Which one it is does: the two orders agree
   exactly when neither tag is below the other, or the upper one ends the chain.
   */
  lemma CommonOfBothOrders(a: Tag, b: Tag)
    requires !a.Root? && !b.Root?
    ensures Common(a, b).Some? <==> Common(b, a).Some?
    ensures Common(a, b) == Common(b, a) <==>
      a == b || ((OnChain(b, a) ==> Top(b) == b) && (OnChain(a, b) ==> Top(a) == a))
  {
    CommonIs(a, b);
    CommonIs(b, a);
    if OnChain(b, a) {
      ChainFacts(b, a);
    }
    if OnChain(a, b) {
      ChainFacts(a, b);
    }
    if OnChain(b, a) && OnChain(a, b) {
      UnderAntisymmetric(a, b);
    }
  }

  /** A tag and its parent, of one size below another such tag: the two orders give different ancestors. */
  lemma OrdersCanDiffer()
    ensures var top := Scalar(Root, 8, "t");
      var high := Scalar(top, 8, "h");
      var low := Scalar(high, 8, "l");
      Common(low, high) == Some(high) && Common(high, low) == Some(top) && high != top
  {
    var top := Scalar(Root, 8, "t");
    var high := Scalar(top, 8, "h");
    var low := Scalar(high, 8, "l");
    CommonIs(low, high);
    CommonIs(high, low);
    assert OnChain(high, low);
    assert Top(high) == Top(top) && Top(low) == Top(high);
  }

  // Extract_Access_Type

  /** 2^64: offsets are unsigned machine words. */
  const WORD: nat := 0x1_0000_0000_0000_0000

  function Minus(a: int, b: int): (r: nat)
    ensures r < WORD
  {
    (a - b) % WORD
  }

  /** A tag with more than three operands. */
  predicate IsStructTag(t: Tag) { t.Struct? && t.fields != [] }

  /** The field the loop stops at: the last one, or the first whose successor lies beyond the offset. */
  function FieldFor(fields: seq<Field>, offset: nat, j: nat): (r: nat)
    requires j < |fields|
    ensures j <= r < |fields|
    ensures r == |fields| - 1 || fields[r + 1].offset > offset
    ensures forall i :: j < i <= r ==> fields[i].offset <= offset
    decreases |fields| - j
  {
    if j == |fields| - 1 || fields[j + 1].offset > offset then j else FieldFor(fields, offset, j + 1)
  }

  /** Extract_Access_Type: the tag, if any, and the new offset. */
  function Extract(md: Tag, offset: nat, size: nat): (Option<Tag>, nat)
    requires !md.Root?
    decreases md
  {
    if md.size == size then (Some(md), offset)
    else if !IsStructTag(md) then (None, offset)
    else
      var f := md.fields[FieldFor(md.fields, offset, 0)];
      if f.tag.Root? then (None, Minus(offset, f.offset)) else Extract(f.tag, Minus(offset, f.offset), size)
  }

  /** A component: the field numbers that lead to it. */
  predicate IsPath(md: Tag, path: seq<nat>)
    decreases |path|
  {
    path == [] || (md.Struct? && path[0] < |md.fields| && IsPath(md.fields[path[0]].tag, path[1..]))
  }

  function TagAt(md: Tag, path: seq<nat>): Tag
    requires IsPath(md, path)
    decreases |path|
  {
    if path == [] then md else TagAt(md.fields[path[0]].tag, path[1..])
  }

  /** The place of a component: the sum of the field offsets on the way to it. */
  function PlaceOf(md: Tag, path: seq<nat>): nat
    requires IsPath(md, path)
    decreases |path|
  {
    if path == [] then 0 else md.fields[path[0]].offset + PlaceOf(md.fields[path[0]].tag, path[1..])
  }

  /** The way Extract goes. */
  function Way(md: Tag, offset: nat, size: nat): (path: seq<nat>)
    requires !md.Root?
    ensures IsPath(md, path)
    decreases md
  {
    if md.size == size || !IsStructTag(md) then []
    else
      var k := FieldFor(md.fields, offset, 0);
      var f := md.fields[k];
      [k] + (if f.tag.Root? then [] else Way(f.tag, Minus(offset, f.offset), size))
  }

  /**
   For all tags, offsets and sizes: the tag returned is that of a component and has the size of the access,
   and the place of the component and the new offset add up to the offset of the access, in machine words.
   */
  lemma {:induction false} ExtractConserves(md: Tag, offset: nat, size: nat)
    requires !md.Root? && offset < WORD
    ensures var r := Extract(md, offset, size); var way := Way(md, offset, size);
      && r.1 < WORD
      && (r.0.Some? ==> r.0.value == TagAt(md, way) && !r.0.value.Root? && r.0.value.size == size)
      && (PlaceOf(md, way) + r.1 - offset) % WORD == 0
    decreases md
  {
    var way := Way(md, offset, size);
    if md.size != size && IsStructTag(md) {
      var f := md.fields[FieldFor(md.fields, offset, 0)];
      var rest := Minus(offset, f.offset);
      MinusPlus(offset, f.offset);
      if f.tag.Root? {
        assert way[1..] == [];
      } else {
        ExtractConserves(f.tag, rest, size);
        assert way[1..] == Way(f.tag, rest, size);
        AddMod(PlaceOf(f.tag, way[1..]) + Extract(f.tag, rest, size).1 - rest, f.offset + rest - offset);
      }
    }
  }

  lemma MinusPlus(a: int, b: int)
    ensures (b + Minus(a, b) - a) % WORD == 0
  {
    var q := (a - b) / WORD;
    assert b + Minus(a, b) - a == -q * WORD;
  }

  lemma AddMod(x: int, y: int)
    requires x % WORD == 0 && y % WORD == 0
    ensures (x + y) % WORD == 0
  {
  }

  /** The fields of a struct tag are in order, do not overlap, and lie in it, and so on inside them. */
  predicate Layered(md: Tag)
    decreases md
  {
    match md
    case Root => false
    case Scalar(_, _, _) => true
    case Struct(_, size, _, fields) =>
      && (forall i :: 0 <= i < |fields| ==> Inside(fields[i], size) && Layered(fields[i].tag))
      && (forall i :: 0 <= i < |fields| - 1 ==> fields[i].offset + fields[i].size <= fields[i + 1].offset)
  }

  predicate Inside(f: Field, size: nat) {
    !f.tag.Root? && f.tag.size <= f.size && f.offset + f.size <= size
  }

  lemma {:induction false} FieldsInOrder(md: Tag, i: nat, j: nat)
    requires Layered(md) && md.Struct? && i < j < |md.fields|
    ensures md.fields[i].offset + md.fields[i].size <= md.fields[j].offset
    decreases j
  {
    if i < j - 1 {
      FieldsInOrder(md, i, j - 1);
    }
  }

  lemma {:induction false} ComponentInside(md: Tag, path: seq<nat>)
    requires Layered(md) && IsPath(md, path)
    ensures !TagAt(md, path).Root? && PlaceOf(md, path) + TagAt(md, path).size <= md.size
    decreases |path|
  {
    if path != [] {
      ComponentInside(md.fields[path[0]].tag, path[1..]);
      assert Inside(md.fields[path[0]], md.size);
    }
  }

  /** The field that holds a component of non-zero size is the one the loop stops at. */
  lemma FieldOfComponent(md: Tag, path: seq<nat>)
    requires Layered(md) && IsPath(md, path) && path != []
    requires !TagAt(md, path).Root? && TagAt(md, path).size > 0
    ensures FieldFor(md.fields, PlaceOf(md, path), 0) == path[0]
  {
    var k, place := path[0], PlaceOf(md, path);
    var r := FieldFor(md.fields, place, 0);
    ComponentInside(md.fields[k].tag, path[1..]);
    assert Inside(md.fields[k], md.size);
    if r < k {
      assert md.fields[r + 1].offset > place;
      if r + 1 < k {
        FieldsInOrder(md, r + 1, k);
      }
    } else if k < r {
      FieldsInOrder(md, k, r);
    }
  }

  /** A component of the size of the access, at the offset of the access, is found. */
  lemma {:induction false} ExtractFinds(md: Tag, path: seq<nat>, size: nat)
    requires Layered(md) && md.size < WORD && size > 0 && IsPath(md, path)
    requires !TagAt(md, path).Root? && TagAt(md, path).size == size
    ensures Extract(md, PlaceOf(md, path), size).0.Some? && Extract(md, PlaceOf(md, path), size).1 == 0
    decreases md
  {
    ComponentInside(md, path);
    if md.size != size {
      var f, place := md.fields[path[0]], PlaceOf(md, path);
      FieldOfComponent(md, path);
      assert Inside(f, md.size);
      assert Minus(place, f.offset) == PlaceOf(f.tag, path[1..]);
      ExtractFinds(f.tag, path[1..], size);
    }
  }

  /** The component at the end of path has the given place and size. */
  predicate IsComponent(md: Tag, path: seq<nat>, place: nat, size: nat) {
    IsPath(md, path) && !TagAt(md, path).Root? && TagAt(md, path).size == size && PlaceOf(md, path) == place
  }

  lemma FoundIsComponent(md: Tag, offset: nat, size: nat)
    requires Layered(md) && md.size < WORD && offset < WORD
    requires Extract(md, offset, size).0.Some? && Extract(md, offset, size).1 == 0
    ensures IsComponent(md, Way(md, offset, size), offset, size)
  {
    ExtractConserves(md, offset, size);
    ComponentInside(md, Way(md, offset, size));
    SameWord(PlaceOf(md, Way(md, offset, size)), offset);
  }

  /**
   For struct tags whose fields are in order, an access inside the tag leaves offset 0 exactly when a
   component of the size of the access lies at its offset.
   */
  lemma ExtractExactly(md: Tag, offset: nat, size: nat)
    requires Layered(md) && md.size < WORD && size > 0 && offset < WORD
    ensures (Extract(md, offset, size).0.Some? && Extract(md, offset, size).1 == 0)
        <==> exists path :: IsComponent(md, path, offset, size)
  {
    if Extract(md, offset, size).0.Some? && Extract(md, offset, size).1 == 0 {
      FoundIsComponent(md, offset, size);
    }
    if path :| IsComponent(md, path, offset, size) {
      ExtractFinds(md, path, size);
    }
  }

  lemma SameWord(a: nat, b: nat)
    requires a < WORD && b < WORD && (a - b) % WORD == 0
    ensures a == b
  {
  }

  /**
   On the way down there is a struct tag whose first field lies after the offset that is left: the guard of the
   subtraction that wraps around.
   */
  predicate StartsAfter(md: Tag, offset: nat, size: nat)
    decreases md
  {
    !md.Root? && md.size != size && md.Struct? && md.fields != [] &&
    (md.fields[0].offset > offset
     || var f := md.fields[FieldFor(md.fields, offset, 0)];
        f.offset <= offset && StartsAfter(f.tag, offset - f.offset, size))
  }

  /** The field offsets on the way down, plus the offset that is left. */
  function Total(md: Tag, offset: nat, size: nat): nat
    requires !md.Root?
    decreases md
  {
    if md.size == size || !IsStructTag(md) then offset
    else
      var f := md.fields[FieldFor(md.fields, offset, 0)];
      f.offset + (if f.tag.Root? then Minus(offset, f.offset) else Total(f.tag, Minus(offset, f.offset), size))
  }

  lemma {:induction false} TotalIs(md: Tag, offset: nat, size: nat)
    requires !md.Root?
    ensures Total(md, offset, size) == PlaceOf(md, Way(md, offset, size)) + Extract(md, offset, size).1
    decreases md
  {
    if md.size != size && IsStructTag(md) {
      var way, f := Way(md, offset, size), md.fields[FieldFor(md.fields, offset, 0)];
      if f.tag.Root? {
        assert way[1..] == [];
      } else {
        assert way[1..] == Way(f.tag, Minus(offset, f.offset), size);
        TotalIs(f.tag, Minus(offset, f.offset), size);
      }
    }
  }

  /** A field the loop stops at lies at or before the offset, unless the first one lies after it. */
  lemma FieldBefore(md: Tag, offset: nat, f: Field)
    requires Layered(md) && md.Struct? && md.fields != [] && f == md.fields[FieldFor(md.fields, offset, 0)]
    ensures f.offset <= offset <==> md.fields[0].offset <= offset
  {
    if FieldFor(md.fields, offset, 0) > 0 {
      FieldsInOrder(md, 0, FieldFor(md.fields, offset, 0));
    }
  }

  /** The total is the old offset, unless a subtraction wrapped around. */
  lemma {:induction false} TotalExactly(md: Tag, offset: nat, size: nat)
    requires Layered(md) && md.size < WORD && offset < WORD
    ensures Total(md, offset, size) == offset <==> !StartsAfter(md, offset, size)
    decreases md
  {
    if md.size != size && IsStructTag(md) {
      var f := md.fields[FieldFor(md.fields, offset, 0)];
      assert Inside(f, md.size);
      FieldBefore(md, offset, f);
      if f.offset <= offset {
        TotalExactly(f.tag, offset - f.offset, size);
      }
    }
  }

  /** Two numbers that agree as machine words, the second one below twice the range. */
  lemma WordsApart(place: nat, left: nat, offset: nat)
    requires place < WORD && left < WORD && offset < WORD && (place + left - offset) % WORD == 0
    ensures place + left == offset || place + left == offset + WORD
  {
  }

  /** The total is the old offset, or one wrap around above it. */
  lemma TotalWraps(md: Tag, offset: nat, size: nat, place: nat, left: nat)
    requires Layered(md) && md.size < WORD && offset < WORD
    requires place == PlaceOf(md, Way(md, offset, size)) && left == Extract(md, offset, size).1
    ensures Total(md, offset, size) == place + left && place < WORD && left < WORD
    ensures place + left == offset || place + left == offset + WORD
  {
    TotalIs(md, offset, size);
    assert place < WORD by { ComponentInside(md, Way(md, offset, size)); }
    assert left < WORD && (place + left - offset) % WORD == 0 by { ExtractConserves(md, offset, size); }
    WordsApart(place, left, offset);
  }

  /** The promise that the offset never grows holds exactly when no struct tag on the way starts after it. */
  lemma ExtractNeverGrowsExactly(md: Tag, offset: nat, size: nat)
    requires Layered(md) && md.size < WORD && offset < WORD
    ensures Extract(md, offset, size).1 <= offset <==> !StartsAfter(md, offset, size)
  {
    TotalWraps(md, offset, size, PlaceOf(md, Way(md, offset, size)), Extract(md, offset, size).1);
    TotalExactly(md, offset, size);
  }

  /**
   A struct tag has a field only for each element of the LLVM structure that holds a component, and none for the
   padding before the first one (gnatllvm-records.adb:1570-1589), so an access may lie before the first field.
   */
  lemma OffsetCanGrow()
    ensures var md := Struct(Root, 16, "r", [Field(Scalar(Root, 8, "f"), 8, 8)]);
      Layered(md) && Extract(md, 0, 8) == (Some(Scalar(Root, 8, "f")), WORD - 8)
  {
    var f := Field(Scalar(Root, 8, "f"), 8, 8);
    var md := Struct(Root, 16, "r", [f]);
    assert md.fields[0] == f && FieldFor(md.fields, 0, 0) == 0;
    assert Inside(f, 16) && Layered(f.tag);
  }

  /** Extract_Access_Type with its loop over the fields and its offset, which is also a result. */
  method ExtractAccessType(md: Tag, offset: nat, size: nat) returns (tag: Option<Tag>, left: nat)
    requires !md.Root?
    ensures (tag, left) == Extract(md, offset, size)
    decreases md
  {
    tag, left := None, offset;
    if md.size == size {
      return Some(md), left;
    }
    if !IsStructTag(md) {
      return;
    }
    for j := 0 to |md.fields|
      invariant left == offset
      invariant j < |md.fields| && FieldFor(md.fields, offset, j) == FieldFor(md.fields, offset, 0)
    {
      if j == |md.fields| - 1 || md.fields[j + 1].offset > left {
        left := Minus(left, md.fields[j].offset);
        if !md.fields[j].tag.Root? {
          tag, left := ExtractAccessType(md.fields[j].tag, left, size);
        }
        return;
      }
    }
  }
}
