/** Wrapping C subprograms for Ada: transformations of a signature, repeated until none of them applies any more. */
module Wrapping {
  import opened Wrappers

  datatype Argument = Argument(name: string, kind: string)

  /** A Function has a return type, a Procedure has none. */
  datatype Subp = Subp(name: string, result: Option<string>, args: seq<Argument>, aspects: seq<string>)

  /** AllTypesTransformer, ReturnTypeTransformer and BooleanCheckTransformer. */
  datatype Scope = AllTypes | ReturnType | BooleanCheck

  datatype Transformer = Transformer(scope: Scope, sources: set<string>, target: string)

  predicate StartsWith(s: string, prefix: string) {
    |prefix| <= |s| && s[..|prefix|] == prefix
  }

  predicate Contains(s: string, part: string) {
    StartsWith(s, part) || (s != "" && Contains(s[1..], part))
  }

  /** s.replace(part, '') */
  function Without(s: string, part: string): string
    requires part != ""
    decreases |s|
  {
    if s == "" then ""
    else if StartsWith(s, part) then Without(s[|part|..], part)
    else [s[0]] + Without(s[1..], part)
  }

  function Lower(s: string): string {
    if s == "" then ""
    else [if 'A' <= s[0] <= 'Z' then s[0] - 'A' + 'a' else s[0]] + Lower(s[1..])
  }

  const ADA_KEYWORDS: set<string> := {"and", "or", "xor", "not", "select"}

  /** transform_name: strip "Build_" unless an Ada keyword is left, and every "_Builder". */
  function NewName(name: string): string {
    var stripped :=
      if StartsWith(name, "Build_") && Lower(name[6..]) !in ADA_KEYWORDS then name[6..] else name;
    Without(stripped, "_Builder")
  }

  /** part stands in s at position n. */
  predicate Occurs(s: string, part: string, n: nat) {
    n + |part| <= |s| && s[n..n + |part|] == part
  }

  lemma {:induction false} ContainsExactly(s: string, part: string)
    ensures Contains(s, part) <==> exists n :: 0 <= n <= |s| && Occurs(s, part, n)
    decreases |s|
  {
    if StartsWith(s, part) {
      assert Occurs(s, part, 0);
    } else if s != "" {
      ContainsExactly(s[1..], part);
      if n :| 0 <= n <= |s[1..]| && Occurs(s[1..], part, n) {
        assert s[1..][n..n + |part|] == s[n + 1..n + 1 + |part|];
        assert Occurs(s, part, n + 1);
      }
      if n :| 0 <= n <= |s| && Occurs(s, part, n) {
        assert n > 0 && s[1..][n - 1..n - 1 + |part|] == s[n..n + |part|];
        assert Occurs(s[1..], part, n - 1);
      }
    }
  }

  /** Deleting a part: its first occurrence goes, and the same happens to what follows that. */
  lemma {:induction false} WithoutFirst(s: string, part: string, n: nat)
    requires part != "" && Occurs(s, part, n) && forall k :: 0 <= k < n ==> !Occurs(s, part, k)
    ensures Without(s, part) == s[..n] + Without(s[n + |part|..], part)
    decreases |s|
  {
    if n == 0 {
      assert s[0..|part|] == s[..|part|];
    } else {
      assert !Occurs(s, part, 0) && (|part| <= |s| ==> s[0..|part|] == s[..|part|]);
      OccursLater(s, part);
      WithoutFirst(s[1..], part, n - 1);
      FirstAndRest(s, n, n + |part|, Without(s[1..], part), Without(s[n + |part|..], part));
    }
  }

  lemma FirstAndRest(s: string, n: nat, m: nat, without: string, after: string)
    requires 1 <= n <= m <= |s| && (s[m..] == s[1..][m - 1..] ==> without == s[1..][..n - 1] + after)
    ensures [s[0]] + without == s[..n] + after
  {
    assert s[..n] == [s[0]] + s[1..][..n - 1] && s[m..] == s[1..][m - 1..];
  }

  /** Without an occurrence nothing goes. */
  lemma {:induction false} WithoutNone(s: string, part: string)
    requires part != "" && forall k :: 0 <= k <= |s| ==> !Occurs(s, part, k)
    ensures Without(s, part) == s
    decreases |s|
  {
    if s != "" {
      assert !Occurs(s, part, 0) && (|part| <= |s| ==> s[0..|part|] == s[..|part|]);
      OccursLater(s, part);
      WithoutNone(s[1..], part);
    }
  }

  lemma OccursLater(s: string, part: string)
    requires s != ""
    ensures forall k: nat :: Occurs(s[1..], part, k) <==> Occurs(s, part, k + 1)
  {
    forall k: nat ensures Occurs(s[1..], part, k) <==> Occurs(s, part, k + 1) {
      if k + |part| <= |s[1..]| {
        assert s[1..][k..k + |part|] == s[k + 1..k + 1 + |part|];
      }
    }
  }

  /** a is b, but for capitals in a. */
  predicate SameLetters(a: string, b: string) {
    |a| == |b| && forall i :: 0 <= i < |a| ==>
      b[i] == if 'A' <= a[i] <= 'Z' then (a[i] as int - 'A' as int + 'a' as int) as char else a[i]
  }

  lemma {:induction false} LowerIs(s: string)
    ensures SameLetters(s, Lower(s))
  {
    if s != "" {
      LowerIs(s[1..]);
      OneMoreLetter(s, Lower(s)[0], Lower(s[1..]));
    }
  }

  lemma OneMoreLetter(s: string, c: char, rest: string)
    requires s != "" && SameLetters(s[1..], rest)
    requires c == if 'A' <= s[0] <= 'Z' then (s[0] as int - 'A' as int + 'a' as int) as char else s[0]
    ensures SameLetters(s, [c] + rest)
  {
  }

  lemma SameLettersOnce(a: string, b: string, c: string)
    requires SameLetters(a, b) && SameLetters(a, c)
    ensures b == c
  {
  }

  /** The name is an Ada keyword, in any letter case. */
  predicate IsKeyword(name: string) {
    || SameLetters(name, "and") || SameLetters(name, "or") || SameLetters(name, "xor") || SameLetters(name, "not")
    || SameLetters(name, "select")
  }

  lemma KeywordExactly(name: string)
    ensures Lower(name) in ADA_KEYWORDS <==> IsKeyword(name)
  {
    LowerIs(name);
    forall k | k in ADA_KEYWORDS && SameLetters(name, k) ensures Lower(name) == k {
      SameLettersOnce(name, Lower(name), k);
    }
  }

  /** The new name: "Build_" goes from the front unless it leaves a keyword, and then every "_Builder" goes. */
  lemma NewNameIs(name: string, rest: string)
    ensures name == "Build_" + rest ==> NewName(name) == Without(if IsKeyword(rest) then name else rest, "_Builder")
    ensures !StartsWith(name, "Build_") ==> NewName(name) == Without(name, "_Builder")
  {
    if name == "Build_" + rest {
      assert name[..6] == "Build_" && name[6..] == rest;
      KeywordExactly(rest);
    }
  }

  predicate Accepts(tr: Transformer, subp: Subp) {
    match tr.scope
    case AllTypes =>
      TakesArgs(tr, subp.args)
      || (subp.result.Some? && subp.result.value in tr.sources)
    case ReturnType => subp.result.Some? && subp.result.value in tr.sources
    case BooleanCheck => subp.result.Some? && subp.result.value in tr.sources && Contains(subp.name, "Is_")
  }

  function NewType(tr: Transformer, kind: string): string {
    if kind in tr.sources then tr.target else kind
  }

  function NewArgs(tr: Transformer, args: seq<Argument>): (r: seq<Argument>)
    ensures |r| == |args|
    ensures forall i :: 0 <= i < |args| ==>
      r[i] == Argument(args[i].name, if tr.scope.AllTypes? then NewType(tr, args[i].kind) else args[i].kind)
  {
    if args == [] then []
    else
      [Argument(args[0].name, if tr.scope.AllTypes? then NewType(tr, args[0].kind) else args[0].kind)] + NewArgs(tr, args[1..])
  }

  /** wrapper_fn. */
  function Wrap(tr: Transformer, subp: Subp): Subp {
    Subp(NewName(subp.name),
         if subp.result.Some? then Some(NewType(tr, subp.result.value)) else None,
         NewArgs(tr, subp.args), [])
  }

  /** No transformer makes a type that one of them transforms. */
  predicate Clean(trs: seq<Transformer>) {
    forall i, j :: 0 <= i < |trs| && 0 <= j < |trs| ==> trs[i].target !in trs[j].sources
  }

  /** A type that some transformer is for. */
  predicate IsSource(trs: seq<Transformer>, kind: string) {
    exists i :: 0 <= i < |trs| && kind in trs[i].sources
  }

  function ArgWork(trs: seq<Transformer>, args: seq<Argument>): nat {
    if args == [] then 0 else (if IsSource(trs, args[0].kind) then 1 else 0) + ArgWork(trs, args[1..])
  }

  /** The number of positions of the signature with a type that some transformer is for. */
  function Work(trs: seq<Transformer>, subp: Subp): nat {
    (if subp.result.Some? && IsSource(trs, subp.result.value) then 1 else 0) + ArgWork(trs, subp.args)
  }

  /** A transformed type needs no more work. */
  lemma NewTypeWork(trs: seq<Transformer>, k: nat, kind: string)
    requires Clean(trs) && k < |trs|
    ensures IsSource(trs, NewType(trs[k], kind)) ==> IsSource(trs, kind)
    ensures kind in trs[k].sources ==> IsSource(trs, kind) && !IsSource(trs, NewType(trs[k], kind))
  {
  }

  /** Some argument has a type that the transformer is for. */
  predicate TakesArgs(tr: Transformer, args: seq<Argument>) {
    exists i :: 0 <= i < |args| && args[i].kind in tr.sources
  }

  lemma {:induction false} ArgsWork(trs: seq<Transformer>, k: nat, args: seq<Argument>)
    requires Clean(trs) && k < |trs|
    ensures ArgWork(trs, NewArgs(trs[k], args)) <= ArgWork(trs, args)
    ensures trs[k].scope.AllTypes? && TakesArgs(trs[k], args) ==>
      ArgWork(trs, NewArgs(trs[k], args)) < ArgWork(trs, args)
  {
    if args != [] {
      NewTypeWork(trs, k, args[0].kind);
      ArgsWork(trs, k, args[1..]);
      assert NewArgs(trs[k], args)[1..] == NewArgs(trs[k], args[1..]);
      assert args == [args[0]] + args[1..];
    }
  }

  /** Each wrapper leaves less work than what it wraps. */
  lemma WrapShrinks(trs: seq<Transformer>, k: nat, subp: Subp)
    requires Clean(trs) && k < |trs| && Accepts(trs[k], subp)
    ensures Work(trs, Wrap(trs[k], subp)) < Work(trs, subp)
  {
    ArgsWork(trs, k, subp.args);
  }

  /** The wrappers made by the for loop from transformer k on, each around the one before. */
  function Pass(trs: seq<Transformer>, subp: Subp, k: nat): seq<Subp>
    requires k <= |trs|
    decreases |trs| - k
  {
    if k == |trs| then []
    else if Accepts(trs[k], subp) then [Wrap(trs[k], subp)] + Pass(trs, Wrap(trs[k], subp), k + 1)
    else Pass(trs, subp, k + 1)
  }

  /** The outermost subprogram of a chain around subp. */
  function Last(subp: Subp, chain: seq<Subp>): Subp {
    if chain == [] then subp else chain[|chain| - 1]
  }

  /** Each subprogram of the chain leaves less work than the one before it. */
  predicate Shrinking(trs: seq<Transformer>, subp: Subp, chain: seq<Subp>)
    decreases |chain|
  {
    chain == [] || (Work(trs, chain[0]) < Work(trs, subp) && Shrinking(trs, chain[0], chain[1..]))
  }

  lemma {:induction false} PassShrinks(trs: seq<Transformer>, subp: Subp, k: nat)
    requires Clean(trs) && k <= |trs|
    ensures Shrinking(trs, subp, Pass(trs, subp, k))
    decreases |trs| - k
  {
    if k < |trs| {
      if Accepts(trs[k], subp) {
        WrapShrinks(trs, k, subp);
        PassShrinks(trs, Wrap(trs[k], subp), k + 1);
        assert Pass(trs, subp, k)[1..] == Pass(trs, Wrap(trs[k], subp), k + 1);
      } else {
        PassShrinks(trs, subp, k + 1);
      }
    }
  }

  lemma {:induction false} LastShrinks(trs: seq<Transformer>, subp: Subp, chain: seq<Subp>)
    requires Shrinking(trs, subp, chain)
    ensures Work(trs, Last(subp, chain)) <= Work(trs, subp)
    ensures chain != [] ==> Work(trs, Last(subp, chain)) < Work(trs, subp)
    decreases |chain|
  {
    if chain != [] {
      LastShrinks(trs, chain[0], chain[1..]);
      assert Last(subp, chain) == Last(chain[0], chain[1..]);
    }
  }

  /** transform_fixpoint: all wrappers, in the order in which they are made. */
  function Chain(trs: seq<Transformer>, subp: Subp): seq<Subp>
    requires Clean(trs)
    decreases Work(trs, subp)
  {
    var pass := Pass(trs, subp, 0);
    if pass == [] then []
    else
      PassShrinks(trs, subp, 0);
      LastShrinks(trs, subp, pass);
      pass + Chain(trs, Last(subp, pass))
  }

  lemma {:induction false} EmptyPass(trs: seq<Transformer>, subp: Subp, k: nat, j: nat)
    requires k <= j < |trs| && Pass(trs, subp, k) == []
    ensures !Accepts(trs[j], subp)
    decreases |trs| - k
  {
    if k < j {
      EmptyPass(trs, subp, k + 1, j);
    }
  }

  /** The fixpoint is reached: no transformer accepts the last wrapper. */
  lemma {:induction false} ChainEnds(trs: seq<Transformer>, subp: Subp, j: nat)
    requires Clean(trs) && j < |trs|
    ensures !Accepts(trs[j], Last(subp, Chain(trs, subp)))
    decreases Work(trs, subp)
  {
    var pass := Pass(trs, subp, 0);
    if pass == [] {
      EmptyPass(trs, subp, 0, j);
    } else {
      PassShrinks(trs, subp, 0);
      LastShrinks(trs, subp, pass);
      ChainEnds(trs, Last(subp, pass), j);
    }
  }

  /** A subprogram is wrapped exactly when some transformer accepts it. */
  lemma WrappedExactly(trs: seq<Transformer>, subp: Subp)
    requires Clean(trs)
    ensures Chain(trs, subp) != [] <==> exists j :: 0 <= j < |trs| && Accepts(trs[j], subp)
  {
    if Chain(trs, subp) == [] {
      forall j | 0 <= j < |trs| ensures !Accepts(trs[j], subp) {
        EmptyPass(trs, subp, 0, j);
      }
    } else {
      NonEmptyPass(trs, subp, 0);
    }
  }

  /** is_wrapper_needed, on what the loop does: the initialization subprograms are never wrapped. */
  method IsWrapperNeeded(trs: seq<Transformer>, element: Subp) returns (needed: bool)
    requires Clean(trs)
    ensures needed <==> !StartsWith(element.name, "Initialize_Native_") && Chain(trs, element) != []
  {
    WrappedExactly(trs, element);
    if StartsWith(element.name, "Initialize_Native_") {
      return false;
    }
    for i := 0 to |trs|
      invariant forall j :: 0 <= j < i ==> !Accepts(trs[j], element)
    {
      if Accepts(trs[i], element) {
        return true;
      }
    }
    needed := false;
  }

  /** What the generator does with a subprogram: it replaces it by the last wrapper if it needs one. */
  method Replacement(trs: seq<Transformer>, element: Subp) returns (shown: Subp)
    requires Clean(trs)
    ensures shown == if StartsWith(element.name, "Initialize_Native_") then element else Last(element, Chain(trs, element))
  {
    shown := element;
    var needed := IsWrapperNeeded(trs, element);
    if needed {
      var exposed := GenerateDecl(trs, element);
      shown := exposed.value;
    }
  }

  lemma {:induction false} NonEmptyPass(trs: seq<Transformer>, subp: Subp, k: nat)
    requires k <= |trs| && Pass(trs, subp, k) != []
    ensures exists j :: 0 <= j < |trs| && Accepts(trs[j], subp)
    decreases |trs| - k
  {
    if !Accepts(trs[k], subp) {
      NonEmptyPass(trs, subp, k + 1);
    }
  }

  /** Number, order and names of the arguments, and whether there is a result. */
  predicate SameShape(a: Subp, b: Subp) {
    && a.result.Some? == b.result.Some? && |a.args| == |b.args|
    && forall i :: 0 <= i < |a.args| ==> a.args[i].name == b.args[i].name
  }

  /** The argument type that the transformers of all types make of a type: the first that is for it decides. */
  function ArgKind(trs: seq<Transformer>, kind: string): string {
    if trs == [] then kind
    else if trs[0].scope.AllTypes? && kind in trs[0].sources then trs[0].target
    else ArgKind(trs[1..], kind)
  }

  lemma {:induction false} ArgKindIs(trs: seq<Transformer>, kind: string, k: nat)
    requires k <= |trs| && forall j :: 0 <= j < k && trs[j].scope.AllTypes? ==> kind !in trs[j].sources
    ensures k == |trs| ==> ArgKind(trs, kind) == kind
    ensures k < |trs| && trs[k].scope.AllTypes? && kind in trs[k].sources ==> ArgKind(trs, kind) == trs[k].target
  {
    if k > 0 {
      forall j | 0 <= j < k - 1 && trs[1..][j].scope.AllTypes? ensures kind !in trs[1..][j].sources {
        assert trs[1..][j] == trs[j + 1];
      }
      ArgKindIs(trs[1..], kind, k - 1);
    }
  }

  /** a has the argument types of b, transformed as far as it may be. */
  predicate SameKinds(trs: seq<Transformer>, a: Subp, b: Subp) {
    |a.args| == |b.args| && forall i :: 0 <= i < |a.args| ==> ArgKind(trs, a.args[i].kind) == ArgKind(trs, b.args[i].kind)
  }

  /** No argument has a type for one of the first k transformers of all types. */
  predicate DoneTo(trs: seq<Transformer>, subp: Subp, k: nat)
    requires k <= |trs|
  {
    forall i, j :: 0 <= i < |subp.args| && 0 <= j < k && trs[j].scope.AllTypes? ==> subp.args[i].kind !in trs[j].sources
  }

  lemma WrapKeeps(trs: seq<Transformer>, k: nat, subp: Subp)
    requires Clean(trs) && k < |trs| && DoneTo(trs, subp, k)
    ensures SameShape(Wrap(trs[k], subp), subp) && SameKinds(trs, Wrap(trs[k], subp), subp)
    ensures DoneTo(trs, Wrap(trs[k], subp), k + 1)
  {
    var w := Wrap(trs[k], subp);
    forall i | 0 <= i < |subp.args| ensures ArgKind(trs, w.args[i].kind) == ArgKind(trs, subp.args[i].kind) {
      ArgKindIs(trs, subp.args[i].kind, k);
      if trs[k].scope.AllTypes? && subp.args[i].kind in trs[k].sources {
        ArgKindIs(trs, trs[k].target, |trs|);
      }
    }
  }

  lemma {:induction false} PassKeeps(trs: seq<Transformer>, subp: Subp, k: nat)
    requires Clean(trs) && k <= |trs| && DoneTo(trs, subp, k)
    ensures SameShape(Last(subp, Pass(trs, subp, k)), subp) && SameKinds(trs, Last(subp, Pass(trs, subp, k)), subp)
    decreases |trs| - k
  {
    if k < |trs| {
      if Accepts(trs[k], subp) {
        var w := Wrap(trs[k], subp);
        WrapKeeps(trs, k, subp);
        PassKeeps(trs, w, k + 1);
      } else {
        PassKeeps(trs, subp, k + 1);
      }
    }
  }

  lemma {:induction false} ChainKeeps(trs: seq<Transformer>, subp: Subp)
    requires Clean(trs)
    ensures SameShape(Last(subp, Chain(trs, subp)), subp) && SameKinds(trs, Last(subp, Chain(trs, subp)), subp)
    decreases Work(trs, subp)
  {
    var pass := Pass(trs, subp, 0);
    if pass != [] {
      PassShrinks(trs, subp, 0);
      LastShrinks(trs, subp, pass);
      PassKeeps(trs, subp, 0);
      ChainKeeps(trs, Last(subp, pass));
    }
  }

  /** The name after n wrappers. */
  function Renamed(name: string, n: nat): string
    decreases n
  {
    if n == 0 then name else Renamed(NewName(name), n - 1)
  }

  lemma {:induction false} PassNames(trs: seq<Transformer>, subp: Subp, k: nat)
    requires k <= |trs|
    ensures var pass := Pass(trs, subp, k);
      Last(subp, pass).name == Renamed(subp.name, |pass|) && (pass != [] ==> Last(subp, pass).aspects == [])
    decreases |trs| - k
  {
    if k < |trs| {
      if Accepts(trs[k], subp) {
        PassNames(trs, Wrap(trs[k], subp), k + 1);
      } else {
        PassNames(trs, subp, k + 1);
      }
    }
  }

  lemma {:induction false} RenamedBoth(name: string, m: nat, n: nat)
    ensures Renamed(Renamed(name, m), n) == Renamed(name, m + n)
    decreases m
  {
    if m > 0 {
      RenamedBoth(NewName(name), m - 1, n);
    }
  }

  /** What is exposed has been renamed once for each wrapper, and a wrapper has no aspects. */
  lemma {:induction false} ExposedName(trs: seq<Transformer>, subp: Subp)
    requires Clean(trs)
    ensures var chain := Chain(trs, subp);
      Last(subp, chain).name == Renamed(subp.name, |chain|) && (chain != [] ==> Last(subp, chain).aspects == [])
    decreases Work(trs, subp)
  {
    var pass := Pass(trs, subp, 0);
    PassNames(trs, subp, 0);
    if pass != [] {
      PassShrinks(trs, subp, 0);
      LastShrinks(trs, subp, pass);
      ExposedName(trs, Last(subp, pass));
      RenamedBoth(subp.name, |pass|, |Chain(trs, Last(subp, pass))|);
    }
  }

  /** The result is as before, or one transformer that is for its type has changed it. */
  predicate ResultFrom(trs: seq<Transformer>, before: Subp, after: Subp) {
    && before.result.Some? == after.result.Some?
    && (before.result != after.result ==>
          exists j :: 0 <= j < |trs| && before.result.value in trs[j].sources && after.result.value == trs[j].target)
  }

  /** A result that a transformer has changed stays. */
  lemma ResultBoth(trs: seq<Transformer>, a: Subp, b: Subp, c: Subp)
    requires Clean(trs) && ResultFrom(trs, a, b) && ResultFrom(trs, b, c)
    ensures ResultFrom(trs, a, c) && (a.result != b.result ==> b.result == c.result)
  {
  }

  lemma {:induction false} PassResult(trs: seq<Transformer>, subp: Subp, k: nat)
    requires Clean(trs) && k <= |trs|
    ensures ResultFrom(trs, subp, Last(subp, Pass(trs, subp, k)))
    decreases |trs| - k
  {
    if k < |trs| {
      if Accepts(trs[k], subp) {
        var w := Wrap(trs[k], subp);
        PassResult(trs, w, k + 1);
        assert Last(subp, Pass(trs, subp, k)) == Last(w, Pass(trs, w, k + 1));
        assert ResultFrom(trs, subp, w);
        ResultBoth(trs, subp, w, Last(w, Pass(trs, w, k + 1)));
      } else {
        PassResult(trs, subp, k + 1);
      }
    }
  }

  lemma {:induction false} ChainResult(trs: seq<Transformer>, subp: Subp)
    requires Clean(trs)
    ensures ResultFrom(trs, subp, Last(subp, Chain(trs, subp)))
    ensures Last(subp, Pass(trs, subp, 0)).result != subp.result ==>
      Last(subp, Chain(trs, subp)).result == Last(subp, Pass(trs, subp, 0)).result
    decreases Work(trs, subp)
  {
    var pass := Pass(trs, subp, 0);
    PassResult(trs, subp, 0);
    if pass != [] {
      PassShrinks(trs, subp, 0);
      LastShrinks(trs, subp, pass);
      var mid := Last(subp, pass);
      ChainResult(trs, mid);
      assert Last(subp, Chain(trs, subp)) == Last(mid, Chain(trs, mid));
      ResultBoth(trs, subp, mid, Last(mid, Chain(trs, mid)));
    }
  }

  /** Transformer k is the first that is for the result's type, and it takes every subprogram with such a result. */
  predicate Decides(trs: seq<Transformer>, kind: string, k: nat) {
    && k < |trs| && kind in trs[k].sources && !trs[k].scope.BooleanCheck?
    && forall j :: 0 <= j < k ==> kind !in trs[j].sources
  }

  lemma {:induction false} PassDecided(trs: seq<Transformer>, subp: Subp, i: nat, k: nat)
    requires Clean(trs) && i <= k && subp.result.Some? && Decides(trs, subp.result.value, k)
    ensures Last(subp, Pass(trs, subp, i)).result == Some(trs[k].target)
    decreases |trs| - i
  {
    if Accepts(trs[i], subp) {
      var w := Wrap(trs[i], subp);
      assert Last(subp, Pass(trs, subp, i)) == Last(w, Pass(trs, w, i + 1));
      if i < k {
        PassDecided(trs, w, i + 1, k);
      } else {
        PassResult(trs, w, i + 1);
      }
    } else {
      PassDecided(trs, subp, i + 1, k);
    }
  }

  /**
   The result type that is exposed: there is one if there was one. It is kept if no transformer is for it, and the first
   transformer that is for it decides unless that is a boolean check. After a check it is either of these; it is kept
   only if all that are for it are checks and the exposed name does not look like one.
   */
  lemma ExposedResult(trs: seq<Transformer>, subp: Subp, k: nat)
    requires Clean(trs)
    ensures var exposed := Last(subp, Chain(trs, subp));
      && ResultFrom(trs, subp, exposed)
      && (subp.result.Some? && Decides(trs, subp.result.value, k) ==> exposed.result == Some(trs[k].target))
      && (exposed.result.Some? && exposed.result == subp.result ==> forall j :: 0 <= j < |trs| ==>
            exposed.result.value in trs[j].sources ==> trs[j].scope.BooleanCheck? && !Contains(exposed.name, "Is_"))
  {
    var exposed := Last(subp, Chain(trs, subp));
    ChainResult(trs, subp);
    forall j | 0 <= j < |trs| ensures !Accepts(trs[j], exposed) {
      ChainEnds(trs, subp, j);
    }
    if subp.result.Some? && Decides(trs, subp.result.value, k) {
      PassDecided(trs, subp, 0, k);
    }
  }

  /** The signature that is exposed: arguments as before, each with the type its first transformer gives. */
  lemma ExposedSignature(trs: seq<Transformer>, subp: Subp)
    requires Clean(trs)
    ensures var exposed := Last(subp, Chain(trs, subp));
      && SameShape(exposed, subp)
      && (forall i :: 0 <= i < |subp.args| ==> exposed.args[i].kind == ArgKind(trs, subp.args[i].kind))
      && (forall j :: 0 <= j < |trs| ==> !Accepts(trs[j], exposed))
  {
    var exposed := Last(subp, Chain(trs, subp));
    ChainKeeps(trs, subp);
    forall j | 0 <= j < |trs| ensures !Accepts(trs[j], exposed) {
      ChainEnds(trs, subp, j);
    }
    forall i | 0 <= i < |subp.args| ensures exposed.args[i].kind == ArgKind(trs, subp.args[i].kind) {
      ArgKindIs(trs, exposed.args[i].kind, |trs|);
    }
  }

  lemma {:induction false} ShrinkingBoth(trs: seq<Transformer>, subp: Subp, a: seq<Subp>, b: seq<Subp>)
    requires Shrinking(trs, subp, a) && Shrinking(trs, Last(subp, a), b)
    ensures Shrinking(trs, subp, a + b)
    decreases |a|
  {
    if a == [] {
      assert a + b == b;
    } else {
      assert (a + b)[1..] == a[1..] + b;
      assert [a[0]] + a[1..] == a;
      ShrinkingBoth(trs, a[0], a[1..], b);
    }
  }

  lemma {:induction false} ChainShrinks(trs: seq<Transformer>, subp: Subp)
    requires Clean(trs)
    ensures Shrinking(trs, subp, Chain(trs, subp))
    decreases Work(trs, subp)
  {
    var pass := Pass(trs, subp, 0);
    if pass != [] {
      PassShrinks(trs, subp, 0);
      LastShrinks(trs, subp, pass);
      ChainShrinks(trs, Last(subp, pass));
      ShrinkingBoth(trs, subp, pass, Chain(trs, Last(subp, pass)));
    }
  }

  /** The types of a signature, which tell overloaded subprograms apart. */
  predicate SameProfile(a: Subp, b: Subp) {
    a.result == b.result && |a.args| == |b.args| && forall i :: 0 <= i < |a.args| ==> a.args[i].kind == b.args[i].kind
  }

  lemma {:induction false} ProfileWork(trs: seq<Transformer>, a: seq<Argument>, b: seq<Argument>)
    requires |a| == |b| && forall i :: 0 <= i < |a| ==> a[i].kind == b[i].kind
    ensures ArgWork(trs, a) == ArgWork(trs, b)
  {
    if a != [] {
      ProfileWork(trs, a[1..], b[1..]);
    }
  }

  lemma {:induction false} LaterIsSmaller(trs: seq<Transformer>, subp: Subp, chain: seq<Subp>, i: nat)
    requires Shrinking(trs, subp, chain) && i < |chain|
    ensures Work(trs, chain[i]) < Work(trs, subp)
    ensures Shrinking(trs, chain[i], chain[i + 1..])
    decreases i
  {
    if i > 0 {
      LaterIsSmaller(trs, chain[0], chain[1..], i - 1);
      assert chain[1..][i..] == chain[i + 1..];
    } else {
      assert chain[0 + 1..] == chain[1..];
    }
  }

  /** The C function and its wrappers all have different profiles, so calls from one to the next are not ambiguous. */
  lemma ProfilesDiffer(trs: seq<Transformer>, subp: Subp, i: nat, j: nat)
    requires Clean(trs) && i < j <= |Chain(trs, subp)|
    ensures var all := [subp] + Chain(trs, subp); !SameProfile(all[i], all[j])
  {
    var chain := Chain(trs, subp);
    var all := [subp] + chain;
    ChainShrinks(trs, subp);
    if i == 0 {
      LaterIsSmaller(trs, subp, chain, j - 1);
    } else {
      LaterIsSmaller(trs, subp, chain, i - 1);
      assert chain[i..][j - 1 - i] == chain[j - 1];
      LaterIsSmaller(trs, chain[i - 1], chain[i..], j - 1 - i);
    }
    assert Work(trs, all[j]) < Work(trs, all[i]);
    if SameProfile(all[i], all[j]) {
      ProfileWork(trs, all[i].args, all[j].args);
    }
  }

  /** The for loop of transform_fixpoint, with generate_decl's callback, which keeps the last wrapper. */
  method Round(trs: seq<Transformer>, start: Subp, exposedBefore: Option<Subp>)
    returns (subp: Subp, accepted: bool, exposed: Option<Subp>)
    ensures var pass := Pass(trs, start, 0);
      && subp == Last(start, pass) && (accepted <==> pass != [])
      && exposed == if accepted then Some(subp) else exposedBefore
  {
    subp, accepted, exposed := start, false, exposedBefore;
    ghost var pass, done := Pass(trs, start, 0), [];
    assert [] + pass == pass;
    for k := 0 to |trs|
      invariant done + Pass(trs, subp, k) == pass && subp == Last(start, done)
      invariant accepted <==> done != []
      invariant exposed == if accepted then Some(subp) else exposedBefore
    {
      if Accepts(trs[k], subp) {
        exposed := Some(Wrap(trs[k], subp));
        subp := Wrap(trs[k], subp);
        accepted := true;
        done := done + [subp];
      }
    }
    assert done + [] == done;
  }

  /** generate_decl: the signature of the last wrapper, if there is one. */
  method GenerateDecl(trs: seq<Transformer>, subprogram: Subp) returns (exposed: Option<Subp>)
    requires Clean(trs)
    ensures exposed == if Chain(trs, subprogram) == [] then None else Some(Last(subprogram, Chain(trs, subprogram)))
  {
    exposed := None;
    var subp, accepted := subprogram, true;
    ghost var made := [];
    assert [] + Chain(trs, subprogram) == Chain(trs, subprogram);
    while accepted
      invariant accepted ==> made + Chain(trs, subp) == Chain(trs, subprogram)
      invariant !accepted ==> made == Chain(trs, subprogram)
      invariant subp == Last(subprogram, made) && exposed == if made == [] then None else Some(subp)
      decreases Work(trs, subp), accepted
    {
      ghost var pass := Pass(trs, subp, 0);
      PassShrinks(trs, subp, 0);
      LastShrinks(trs, subp, pass);
      assert made + (pass + Chain(trs, Last(subp, pass))) == made + pass + Chain(trs, Last(subp, pass));
      assert made + [] == made;
      subp, accepted, exposed := Round(trs, subp, exposed);
      made := made + pass;
    }
  }

  /** The transformers of the binding generator. */
  const TRANSFORMERS: seq<Transformer> := [
    Transformer(AllTypes, {"Interfaces.C.Strings.chars_ptr"}, "String"),
    Transformer(AllTypes, {"Bool_T", "LLVM.Types.Bool_T"}, "Boolean"),
    Transformer(ReturnType, {"Clang.CX_String.String_T"}, "String"),
    Transformer(BooleanCheck, {"unsigned", "int"}, "Boolean")
  ]

  lemma Generators()
    ensures Clean(TRANSFORMERS)
    ensures TRANSFORMERS[0] == Transformer(AllTypes, {"Interfaces.C.Strings.chars_ptr"}, "String")
    ensures TRANSFORMERS[1] == Transformer(AllTypes, {"Bool_T", "LLVM.Types.Bool_T"}, "Boolean")
    ensures TRANSFORMERS[2] == Transformer(ReturnType, {"Clang.CX_String.String_T"}, "String")
    ensures TRANSFORMERS[3] == Transformer(BooleanCheck, {"unsigned", "int"}, "Boolean")
  {
  }

  /** What one round of the for loop makes of the current subprogram. */
  function Next(tr: Transformer, subp: Subp): Subp {
    if Accepts(tr, subp) then Wrap(tr, subp) else subp
  }

  lemma PassNext(trs: seq<Transformer>, subp: Subp, k: nat)
    requires k < |trs|
    ensures Last(subp, Pass(trs, subp, k)) == Last(Next(trs[k], subp), Pass(trs, Next(trs[k], subp), k + 1))
  {
  }

  /** The wrapper for C strings and booleans in the arguments, which the check sees. */
  function BeforeCheck(subp: Subp): Subp {
    Next(TRANSFORMERS[1], Next(TRANSFORMERS[0], subp))
  }

  /** How many wrappers the arguments need: one for C strings, one for C booleans. */
  function ArgumentWrappers(subp: Subp): nat {
    (if exists i :: 0 <= i < |subp.args| && subp.args[i].kind == "Interfaces.C.Strings.chars_ptr" then 1 else 0) +
    (if exists i :: 0 <= i < |subp.args| && subp.args[i].kind in {"Bool_T", "LLVM.Types.Bool_T"} then 1 else 0)
  }

  lemma TwoRenamings(first: Transformer, second: Transformer, subp: Subp)
    requires first.scope.AllTypes? && second.scope.AllTypes? && first.target !in second.sources
    requires first.sources !! second.sources
    requires subp.result.Some? ==> subp.result.value !in first.sources && subp.result.value !in second.sources
    ensures Next(second, Next(first, subp)).name ==
      Renamed(subp.name, (if TakesArgs(first, subp.args) then 1 else 0) + (if TakesArgs(second, subp.args) then 1 else 0))
  {
    var once := Next(first, subp);
    assert TakesArgs(second, once.args) <==> TakesArgs(second, subp.args) by {
      if i :| 0 <= i < |subp.args| && subp.args[i].kind in second.sources {
        assert once.args[i].kind in second.sources;
      }
      if i :| 0 <= i < |once.args| && once.args[i].kind in second.sources {
        assert subp.args[i].kind in second.sources;
      }
    }
    assert Renamed(subp.name, 0) == subp.name && Renamed(subp.name, 1) == NewName(subp.name);
    assert Renamed(subp.name, 2) == Renamed(NewName(subp.name), 1) == NewName(NewName(subp.name));
  }

  lemma NameAtCheck(subp: Subp)
    requires subp.result.Some? && subp.result.value in {"unsigned", "int"}
    ensures BeforeCheck(subp).name == Renamed(subp.name, ArgumentWrappers(subp))
  {
    Generators();
    ForNumbers(subp.result.value);
    var strings, booleans := TRANSFORMERS[0], TRANSFORMERS[1];
    assert strings.sources !! booleans.sources by {
      assert "Interfaces.C.Strings.chars_ptr"[0] == 'I' && "Bool_T"[0] == 'B' && "LLVM.Types.Bool_T"[0] == 'L';
    }
    TwoRenamings(strings, booleans, subp);
  }

  /**
   A number is exposed as a truth value if and only if the name, renamed once for each wrapper that the arguments need,
   has "Is_" in it.
   */
  lemma CheckedResult(subp: Subp)
    requires subp.result.Some? && subp.result.value in {"unsigned", "int"}
    ensures Last(subp, Chain(TRANSFORMERS, subp)).result ==
      if Contains(Renamed(subp.name, ArgumentWrappers(subp)), "Is_") then Some("Boolean") else subp.result
  {
    NameAtCheck(subp);
    Generators();
    var wrapped := BeforeCheck(subp);
    var end := Last(subp, Pass(TRANSFORMERS, subp, 0));
    FirstPass(subp);
    ChainResult(TRANSFORMERS, subp);
    if !Contains(wrapped.name, "Is_") {
      NothingMore(subp);
      WrappedExactly(TRANSFORMERS, wrapped);
      assert Last(subp, Chain(TRANSFORMERS, subp)).result == wrapped.result;
    }
  }

  lemma FourRounds(trs: seq<Transformer>, subp: Subp)
    requires |trs| == 4
    ensures Last(subp, Pass(trs, subp, 0)) == Next(trs[3], Next(trs[2], Next(trs[1], Next(trs[0], subp))))
  {
    var first := Next(trs[0], subp);
    var second := Next(trs[1], first);
    PassNext(trs, subp, 0);
    PassNext(trs, first, 1);
    PassNext(trs, second, 2);
    PassNext(trs, Next(trs[2], second), 3);
  }

  /** Only the check is for numbers. */
  lemma ForNumbers(kind: string)
    requires kind in {"unsigned", "int"}
    ensures |TRANSFORMERS| == 4 && forall j :: 0 <= j < 3 ==> kind !in TRANSFORMERS[j].sources
  {
    Generators();
    assert kind[0] in {'u', 'i'};
  }

  lemma FirstPass(subp: Subp)
    requires subp.result.Some? && subp.result.value in {"unsigned", "int"}
    ensures Last(subp, Pass(TRANSFORMERS, subp, 0)) == Next(TRANSFORMERS[3], BeforeCheck(subp))
    ensures BeforeCheck(subp).result == subp.result && !Accepts(TRANSFORMERS[2], BeforeCheck(subp))
  {
    ForNumbers(subp.result.value);
    Generators();
    FourRounds(TRANSFORMERS, subp);
  }

  /** Without "Is_" in the name a number is not wrapped any more once its arguments are. */
  lemma NothingMore(subp: Subp)
    requires subp.result.Some? && subp.result.value in {"unsigned", "int"} && !Contains(BeforeCheck(subp).name, "Is_")
    ensures BeforeCheck(subp).result == subp.result
    ensures forall j :: 0 <= j < |TRANSFORMERS| ==> !Accepts(TRANSFORMERS[j], BeforeCheck(subp))
  {
    FirstPass(subp);
    ForNumbers(subp.result.value);
    Generators();
    DoneArgs(TRANSFORMERS, subp);
  }

  /** After two transformers of all types, neither is for an argument any more. */
  lemma DoneArgs(trs: seq<Transformer>, subp: Subp)
    requires Clean(trs) && |trs| >= 2 && trs[0].scope.AllTypes? && trs[1].scope.AllTypes?
    ensures var wrapped := Next(trs[1], Next(trs[0], subp));
      !TakesArgs(trs[0], wrapped.args) && !TakesArgs(trs[1], wrapped.args)
  {
  }

  /** The type that the binding generator exposes for an argument. */
  function OwnArgument(kind: string): string {
    if kind == "Interfaces.C.Strings.chars_ptr" then "String"
    else if kind in {"Bool_T", "LLVM.Types.Bool_T"} then "Boolean"
    else kind
  }

  /** The same for a result, except for numbers, for which the name decides. */
  function OwnResult(kind: string): string {
    if kind == "Clang.CX_String.String_T" then "String" else OwnArgument(kind)
  }

  lemma OwnArgumentIs(kind: string)
    ensures ArgKind(TRANSFORMERS, kind) == OwnArgument(kind)
  {
    Generators();
    ArgKindOfFour(TRANSFORMERS, kind);
  }

  lemma ArgKindOfFour(trs: seq<Transformer>, kind: string)
    requires |trs| == 4 && trs[0].scope.AllTypes? && trs[1].scope.AllTypes? && !trs[2].scope.AllTypes? && !trs[3].scope.AllTypes?
    ensures ArgKind(trs, kind) ==
      if kind in trs[0].sources then trs[0].target else if kind in trs[1].sources then trs[1].target else kind
  {
    assert trs[1..][1..] == trs[2..] && trs[2..][1..] == trs[3..] && trs[3..][1..] == [];
    assert trs[1..][0] == trs[1] && trs[2..][0] == trs[2] && trs[3..][0] == trs[3];
    assert ArgKind(trs[3..], kind) == kind;
    assert ArgKind(trs[2..], kind) == kind;
  }

  /** The signature that the binding generator exposes: each argument and, unless it is a number, the result. */
  lemma OwnSignature(subp: Subp)
    ensures Clean(TRANSFORMERS)
    ensures var exposed := Last(subp, Chain(TRANSFORMERS, subp));
      && SameShape(exposed, subp)
      && (forall i :: 0 <= i < |subp.args| ==> exposed.args[i].kind == OwnArgument(subp.args[i].kind))
      && (subp.result.Some? && subp.result.value !in {"unsigned", "int"} ==>
            exposed.result == Some(OwnResult(subp.result.value)))
  {
    Generators();
    ExposedSignature(TRANSFORMERS, subp);
    forall i | 0 <= i < |subp.args| ensures ArgKind(TRANSFORMERS, subp.args[i].kind) == OwnArgument(subp.args[i].kind) {
      OwnArgumentIs(subp.args[i].kind);
    }
    if subp.result.Some? && subp.result.value !in {"unsigned", "int"} {
      OwnResultIs(subp);
    }
  }

  lemma OwnResultIs(subp: Subp)
    requires subp.result.Some? && subp.result.value !in {"unsigned", "int"}
    ensures Last(subp, Chain(TRANSFORMERS, subp)).result == Some(OwnResult(subp.result.value))
  {
    Generators();
    assert TRANSFORMERS[3].sources == {"unsigned", "int"};
    ResultOfFour(TRANSFORMERS, subp);
    ResultCases(subp.result.value, TRANSFORMERS[0], TRANSFORMERS[1], TRANSFORMERS[2]);
  }

  lemma ResultCases(kind: string, strings: Transformer, booleans: Transformer, clang: Transformer)
    requires strings.sources == {"Interfaces.C.Strings.chars_ptr"} && strings.target == "String"
    requires booleans.sources == {"Bool_T", "LLVM.Types.Bool_T"} && booleans.target == "Boolean"
    requires clang.sources == {"Clang.CX_String.String_T"} && clang.target == "String"
    ensures OwnResult(kind) ==
      if kind in strings.sources then strings.target
      else if kind in booleans.sources then booleans.target
      else if kind in clang.sources then clang.target
      else kind
  {
    assert kind == "Clang.CX_String.String_T" ==> kind[0] == 'C';
    assert kind in {"Interfaces.C.Strings.chars_ptr", "Bool_T", "LLVM.Types.Bool_T"} ==> kind[0] in {'I', 'B', 'L'};
  }

  lemma ResultOfFour(trs: seq<Transformer>, subp: Subp)
    requires Clean(trs) && |trs| == 4 && subp.result.Some? && subp.result.value !in trs[3].sources
    requires forall j :: 0 <= j < 3 ==> !trs[j].scope.BooleanCheck?
    ensures var kind := subp.result.value;
      Last(subp, Chain(trs, subp)).result == Some(
        if kind in trs[0].sources then trs[0].target
        else if kind in trs[1].sources then trs[1].target
        else if kind in trs[2].sources then trs[2].target
        else kind)
  {
    ExposedResult(trs, subp, 0);
    ExposedResult(trs, subp, 1);
    ExposedResult(trs, subp, 2);
  }

  /** What the binding generator exposes has no C string and no C boolean left. */
  lemma NoCTypesExposed(subp: Subp)
    ensures Clean(TRANSFORMERS)
    ensures var exposed := Last(subp, Chain(TRANSFORMERS, subp));
      var cTypes := {"Interfaces.C.Strings.chars_ptr", "Bool_T", "LLVM.Types.Bool_T"};
      && (forall i :: 0 <= i < |exposed.args| ==> exposed.args[i].kind !in cTypes)
      && (exposed.result.Some? ==>
            && exposed.result.value !in cTypes && exposed.result.value != "Clang.CX_String.String_T"
            && (exposed.result.value in {"unsigned", "int"} ==> !Contains(exposed.name, "Is_")))
  {
    Generators();
    ChainEnds(TRANSFORMERS, subp, 0);
    ChainEnds(TRANSFORMERS, subp, 1);
    ChainEnds(TRANSFORMERS, subp, 2);
    ChainEnds(TRANSFORMERS, subp, 3);
  }
}
