/** Compiling directory rules to a tree, and interpreting it. */
module SourceTrees {
  import opened Wrappers
  import opened Rules

  type Dir = string

  /** A dumped dictionary: the directories of "_srcs", then one entry per "variable:value" key. */
  datatype Node = Node(srcs: seq<Dir>, branches: seq<Branch>)
  datatype Branch = Branch(variable: Var, value: Val, sub: Node)

  /** The directories that the installer takes from a tree, for an assignment. */
  function Eval(n: Node, a: Assignment): seq<Dir>
    decreases n
  {
    n.srcs + EvalBranches(n.branches, a)
  }

  function EvalBranches(bs: seq<Branch>, a: Assignment): seq<Dir>
    decreases bs
  {
    if bs == [] then [] else EvalBranch(bs[0], a) + EvalBranches(bs[1..], a)
  }

  function EvalBranch(b: Branch, a: Assignment): seq<Dir>
    decreases b
  {
    if b.variable in a && a[b.variable] == b.value then Eval(b.sub, a) else []
  }

  /** _get_rts_dirs */
  method GetRtsDirs(n: Node, a: Assignment) returns (ret: seq<Dir>)
    ensures ret == Eval(n, a)
    decreases n
  {
    ret := n.srcs;
    for i := 0 to |n.branches|
      invariant ret + EvalBranches(n.branches[i..], a) == Eval(n, a)
    {
      var b := n.branches[i];
      assert n.branches[i..][0] == b && n.branches[i..][1..] == n.branches[i + 1..];
      if b.variable in a && a[b.variable] == b.value {
        var more := GetRtsDirs(b.sub, a);
        ret := ret + more;
      }
    }
    assert n.branches[|n.branches|..] == [];
  }

  lemma {:induction false} EvalAppend(bs: seq<Branch>, b: Branch, a: Assignment)
    ensures EvalBranches(bs + [b], a) == EvalBranches(bs, a) + EvalBranch(b, a)
  {
    if bs == [] {
      assert bs + [b] == [b];
    } else {
      EvalAppend(bs[1..], b, a);
      assert (bs + [b])[1..] == bs[1..] + [b];
    }
  }

  /** env is part of the assignment. */
  predicate Extends(a: Assignment, env: Assignment) {
    forall v :: v in env ==> v in a && a[v] == env[v]
  }

  /** The rule constrains all variables of env, and besides only variables of vars. */
  predicate Within(r: Rule, env: Assignment, vars: seq<Var>) {
    (forall v :: v in env ==> v in r.values) && (forall v :: v in r.values ==> v in env || v in vars)
  }

  /** The directories that a call with this environment and these variables still has to list. */
  function Wanted(dirs: map<Dir, Rule>, env: Assignment, vars: seq<Var>, a: Assignment): set<Dir> {
    set d | d in dirs && dirs[d].Matches(a, false) && Within(dirs[d], env, vars)
  }

  /** Of those, the ones that are listed in the node itself or below one of its first j variables. */
  function WantedUpTo(dirs: map<Dir, Rule>, env: Assignment, vars: seq<Var>, a: Assignment, j: nat): set<Dir>
    requires j <= |vars|
  {
    set d | d in Wanted(dirs, env, vars, a) &&
      (dirs[d].values.Keys == env.Keys || exists i :: 0 <= i < j && vars[i] in dirs[d].values)
  }

  predicate NoDups(vars: seq<Var>, env: Assignment) {
    NoDuplicates(vars) && forall v :: v in vars ==> v !in env
  }

  /** Adding variable j adds what is wanted below it, which nothing before it has listed. */
  lemma NextVariable(dirs: map<Dir, Rule>, env: Assignment, vars: seq<Var>, a: Assignment, j: nat)
    requires j < |vars| && NoDups(vars, env) && Extends(a, env)
    ensures var next := vars[j];
      var below := if next in a then Wanted(dirs, env[next := a[next]], vars[j + 1..], a) else {};
      && WantedUpTo(dirs, env, vars, a, j) !! below
      && WantedUpTo(dirs, env, vars, a, j + 1) == WantedUpTo(dirs, env, vars, a, j) + below
  {
    var next, rest := vars[j], vars[j + 1..];
    var below := if next in a then Wanted(dirs, env[next := a[next]], rest, a) else {};
    forall d | d in below ensures d in WantedUpTo(dirs, env, vars, a, j + 1) && d !in WantedUpTo(dirs, env, vars, a, j) {
      assert next in env[next := a[next]] && next in dirs[d].values;
      assert dirs[d].values.Keys != env.Keys;
      forall i | 0 <= i < j ensures vars[i] !in dirs[d].values {
        if vars[i] in rest {
          assert false;
        }
      }
    }
    forall d | d in WantedUpTo(dirs, env, vars, a, j + 1) ensures d in WantedUpTo(dirs, env, vars, a, j) || d in below {
      if d !in WantedUpTo(dirs, env, vars, a, j) {
        assert next in dirs[d].values;
        forall v | v in dirs[d].values ensures v in env[next := a[next]] || v in rest {
          if v !in env && v != next {
            var i :| 0 <= i < |vars| && vars[i] == v;
            assert i > j;
            assert rest[i - j - 1] == v;
          }
        }
      }
    }
  }

  function EvalResult(n: Option<Node>, a: Assignment): seq<Dir> {
    match n
    case None => []
    case Some(n) => Eval(n, a)
  }

  /** Whatever the assignment, result n lists exactly the wanted directories, each once. */
  ghost predicate Lists(n: Option<Node>, dirs: map<Dir, Rule>, env: Assignment, vars: seq<Var>) {
    forall a :: Extends(a, env) ==> multiset(EvalResult(n, a)) == multiset(Wanted(dirs, env, vars, a))
  }

  /** The same for the node itself and the variables before j. */
  ghost predicate ListsUpTo(n: Node, dirs: map<Dir, Rule>, env: Assignment, vars: seq<Var>, j: nat)
    requires j <= |vars|
  {
    forall a :: Extends(a, env) ==> multiset(Eval(n, a)) == multiset(WantedUpTo(dirs, env, vars, a, j))
  }

  /** What is wanted below variable next for the value that a gives it. */
  function Below(dirs: map<Dir, Rule>, env: Assignment, next: Var, rest: seq<Var>, a: Assignment): set<Dir> {
    if next in a then Wanted(dirs, env[next := a[next]], rest, a) else {}
  }

  /** The same as ListsUpTo, and also the given values of variable j. */
  ghost predicate ListsPart(n: Node, dirs: map<Dir, Rule>, env: Assignment, vars: seq<Var>, j: nat, values: seq<Val>)
    requires j < |vars|
  {
    forall a :: Extends(a, env) ==>
      multiset(Eval(n, a)) == multiset(WantedUpTo(dirs, env, vars, a, j)) +
        (if vars[j] in a && a[vars[j]] in values then multiset(Below(dirs, env, vars[j], vars[j + 1..], a)) else multiset{})
  }

  /** The rules after pruning: those that can still match below this node. */
  predicate Pruned(dirs: map<Dir, Rule>, left: map<Dir, Rule>, env: Assignment) {
    && (forall d :: d in left ==> d in dirs && left[d] == dirs[d])
    && (forall d :: d in dirs && d !in left ==> !dirs[d].PartialMatch(env) || dirs[d].Matches(env, true))
  }

  /** A rule can still match below this node if and only if some assignment that goes on from env matches it exactly. */
  lemma MayMatchBelow(r: Rule, env: Assignment)
    requires !r.invalid && forall v :: v in r.values ==> r.values[v] != []
    ensures r.PartialMatch(env) <==> exists a :: Extends(a, env) && r.Matches(a, true)
  {
    if r.PartialMatch(env) {
      var a := map v | v in r.values :: if v in env then env[v] else r.values[v][0];
      assert Extends(a, env) && r.Matches(a, true);
    }
  }

  lemma PruningKeepsWanted(dirs: map<Dir, Rule>, left: map<Dir, Rule>, env: Assignment, deeper: Assignment,
                           vars: seq<Var>, a: Assignment)
    requires Pruned(dirs, left, env) && Extends(a, deeper) && Extends(deeper, env) && env.Keys < deeper.Keys
    ensures Wanted(left, deeper, vars, a) == Wanted(dirs, deeper, vars, a)
  {
    forall d | d in Wanted(dirs, deeper, vars, a) ensures d in left {
    }
  }

  lemma NoDirs(env: Assignment, vars: seq<Var>)
    ensures Lists(None, map[], env, vars)
  {
    forall a | Extends(a, env) ensures multiset(EvalResult(None, a)) == multiset(Wanted(map[], env, vars, a)) {
      assert Wanted(map[], env, vars, a) == {};
    }
  }

  /** A tree that can be written as dictionaries: no key occurs twice in a node, and no subtree is empty. */
  predicate Neat(n: Node)
    decreases n
  {
    && (forall b :: b in n.branches ==> b.sub != Node([], []) && Neat(b.sub))
    && (forall i, j :: 0 <= i < j < |n.branches| ==>
          n.branches[i].variable != n.branches[j].variable || n.branches[i].value != n.branches[j].value)
  }

  /** A neat node with branches for the variables before j, and for the given values of variable j. */
  predicate NeatPart(n: Node, vars: seq<Var>, j: nat, values: seq<Val>)
    requires j <= |vars|
  {
    Neat(n) && forall b :: b in n.branches ==>
      b.variable in vars[..j] || (j < |vars| && b.variable == vars[j] && b.value in values)
  }

  lemma AddNeat(n: Node, vars: seq<Var>, env: Assignment, j: nat, done: seq<Val>, value: Val, sub: Node)
    requires j < |vars| && NoDups(vars, env) && value !in done && NeatPart(n, vars, j, done)
    requires sub != Node([], []) && Neat(sub)
    ensures NeatPart(n.(branches := n.branches + [Branch(vars[j], value, sub)]), vars, j, done + [value])
  {
    assert vars[j] !in vars[..j];
  }

  /** A node without branches lists the directories that match exactly. */
  lemma StartNode(dirs: map<Dir, Rule>, env: Assignment, vars: seq<Var>, matched: seq<Dir>)
    requires multiset(matched) == multiset(set d | d in dirs && dirs[d].Matches(env, true))
    ensures ListsUpTo(Node(matched, []), dirs, env, vars, 0)
  {
    forall a | Extends(a, env)
      ensures multiset(Eval(Node(matched, []), a)) == multiset(WantedUpTo(dirs, env, vars, a, 0))
    {
      ExactlyWanted(dirs, env, vars, a);
      assert Eval(Node(matched, []), a) == matched;
    }
  }

  /** Before any variable, the directories wanted are those that match the environment exactly. */
  lemma ExactlyWanted(dirs: map<Dir, Rule>, env: Assignment, vars: seq<Var>, a: Assignment)
    requires Extends(a, env)
    ensures WantedUpTo(dirs, env, vars, a, 0) == set d | d in dirs && dirs[d].Matches(env, true)
  {
    var exact := set d | d in dirs && dirs[d].Matches(env, true);
    forall d ensures d in WantedUpTo(dirs, env, vars, a, 0) <==> d in exact {
      if d in dirs {
        MatchesExactly(dirs[d], env, vars, a);
      }
    }
  }

  lemma MatchesExactly(r: Rule, env: Assignment, vars: seq<Var>, a: Assignment)
    requires Extends(a, env)
    ensures r.Matches(env, true) <==> r.Matches(a, false) && Within(r, env, vars) && r.values.Keys == env.Keys
  {
    if r.Matches(env, true) {
      forall v ensures v in r.values.Keys <==> v in env.Keys {
      }
    }
    if r.values.Keys == env.Keys {
      forall v ensures v in r.values <==> v in env {
        assert v in r.values.Keys <==> v in env.Keys;
      }
    }
  }

  /** Variables that no remaining rule constrains add nothing. */
  lemma SkipVariable(n: Node, dirs: map<Dir, Rule>, left: map<Dir, Rule>, env: Assignment, vars: seq<Var>, j: nat)
    requires j < |vars| && NoDups(vars, env) && Pruned(dirs, left, env)
    requires ListsUpTo(n, dirs, env, vars, j) && forall d :: d in left ==> vars[j] !in left[d].values
    ensures ListsUpTo(n, dirs, env, vars, j + 1)
  {
    forall a | Extends(a, env)
      ensures WantedUpTo(dirs, env, vars, a, j + 1) == WantedUpTo(dirs, env, vars, a, j)
    {
      NextVariable(dirs, env, vars, a, j);
      if vars[j] in a {
        var deeper := env[vars[j] := a[vars[j]]];
        PruningKeepsWanted(dirs, left, env, deeper, vars[j + 1..], a);
      }
    }
  }

  /** The branch for one more value of variable j. */
  lemma AddValue(n: Node, n': Node, dirs: map<Dir, Rule>, left: map<Dir, Rule>, env: Assignment, vars: seq<Var>, j: nat,
                 values: seq<Val>, v: Val, sub: Option<Node>)
    requires j < |vars| && NoDups(vars, env) && Pruned(dirs, left, env) && v !in values
    requires ListsPart(n, dirs, env, vars, j, values)
    requires Lists(sub, left, env[vars[j] := v], vars[j + 1..])
    requires if sub.Some? && sub.value != Node([], [])
             then n' == n.(branches := n.branches + [Branch(vars[j], v, sub.value)]) else n' == n
    ensures ListsPart(n', dirs, env, vars, j, values + [v])
  {
    var next, rest := vars[j], vars[j + 1..];
    forall a | Extends(a, env)
      ensures multiset(Eval(n', a)) == multiset(WantedUpTo(dirs, env, vars, a, j)) +
        (if next in a && a[next] in values + [v] then multiset(Below(dirs, env, next, rest, a)) else multiset{})
    {
      AddedBranch(n, n', next, v, sub, a);
      if next in a && a[next] == v {
        ValueBelow(dirs, left, env, next, v, rest, a, sub);
      }
    }
  }

  lemma ValueBelow(dirs: map<Dir, Rule>, left: map<Dir, Rule>, env: Assignment, next: Var, v: Val, rest: seq<Var>,
                   a: Assignment, sub: Option<Node>)
    requires Pruned(dirs, left, env) && Lists(sub, left, env[next := v], rest)
    requires Extends(a, env) && next in a && a[next] == v && next !in env
    ensures multiset(EvalResult(sub, a)) == multiset(Below(dirs, env, next, rest, a))
  {
    var deeper := env[next := v];
    assert Extends(a, deeper);
    PruningKeepsWanted(dirs, left, env, deeper, rest, a);
  }

  lemma AddedBranch(n: Node, n': Node, next: Var, v: Val, sub: Option<Node>, a: Assignment)
    requires if sub.Some? && sub.value != Node([], [])
             then n' == n.(branches := n.branches + [Branch(next, v, sub.value)]) else n' == n
    ensures multiset(Eval(n', a)) ==
      multiset(Eval(n, a)) + (if next in a && a[next] == v then multiset(EvalResult(sub, a)) else multiset{})
  {
    if sub.Some? {
      if sub.value == Node([], []) {
        assert Eval(sub.value, a) == [];
      } else {
        NewBranch(n, Branch(next, v, sub.value), a);
      }
    }
  }

  lemma NewBranch(n: Node, b: Branch, a: Assignment)
    ensures Eval(n.(branches := n.branches + [b]), a) == Eval(n, a) + EvalBranch(b, a)
  {
    EvalAppend(n.branches, b, a);
    assert n.srcs + (EvalBranches(n.branches, a) + EvalBranch(b, a)) == n.srcs + EvalBranches(n.branches, a) + EvalBranch(b, a);
  }

  /** After all its known values, variable j is done: no rule accepts any other value. */
  lemma AllValues(n: Node, dirs: map<Dir, Rule>, env: Assignment, vars: seq<Var>, j: nat, scenarios: map<Var, seq<Val>>)
    requires j < |vars| && NoDups(vars, env) && vars[j] in scenarios
    requires forall d :: d in dirs ==> WellBuilt(dirs[d], scenarios)
    requires ListsPart(n, dirs, env, vars, j, scenarios[vars[j]])
    ensures ListsUpTo(n, dirs, env, vars, j + 1)
  {
    var next, rest := vars[j], vars[j + 1..];
    forall a | Extends(a, env)
      ensures multiset(Eval(n, a)) == multiset(WantedUpTo(dirs, env, vars, a, j + 1))
    {
      NextVariable(dirs, env, vars, a, j);
      var below := Below(dirs, env, next, rest, a);
    }
  }

  lemma Finished(n: Node, dirs: map<Dir, Rule>, env: Assignment, vars: seq<Var>)
    requires ListsUpTo(n, dirs, env, vars, |vars|)
    ensures Lists(Some(n), dirs, env, vars)
  {
    forall a | Extends(a, env) ensures multiset(Eval(n, a)) == multiset(Wanted(dirs, env, vars, a)) {
    }
  }

  /** If every rule was pruned, the node itself lists everything. */
  lemma NothingLeft(n: Node, dirs: map<Dir, Rule>, env: Assignment, vars: seq<Var>)
    requires NoDups(vars, env) && Pruned(dirs, map[], env) && ListsUpTo(n, dirs, env, vars, 0)
    ensures Lists(Some(n), dirs, env, vars)
  {
    for j := 0 to |vars|
      invariant ListsUpTo(n, dirs, env, vars, j)
    {
      SkipVariable(n, dirs, map[], env, vars, j);
    }
    Finished(n, dirs, env, vars);
  }

  /** The directories of a set whose rule matches the environment exactly. */
  function Matching(dirs: map<Dir, Rule>, env: Assignment, some: set<Dir>): set<Dir>
    requires some <= dirs.Keys
  {
    set d | d in some && dirs[d].Matches(env, true)
  }

  /** dump_sources_json, with the dictionaries that it changes and restores. */
  class Dumper {
    const scenarios: map<Var, seq<Val>>
    var dirs: map<Dir, Rule>
    var env: Assignment

    constructor (scenarios: map<Var, seq<Val>>, dirs: map<Dir, Rule>)
      ensures this.scenarios == scenarios && this.dirs == dirs && env == map[]
    {
      this.scenarios := scenarios;
      this.dirs := dirs;
      env := map[];
    }

    predicate Ready(vars: seq<Var>)
      reads this
    {
      && Known(scenarios) && (forall d :: d in dirs ==> WellBuilt(dirs[d], scenarios))
      && NoDups(vars, env) && (forall v :: v in vars ==> v in scenarios)
    }

    /** The directories whose rule matches the environment exactly, in some order. */
    method MatchedDirs() returns (matched: seq<Dir>)
      ensures multiset(matched) == multiset(set d | d in dirs && dirs[d].Matches(env, true))
      ensures forall d :: d in matched <==> d in dirs && dirs[d].Matches(env, true)
    {
      matched := [];
      var todo := dirs.Keys;
      ghost var done: set<Dir> := {};
      while todo != {}
        invariant done + todo == dirs.Keys && done !! todo
        invariant multiset(matched) == multiset(Matching(dirs, env, done))
        decreases todo
      {
        var d :| d in todo;
        if dirs[d].Matches(env, true) {
          matched := matched + [d];
        }
        done, todo := done + {d}, todo - {d};
      }
      assert done == dirs.Keys;
      assert Matching(dirs, env, done) == set d | d in dirs && dirs[d].Matches(env, true);
      forall d ensures d in matched <==> d in dirs && dirs[d].Matches(env, true) {
        assert d in matched <==> d in multiset(matched);
      }
    }

    /** Remove the rules that cannot match below this node any more; they are kept to be restored. */
    method Prune(matched: seq<Dir>) returns (pruned: map<Dir, Rule>)
      requires forall d :: d in matched <==> d in dirs && dirs[d].Matches(env, true)
      modifies this`dirs
      ensures Pruned(old(dirs), dirs, env) && dirs + pruned == old(dirs)
      ensures forall d :: d in dirs <==> d in old(dirs) && old(dirs)[d].PartialMatch(env) && !old(dirs)[d].Matches(env, true)
    {
      pruned := map d | d in dirs && (!dirs[d].PartialMatch(env) || d in matched) :: dirs[d];
      dirs := dirs - pruned.Keys;
    }

    /**
     Dump the rules for the variables vars. Whatever the assignment, interpreting the result lists each
     directory whose rule matches exactly once and no other; dirs and env are as before.
     */
    method Dump(vars: seq<Var>) returns (ret: Option<Node>)
      requires Ready(vars)
      modifies this
      ensures dirs == old(dirs) && env == old(env)
      ensures Lists(ret, dirs, env, vars)
      ensures (ret == None <==> dirs == map[]) && (ret.Some? ==> Neat(ret.value))
      decreases |vars|, 3
    {
      if |dirs| == 0 {
        NoDirs(env, vars);
        return None;
      }
      var matched := MatchedDirs();
      var node := Node(matched, []);
      StartNode(dirs, env, vars, matched);
      if |vars| == 0 {
        Finished(node, dirs, env, vars);
        return Some(node);
      }
      ghost var all := dirs;
      var pruned := Prune(matched);
      if |dirs| == 0 {
        assert dirs == map[];
        NothingLeft(node, all, env, vars);
      } else {
        node := DumpVariables(vars, node, all);
        Finished(node, all, env, vars);
      }
      dirs := dirs + pruned;
      ret := Some(node);
    }

    /** The loop over the variables. */
    method DumpVariables(vars: seq<Var>, start: Node, ghost all: map<Dir, Rule>) returns (node: Node)
      requires Ready(vars) && Pruned(all, dirs, env) && ListsUpTo(start, all, env, vars, 0)
      requires (forall d :: d in all ==> WellBuilt(all[d], scenarios)) && NeatPart(start, vars, 0, [])
      modifies this
      ensures dirs == old(dirs) && env == old(env)
      ensures ListsUpTo(node, all, env, vars, |vars|) && Neat(node)
      decreases |vars|, 2
    {
      node := start;
      for j := 0 to |vars|
        invariant dirs == old(dirs) && env == old(env)
        invariant ListsUpTo(node, all, env, vars, j) && NeatPart(node, vars, j, [])
      {
        if exists d :: d in dirs && vars[j] in dirs[d].values {
          node := DumpVariable(vars, j, node, all);
        } else {
          SkipVariable(node, all, dirs, env, vars, j);
        }
      }
    }

    /** The loop over the values of variable j. */
    method DumpVariable(vars: seq<Var>, j: nat, start: Node, ghost all: map<Dir, Rule>) returns (node: Node)
      requires Ready(vars) && j < |vars| && Pruned(all, dirs, env) && ListsUpTo(start, all, env, vars, j)
      requires (forall d :: d in all ==> WellBuilt(all[d], scenarios)) && NeatPart(start, vars, j, [])
      requires exists d :: d in dirs && vars[j] in dirs[d].values
      modifies this
      ensures dirs == old(dirs) && env == old(env)
      ensures ListsUpTo(node, all, env, vars, j + 1) && NeatPart(node, vars, j + 1, [])
      decreases |vars|, 1
    {
      var next := vars[j];
      ghost var outer := env;
      SomeValue(next);
      node := DumpValues(vars, j, scenarios[next], start, all);
      env := env - {next};
      AllValues(node, all, outer, vars, j, scenarios);
    }

    /** The loop itself; the environment keeps the last value. */
    method DumpValues(vars: seq<Var>, j: nat, values: seq<Val>, start: Node, ghost all: map<Dir, Rule>) returns (node: Node)
      requires Ready(vars) && j < |vars| && Pruned(all, dirs, env) && ListsUpTo(start, all, env, vars, j)
      requires NoDuplicates(values) && values != [] && NeatPart(start, vars, j, [])
      modifies this
      ensures dirs == old(dirs) && vars[j] in env && env - {vars[j]} == old(env)
      ensures ListsPart(node, all, old(env), vars, j, values) && NeatPart(node, vars, j, values)
      decreases |vars|, 0, 1
    {
      node := start;
      ghost var outer := env;
      Untouched(env, vars[j]);
      for i := 0 to |values|
        invariant dirs == old(dirs) && env - {vars[j]} == outer && (i > 0 ==> vars[j] in env)
        invariant ListsPart(node, all, outer, vars, j, values[..i]) && NeatPart(node, vars, j, values[..i])
      {
        NextValue(values, i);
        node := DumpValue(vars, j, values[i], node, all, outer, values[..i]);
      }
      assert values[..|values|] == values;
    }

    /** One value of variable j: its branch, unless there is nothing in it. */
    method DumpValue(vars: seq<Var>, j: nat, value: Val, start: Node,
                     ghost all: map<Dir, Rule>, ghost outer: Assignment, ghost done: seq<Val>) returns (node: Node)
      requires Known(scenarios) && j < |vars| && NoDups(vars, outer) && (forall v :: v in vars ==> v in scenarios)
      requires forall d :: d in dirs ==> WellBuilt(dirs[d], scenarios)
      requires Pruned(all, dirs, outer) && env - {vars[j]} == outer && value !in done
      requires ListsPart(start, all, outer, vars, j, done) && NeatPart(start, vars, j, done)
      modifies this
      ensures dirs == old(dirs) && vars[j] in env && env - {vars[j]} == outer
      ensures ListsPart(node, all, outer, vars, j, done + [value]) && NeatPart(node, vars, j, done + [value])
      decreases |vars|, 0, 0
    {
      node := start;
      Overwritten(env, outer, vars[j], value);
      env := env[vars[j] := value];
      var sub := Dump(vars[j + 1..]);
      if sub.Some? && sub.value != Node([], []) {
        AddNeat(node, vars, outer, j, done, value, sub.value);
        node := node.(branches := node.branches + [Branch(vars[j], value, sub.value)]);
      }
      AddValue(start, node, all, dirs, outer, vars, j, done, value, sub);
    }

    /** del env[next_var] finds the variable: a variable that is used has a known value. */
    lemma SomeValue(next: Var)
      requires (exists d :: d in dirs && next in dirs[d].values) && next in scenarios
      requires forall d :: d in dirs ==> WellBuilt(dirs[d], scenarios)
      ensures scenarios[next] != []
    {
      var d :| d in dirs && next in dirs[d].values;
      assert dirs[d].values[next][0] in scenarios[next];
    }
  }

  /** Setting a variable again is setting it once, and deleting it takes back either. */
  lemma Overwritten(env: Assignment, outer: Assignment, k: Var, v: Val)
    requires env - {k} == outer
    ensures env[k := v] == outer[k := v] && env[k := v] - {k} == outer
  {
    assert env[k := v].Keys == outer[k := v].Keys;
  }

  lemma Untouched(env: Assignment, k: Var)
    requires k !in env
    ensures env - {k} == env
  {
  }

  lemma NextValue(values: seq<Val>, i: nat)
    requires NoDuplicates(values) && i < |values|
    ensures values[i] !in values[..i] && values[..i] + [values[i]] == values[..i + 1]
  {
  }

  /** The variables of the rules, in any order but each once. */
  predicate Covers(order: seq<Var>, rules: map<Dir, Rule>) {
    NoDuplicates(order) && forall d, v :: d in rules && v in rules[d].values ==> v in order
  }

  /** The two libraries of the run-time system, each with its own rules and variables. */
  datatype Library = Gnat | Gnarl

  /** The first component of a path. */
  function FirstPart(path: string): string {
    if path == "" || path[0] == '/' then "" else [path[0]] + FirstPart(path[1..])
  }

  function LibraryOf(d: Dir): Library {
    if FirstPart(d) == "gnarl" then Gnarl else Gnat
  }

  /** The rules of a library and the variables they use, each once. */
  datatype Collection = Collection(rules: map<Dir, Rule>, order: seq<Var>)

  predicate GoodCollection(c: Collection, library: Library, scenarios: map<Var, seq<Val>>) {
    && (forall d :: d in c.rules ==> WellBuilt(c.rules[d], scenarios) && LibraryOf(d) == library)
    && (forall v :: v in c.order ==> v in scenarios) && Covers(c.order, c.rules)
  }

  /** The rules of a library after a rule has been entered for a directory. */
  function Entered(rules: map<Dir, Rule>, library: Library, d: Dir, r: Rule): map<Dir, Rule> {
    if LibraryOf(d) == library then rules[d := r] else rules
  }

  /** The rules and requirements of a source tree: __init__ fills them. */
  class SourceTree {
    const scenarios: map<Var, seq<Val>>
    var gnat: Collection
    var gnarl: Collection
    var deps: map<Dir, Rule>

    predicate Valid()
      reads this
    {
      Known(scenarios) && GoodCollection(gnat, Gnat, scenarios) && GoodCollection(gnarl, Gnarl, scenarios)
    }

    function Of(library: Library): Collection
      reads this
    {
      if library.Gnarl? then gnarl else gnat
    }

    constructor (scenarios: map<Var, seq<Val>>)
      requires Known(scenarios)
      ensures Valid() && this.scenarios == scenarios && gnat == gnarl == Collection(map[], []) && deps == map[]
    {
      this.scenarios := scenarios;
      gnat := Collection(map[], []);
      gnarl := Collection(map[], []);
      deps := map[];
    }

    /** add_rule; None stands for the assertion that a directory is not defined twice. */
    method AddRule(directory: Dir, conditions: seq<Condition>) returns (r: Option<Result<Rule, RuleError>>)
      requires Valid() && Split(conditions)
      modifies this`gnat, this`gnarl
      ensures Valid()
      ensures r == None <==> directory in old(Of(LibraryOf(directory))).rules
      ensures r.Some? ==> r.value == Build(conditions, scenarios, map[])
      ensures r.Some? && r.value.Success? ==>
        && gnat.rules == Entered(old(gnat.rules), Gnat, directory, r.value.value)
        && gnarl.rules == Entered(old(gnarl.rules), Gnarl, directory, r.value.value)
      ensures r.None? || r.value.Failure? ==> gnat == old(gnat) && gnarl == old(gnarl)
      ensures if LibraryOf(directory).Gnarl? then gnat == old(gnat) else gnarl == old(gnarl)
    {
      var library := LibraryOf(directory);
      var collection := Of(library);
      if directory in collection.rules {
        return None;
      }
      var rule := MakeRule(conditions, scenarios);
      r := Some(rule);
      if rule.Failure? {
        return;
      }
      BuildWellBuilt(conditions, scenarios, map[]);
      var order := AddVariables(collection.order, rule.value.values.Keys);
      collection := Collection(collection.rules[directory := rule.value], order);
      if library.Gnarl? {
        gnarl := collection;
      } else {
        gnat := collection;
      }
    }
  }

  /** The loop over the variables of a rule. */
  method AddVariables(order: seq<Var>, vars: set<Var>) returns (all: seq<Var>)
    requires NoDuplicates(order)
    ensures NoDuplicates(all) && forall v :: v in all <==> v in order || v in vars
  {
    all := order;
    var todo := vars;
    while todo != {}
      invariant todo <= vars && NoDuplicates(all)
      invariant forall v :: v in all <==> v in order || v in vars - todo
      decreases todo
    {
      var v :| v in todo;
      if v !in all {
        all := all + [v];
      }
      todo := todo - {v};
    }
  }

  /**
   From rules to installed directories: for every rule set, every duplicate-free order of the variables that
   covers it and every assignment, dumping the tree and interpreting it lists exactly the directories
   whose rule matches the assignment, each exactly once.
   */
  method CompileAndSelect(scenarios: map<Var, seq<Val>>, rules: map<Dir, Rule>, order: seq<Var>, a: Assignment)
    returns (selected: seq<Dir>)
    requires Known(scenarios) && (forall d :: d in rules ==> WellBuilt(rules[d], scenarios))
    requires Covers(order, rules) && forall v :: v in order ==> v in scenarios
    ensures multiset(selected) == multiset(set d | d in rules && rules[d].Matches(a, false))
  {
    var dumper := new Dumper(scenarios, rules);
    var tree := dumper.Dump(order);
    selected := [];
    if tree.Some? {
      selected := GetRtsDirs(tree.value, a);
    }
    assert Extends(a, map[]);
    assert Wanted(rules, map[], order, a) == set d | d in rules && rules[d].Matches(a, false);
  }

  /** A source directory with the conditions under which it is used, and its requirements where it has any. */
  datatype Source = Source(dir: Dir, conditions: seq<Condition>, needs: Option<seq<Condition>>)

  /** Why there is no selection: a directory that is there already, a rule that cannot be built, or an empty library. */
  datatype TreeError = DefinedTwice(dir: Dir) | BadRule(error: RuleError) | NotProvided(library: Library)

  predicate AllSplit(sources: seq<Source>) {
    forall s :: s in sources ==> Split(s.conditions) && (s.needs.Some? ==> Split(s.needs.value))
  }

  /** No directory is defined twice, and every rule can be built. */
  predicate Buildable(sources: seq<Source>, scenarios: map<Var, seq<Val>>)
    requires AllSplit(sources)
  {
    && (forall i, j :: 0 <= i < j < |sources| ==> sources[i].dir != sources[j].dir)
    && (forall s :: s in sources ==>
          && Build(s.conditions, scenarios, map[]).Success?
          && (s.needs.Some? ==> Build(s.needs.value, scenarios, map[]).Success?))
  }

  /** The same in terms of the conditions and requirements alone. */
  predicate InOrder(sources: seq<Source>, scenarios: map<Var, seq<Val>>)
    requires AllSplit(sources)
  {
    && (forall i, j :: 0 <= i < j < |sources| ==> sources[i].dir != sources[j].dir)
    && (forall s :: s in sources ==>
          CanBuild(s.conditions, scenarios, {}) && (s.needs.Some? ==> CanBuild(s.needs.value, scenarios, {})))
  }

  lemma InOrderExactly(sources: seq<Source>, scenarios: map<Var, seq<Val>>)
    requires AllSplit(sources) && Known(scenarios)
    ensures Buildable(sources, scenarios) <==> InOrder(sources, scenarios)
  {
    forall s | s in sources
      ensures Build(s.conditions, scenarios, map[]).Success? <==> CanBuild(s.conditions, scenarios, {})
      ensures s.needs.Some? ==> (Build(s.needs.value, scenarios, map[]).Success? <==> CanBuild(s.needs.value, scenarios, {}))
    {
      BuildExactly(s.conditions, scenarios);
      if s.needs.Some? {
        BuildExactly(s.needs.value, scenarios);
      }
    }
  }

  /** A directory belongs to libgnarl if it is "gnarl" or lies in it. */
  predicate InGnarl(d: Dir) {
    d == "gnarl" || (|d| >= 6 && d[..6] == "gnarl/")
  }

  predicate InLibrary(d: Dir, library: Library) {
    InGnarl(d) <==> library.Gnarl?
  }

  lemma LibraryExactly(d: Dir, library: Library)
    ensures LibraryOf(d) == library <==> InLibrary(d, library)
  {
    FirstPartIs(d, "gnarl");
    if InGnarl(d) && d != "gnarl" {
      assert d == "gnarl" + d[5..] && d[5] == d[..6][5];
      assert d[..5] == d[..6][..5] == "gnarl";
    }
  }

  /** The first component is part if the path is part, or continues after it with a slash. */
  lemma {:induction false} FirstPartIs(path: string, part: string)
    requires '/' !in part
    ensures FirstPart(path) == part <==> path == part || (|path| > |part| && path[..|part|] == part && path[|part|] == '/')
    decreases |path|
  {
    if path != "" && path[0] != '/' && part != "" {
      FirstPartIs(path[1..], part[1..]);
      assert path == [path[0]] + path[1..] && part == [part[0]] + part[1..];
      if |path| > |part| {
        assert path[..|part|] == [path[0]] + path[1..][..|part| - 1];
      }
    }
  }

  /** The rules of a library are those of the sources in it. */
  predicate RulesOf(rules: map<Dir, Rule>, library: Library, sources: seq<Source>, scenarios: map<Var, seq<Val>>)
    requires AllSplit(sources)
  {
    && (forall s :: s in sources && LibraryOf(s.dir) == library ==>
          s.dir in rules && Build(s.conditions, scenarios, map[]) == Success(rules[s.dir]))
    && (forall d :: d in rules ==> exists s :: s in sources && s.dir == d && LibraryOf(d) == library)
  }

  /** The requirements are those of the sources that have any. */
  predicate DepsOf(deps: map<Dir, Rule>, sources: seq<Source>, scenarios: map<Var, seq<Val>>)
    requires AllSplit(sources)
  {
    && (forall s :: s in sources && s.needs.Some? ==>
          s.dir in deps && Build(s.needs.value, scenarios, map[]) == Success(deps[s.dir]))
    && (forall d :: d in deps ==> exists s :: s in sources && s.dir == d && s.needs.Some?)
  }

  /** The tree holds exactly the rules and requirements of the sources. */
  predicate TreeOf(gnat: map<Dir, Rule>, gnarl: map<Dir, Rule>, deps: map<Dir, Rule>, sources: seq<Source>,
                   scenarios: map<Var, seq<Val>>)
    requires AllSplit(sources)
  {
    && Buildable(sources, scenarios) && DepsOf(deps, sources, scenarios)
    && RulesOf(gnat, Gnat, sources, scenarios) && RulesOf(gnarl, Gnarl, sources, scenarios)
  }

  /** The loop of __init__ over the sources; the first failure ends it. */
  method MakeTree(scenarios: map<Var, seq<Val>>, sources: seq<Source>) returns (tree: SourceTree, err: Option<TreeError>)
    requires Known(scenarios) && AllSplit(sources)
    ensures fresh(tree) && tree.scenarios == scenarios && tree.Valid()
    ensures err == None <==> Buildable(sources, scenarios)
    ensures err == None ==> TreeOf(tree.gnat.rules, tree.gnarl.rules, tree.deps, sources, scenarios)
  {
    tree := new SourceTree(scenarios);
    for i := 0 to |sources|
      invariant fresh(tree) && tree.scenarios == scenarios && tree.Valid()
      invariant TreeOf(tree.gnat.rules, tree.gnarl.rules, tree.deps, sources[..i], scenarios)
    {
      assert sources[i] in sources && sources[..i + 1] == sources[..i] + [sources[i]];
      err := AddSource(tree, sources[..i], sources[i]);
      if err.Some? {
        if Buildable(sources, scenarios) {
          FirstBuildable(sources, i + 1, scenarios);
        }
        return;
      }
    }
    assert sources[..|sources|] == sources;
    err := None;
  }

  method AddSource(tree: SourceTree, ghost done: seq<Source>, s: Source) returns (err: Option<TreeError>)
    requires tree.Valid() && AllSplit(done + [s]) && AllSplit(done) && s in done + [s]
    requires TreeOf(tree.gnat.rules, tree.gnarl.rules, tree.deps, done, tree.scenarios)
    modifies tree
    ensures tree.Valid()
    ensures if err == None then TreeOf(tree.gnat.rules, tree.gnarl.rules, tree.deps, done + [s], tree.scenarios)
            else !Buildable(done + [s], tree.scenarios)
  {
    ghost var gnat, gnarl, deps := tree.gnat.rules, tree.gnarl.rules, tree.deps;
    var r := tree.AddRule(s.dir, s.conditions);
    if r == None {
      TwiceDefined(if LibraryOf(s.dir).Gnarl? then gnarl else gnat, done, s, tree.scenarios);
      return Some(DefinedTwice(s.dir));
    }
    if r.value.Failure? {
      return Some(BadRule(r.value.error));
    }
    err := AddNeeds(tree, s);
    if err == None {
      OneMoreSource(gnat, gnarl, deps, done, s, tree.scenarios, r.value.value);
    }
  }

  /** The requirement of a source. */
  method AddNeeds(tree: SourceTree, s: Source) returns (err: Option<TreeError>)
    requires s.needs.Some? ==> Split(s.needs.value)
    modifies tree`deps
    ensures err == None <==> (s.needs.Some? ==> Build(s.needs.value, tree.scenarios, map[]).Success?)
    ensures err == None ==> tree.deps == WithNeed(old(tree.deps), s, tree.scenarios)
  {
    err := None;
    if s.needs.Some? {
      var rule := MakeRule(s.needs.value, tree.scenarios);
      if rule.Failure? {
        return Some(BadRule(rule.error));
      }
      tree.deps := tree.deps[s.dir := rule.value];
    }
  }

  /** The requirements with that of one more source. */
  function WithNeed(deps: map<Dir, Rule>, s: Source, scenarios: map<Var, seq<Val>>): map<Dir, Rule>
    requires s.needs.Some? ==> Split(s.needs.value) && Build(s.needs.value, scenarios, map[]).Success?
  {
    if s.needs.Some? then deps[s.dir := Build(s.needs.value, scenarios, map[]).value] else deps
  }

  lemma OneMoreSource(gnat: map<Dir, Rule>, gnarl: map<Dir, Rule>, deps: map<Dir, Rule>, done: seq<Source>, s: Source,
                      scenarios: map<Var, seq<Val>>, r: Rule)
    requires AllSplit(done + [s]) && AllSplit(done) && s in done + [s] && TreeOf(gnat, gnarl, deps, done, scenarios)
    requires s.dir !in if LibraryOf(s.dir).Gnarl? then gnarl else gnat
    requires Build(s.conditions, scenarios, map[]) == Success(r)
    requires s.needs.Some? ==> Build(s.needs.value, scenarios, map[]).Success?
    ensures TreeOf(Entered(gnat, Gnat, s.dir, r), Entered(gnarl, Gnarl, s.dir, r), WithNeed(deps, s, scenarios),
                   done + [s], scenarios)
  {
    NewDirectory(gnat, gnarl, done, s, scenarios);
    OneMoreRule(gnat, Gnat, done, s, scenarios, r);
    OneMoreRule(gnarl, Gnarl, done, s, scenarios, r);
    OneMoreNeed(deps, done, s, scenarios);
  }

  lemma TwiceDefined(rules: map<Dir, Rule>, done: seq<Source>, s: Source, scenarios: map<Var, seq<Val>>)
    requires AllSplit(done + [s]) && AllSplit(done) && RulesOf(rules, LibraryOf(s.dir), done, scenarios) && s.dir in rules
    ensures !Buildable(done + [s], scenarios)
  {
    var k :| 0 <= k < |done| && done[k].dir == s.dir;
    assert (done + [s])[k].dir == (done + [s])[|done|].dir;
  }

  /** A directory that is not in the rules of its library is new. */
  lemma NewDirectory(gnat: map<Dir, Rule>, gnarl: map<Dir, Rule>, done: seq<Source>, s: Source, scenarios: map<Var, seq<Val>>)
    requires AllSplit(done + [s]) && AllSplit(done) && Buildable(done, scenarios)
    requires RulesOf(gnat, Gnat, done, scenarios) && RulesOf(gnarl, Gnarl, done, scenarios)
    requires s.dir !in if LibraryOf(s.dir).Gnarl? then gnarl else gnat
    requires Build(s.conditions, scenarios, map[]).Success?
    requires s.needs.Some? ==> Build(s.needs.value, scenarios, map[]).Success?
    ensures Buildable(done + [s], scenarios) && forall x :: x in done ==> x.dir != s.dir
  {
  }

  lemma OneMoreRule(rules: map<Dir, Rule>, library: Library, done: seq<Source>, s: Source, scenarios: map<Var, seq<Val>>, r: Rule)
    requires AllSplit(done + [s]) && AllSplit(done) && RulesOf(rules, library, done, scenarios)
    requires Build(s.conditions, scenarios, map[]) == Success(r) && forall x :: x in done ==> x.dir != s.dir
    ensures RulesOf(Entered(rules, library, s.dir, r), library, done + [s], scenarios)
  {
    var after := Entered(rules, library, s.dir, r);
    forall d | d in after ensures exists x :: x in done + [s] && x.dir == d && LibraryOf(d) == library {
      if d == s.dir {
        assert s in done + [s];
      } else {
        var x :| x in done && x.dir == d;
        assert x in done + [s];
      }
    }
  }

  lemma OneMoreNeed(deps: map<Dir, Rule>, done: seq<Source>, s: Source, scenarios: map<Var, seq<Val>>)
    requires AllSplit(done + [s]) && AllSplit(done) && DepsOf(deps, done, scenarios) && forall x :: x in done ==> x.dir != s.dir
    requires s in done + [s] && (s.needs.Some? ==> Build(s.needs.value, scenarios, map[]).Success?)
    ensures DepsOf(WithNeed(deps, s, scenarios), done + [s], scenarios)
  {
    var after := WithNeed(deps, s, scenarios);
    forall d | d in after ensures exists x :: x in done + [s] && x.dir == d && x.needs.Some? {
      if d != s.dir {
        var x :| x in done && x.dir == d && x.needs.Some?;
        assert x in done + [s];
      }
    }
  }

  lemma FirstBuildable(sources: seq<Source>, n: nat, scenarios: map<Var, seq<Val>>)
    requires AllSplit(sources) && n <= |sources| && Buildable(sources, scenarios)
    ensures Buildable(sources[..n], scenarios)
  {
  }

  /**
   From conditions to installed directories: however the variables are sorted, the directories of a library that are
   selected for an assignment are those of its sources whose conditions the assignment satisfies, each once. The only
   ways to fail are a directory that is defined twice, a rule that cannot be built, and a library without sources.
   */
  method SelectedDirs(scenarios: map<Var, seq<Val>>, sources: seq<Source>, sort: seq<Var> -> seq<Var>, library: Library,
                      a: Assignment)
    returns (r: Result<seq<Dir>, TreeError>)
    requires Known(scenarios) && AllSplit(sources)
    requires forall vars :: multiset(sort(vars)) == multiset(vars)
    ensures r.Success? <==> InOrder(sources, scenarios) && exists s :: s in sources && InLibrary(s.dir, library)
    ensures r.Success? ==>
      multiset(r.value) ==
      multiset(set s | s in sources && InLibrary(s.dir, library) && Satisfied(s.conditions, scenarios, a) :: s.dir)
  {
    InOrderExactly(sources, scenarios);
    forall s | s in sources ensures LibraryOf(s.dir) == library <==> InLibrary(s.dir, library) {
      LibraryExactly(s.dir, library);
    }
    var tree, err := MakeTree(scenarios, sources);
    if err.Some? {
      return Failure(err.value);
    }
    var collection := tree.Of(library);
    if |collection.rules| == 0 {
      assert forall s :: s in sources ==> !InLibrary(s.dir, library);
      return Failure(NotProvided(library));
    }
    SomeSource(collection.rules, library, sources, scenarios);
    var order := sort(collection.order);
    SortedCovers(collection.order, order, collection.rules);
    SameVariables(collection.order, order);
    var selected := CompileAndSelect(scenarios, collection.rules, order, a);
    MatchingIsSatisfied(collection.rules, library, sources, scenarios, a);
    assert (set s | s in sources && LibraryOf(s.dir) == library && Satisfied(s.conditions, scenarios, a) :: s.dir) ==
      set s | s in sources && InLibrary(s.dir, library) && Satisfied(s.conditions, scenarios, a) :: s.dir;
    r := Success(selected);
  }

  lemma SomeSource(rules: map<Dir, Rule>, library: Library, sources: seq<Source>, scenarios: map<Var, seq<Val>>)
    requires AllSplit(sources) && RulesOf(rules, library, sources, scenarios) && |rules| > 0
    ensures exists s :: s in sources && LibraryOf(s.dir) == library
  {
    assert rules.Keys != {};
    var d :| d in rules.Keys;
  }

  /** Matching the rule that was built for a directory is satisfying its conditions. */
  lemma MatchingIsSatisfied(rules: map<Dir, Rule>, library: Library, sources: seq<Source>, scenarios: map<Var, seq<Val>>,
                            a: Assignment)
    requires Known(scenarios) && AllSplit(sources) && RulesOf(rules, library, sources, scenarios)
    ensures (set d | d in rules && rules[d].Matches(a, false)) ==
      set s | s in sources && LibraryOf(s.dir) == library && Satisfied(s.conditions, scenarios, a) :: s.dir
  {
    forall s | s in sources && LibraryOf(s.dir) == library
      ensures rules[s.dir].Matches(a, false) <==> Satisfied(s.conditions, scenarios, a)
    {
      BuildMeaning(s.conditions, scenarios, map[], a);
    }
  }

  lemma SameVariables(order: seq<Var>, sorted: seq<Var>)
    requires multiset(sorted) == multiset(order)
    ensures forall v :: v in sorted <==> v in order
  {
    forall v ensures v in sorted <==> v in order {
      assert v in multiset(sorted) <==> v in multiset(order);
    }
  }

  /** Sorting the variables by how much they are used keeps them a duplicate-free cover. */
  lemma SortedCovers(order: seq<Var>, sorted: seq<Var>, rules: map<Dir, Rule>)
    requires Covers(order, rules) && multiset(sorted) == multiset(order)
    ensures Covers(sorted, rules)
  {
    SameVariables(order, sorted);
    forall i, j | 0 <= i < j < |sorted| ensures sorted[i] != sorted[j] {
      OccursOnce(order, sorted[i]);
      OccursTwice(sorted, i, j);
    }
  }

  lemma {:induction false} OccursOnce(s: seq<Var>, v: Var)
    requires NoDuplicates(s)
    ensures multiset(s)[v] <= 1
  {
    if s != [] {
      assert s == [s[0]] + s[1..];
      OccursOnce(s[1..], v);
    }
  }

  lemma OccursTwice(s: seq<Var>, i: nat, j: nat)
    requires i < j < |s|
    ensures s[i] == s[j] ==> multiset(s)[s[i]] >= 2
  {
    assert s == s[..j] + [s[j]] + s[j + 1..];
    assert s[i] in s[..j];
  }
}
