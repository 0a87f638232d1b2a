/** Conditions of directories over scenario variables with finitely many values. */
module Rules {
  import opened Wrappers

  type Var = string
  type Val = string
  type Assignment = map<Var, Val>

  /** One condition after splitting: "Var:case,case", where negated cases start with '!'. */
  datatype Condition = Condition(variable: Var, cases: seq<string>)

  datatype RuleError =
    | UnknownVariable     // the variable is not in the list of scenarios
    | EmptyCase           // IndexError: the first case is empty
    | MixedNegation       // some but not all cases are negated
    | DuplicateVariable   // the variable is constrained twice
    | CaseTwice           // ValueError: a negated value is removed a second time

  datatype Rule = Rule(values: map<Var, seq<Val>>, invalid: bool) {

    /** matches: every constrained variable has an accepted value (and, if exact, no other variable is set). */
    predicate Matches(variables: Assignment, exact: bool) {
      && !invalid
      && (forall v :: v in values ==> v in variables && variables[v] in values[v])
      && (exact ==> forall v :: v in variables ==> v in values)
    }

    /** partial_match: every variable that is set is constrained and has an accepted value. */
    predicate PartialMatch(variables: Assignment) {
      forall v :: v in variables ==> v in values && variables[v] in values[v]
    }
  }

  predicate Negated(c: string) {
    c != "" && c[0] == '!'
  }

  /** list.remove: drop the first occurrence. */
  function RemoveFirst(s: seq<Val>, v: Val): seq<Val>
    requires v in s
  {
    if s[0] == v then s[1..] else [s[0]] + RemoveFirst(s[1..], v)
  }

  /** The accepted values of a positive condition: its cases that are known values. */
  function KeepKnown(cases: seq<Val>, known: seq<Val>): seq<Val> {
    if cases == [] then []
    else (if cases[0] in known then [cases[0]] else []) + KeepKnown(cases[1..], known)
  }

  /** The accepted values of a negated condition: remove its cases, those that are known values, from accepted. */
  function RemoveKnown(cases: seq<string>, known: seq<Val>, accepted: seq<Val>): Result<seq<Val>, RuleError>
    requires forall c :: c in cases ==> Negated(c)
  {
    if cases == [] then Success(accepted)
    else
      assert Negated(cases[0]);
      var v := cases[0][1..];
      if v !in known then RemoveKnown(cases[1..], known, accepted)
      else if v !in accepted then Failure(CaseTwice)
      else RemoveKnown(cases[1..], known, RemoveFirst(accepted, v))
  }

  function Accepted(c: Condition, known: seq<Val>): Result<seq<Val>, RuleError>
    requires c.cases != [] && (Negated(c.cases[0]) ==> forall x :: x in c.cases ==> Negated(x))
  {
    if Negated(c.cases[0]) then RemoveKnown(c.cases, known, known) else Success(KeepKnown(c.cases, known))
  }

  /** The checks that a condition must pass, in order. */
  function Check(c: Condition, scenarios: map<Var, seq<Val>>, values: map<Var, seq<Val>>): Option<RuleError>
    requires c.cases != []
  {
    if c.variable !in scenarios then Some(UnknownVariable)
    else if c.cases[0] == "" then Some(EmptyCase)
    else if Negated(c.cases[0]) && exists i :: 0 <= i < |c.cases| && !Negated(c.cases[i]) then Some(MixedNegation)
    else if c.variable in values then Some(DuplicateVariable)
    else None
  }

  /** str.split never returns an empty list. */
  predicate Split(conditions: seq<Condition>) {
    forall c :: c in conditions ==> c.cases != []
  }

  /** Rule.__init__ from the conditions that are left, with the values collected so far. */
  function Build(conditions: seq<Condition>, scenarios: map<Var, seq<Val>>, values: map<Var, seq<Val>>): Result<Rule, RuleError>
    requires Split(conditions)
  {
    if conditions == [] then Success(Rule(values, false))
    else
      var c := conditions[0];
      var failed := Check(c, scenarios, values);
      if failed.Some? then Failure(failed.value)
      else
        var accepted :- Accepted(c, scenarios[c.variable]);
        if accepted == [] then Success(Rule(map[], true))
        else Build(conditions[1..], scenarios, values[c.variable := accepted])
  }

  predicate NoDuplicates<T(==)>(s: seq<T>) {
    forall i, j :: 0 <= i < j < |s| ==> s[i] != s[j]
  }

  predicate Known(scenarios: map<Var, seq<Val>>) {
    forall v :: v in scenarios ==> NoDuplicates(scenarios[v])
  }

  /** The documented meaning of a condition: the value is one of the cases, or none of the negated ones. */
  predicate Holds(c: Condition, v: Val)
    requires c.cases != []
  {
    if Negated(c.cases[0]) then "!" + v !in c.cases else v in c.cases
  }

  lemma {:induction false} KeepKnownMeaning(cases: seq<Val>, known: seq<Val>, v: Val)
    ensures v in KeepKnown(cases, known) <==> v in cases && v in known
  {
    if cases != [] {
      KeepKnownMeaning(cases[1..], known, v);
    }
  }

  lemma {:induction false} RemoveFirstMeaning(s: seq<Val>, x: Val, v: Val)
    requires x in s && NoDuplicates(s)
    ensures NoDuplicates(RemoveFirst(s, x))
    ensures v in RemoveFirst(s, x) <==> v in s && v != x
    decreases s
  {
    if s[0] != x {
      RemoveFirstMeaning(s[1..], x, v);
      RemoveFirstMeaning(s[1..], x, s[0]);
      assert s == [s[0]] + s[1..];
    }
  }

  lemma {:induction false} RemoveKnownMeaning(cases: seq<string>, known: seq<Val>, accepted: seq<Val>, v: Val)
    requires (forall c :: c in cases ==> Negated(c)) && NoDuplicates(accepted)
    requires forall a :: a in accepted ==> a in known
    requires RemoveKnown(cases, known, accepted).Success?
    ensures v in RemoveKnown(cases, known, accepted).value <==> v in accepted && "!" + v !in cases
    decreases cases
  {
    if cases != [] {
      assert Negated(cases[0]);
      var x := cases[0][1..];
      assert cases[0] == "!" + x;
      if x in known {
        RemoveFirstMeaning(accepted, x, v);
        forall a | a in RemoveFirst(accepted, x) ensures a in known {
          RemoveFirstMeaning(accepted, x, a);
        }
        RemoveKnownMeaning(cases[1..], known, RemoveFirst(accepted, x), v);
        assert v == x || "!" + v != "!" + x by {
          assert ("!" + v)[1..] == v && ("!" + x)[1..] == x;
        }
      } else {
        RemoveKnownMeaning(cases[1..], known, accepted, v);
        assert v in accepted ==> "!" + v != cases[0] by {
          assert ("!" + v)[1..] == v;
        }
      }
    }
  }

  /** The accepted values are the known values for which the condition holds. */
  lemma AcceptedMeaning(c: Condition, known: seq<Val>, v: Val)
    requires c.cases != [] && (Negated(c.cases[0]) ==> forall x :: x in c.cases ==> Negated(x))
    requires NoDuplicates(known) && Accepted(c, known).Success?
    ensures v in Accepted(c, known).value <==> v in known && Holds(c, v)
  {
    if Negated(c.cases[0]) {
      RemoveKnownMeaning(c.cases, known, known, v);
    } else {
      KeepKnownMeaning(c.cases, known, v);
    }
  }

  /** What a rule is for: every condition's variable is set to a known value for which the condition holds. */
  predicate Satisfied(conditions: seq<Condition>, scenarios: map<Var, seq<Val>>, a: Assignment)
    requires Split(conditions)
  {
    forall c :: c in conditions ==>
      c.variable in scenarios && c.variable in a && a[c.variable] in scenarios[c.variable] && Holds(c, a[c.variable])
  }

  /** A rule that was built matches exactly the assignments that satisfy its conditions. */
  lemma {:induction false} BuildMeaning(conditions: seq<Condition>, scenarios: map<Var, seq<Val>>,
                                        values: map<Var, seq<Val>>, a: Assignment)
    requires Split(conditions) && Known(scenarios) && Build(conditions, scenarios, values).Success?
    ensures Build(conditions, scenarios, values).value.Matches(a, false)
        <==> Rule(values, false).Matches(a, false) && Satisfied(conditions, scenarios, a)
    decreases conditions
  {
    if conditions != [] {
      var c, rest := conditions[0], conditions[1..];
      var known := scenarios[c.variable];
      var accepted := Accepted(c, known).value;
      if c.variable in a {
        AcceptedMeaning(c, known, a[c.variable]);
      }
      assert conditions == [c] + rest;
      assert Satisfied(conditions, scenarios, a) <==>
        Satisfied([c], scenarios, a) && Satisfied(rest, scenarios, a);
      if accepted != [] {
        var values' := values[c.variable := accepted];
        BuildMeaning(rest, scenarios, values', a);
        assert Rule(values', false).Matches(a, false) <==>
          Rule(values, false).Matches(a, false) && c.variable in a && a[c.variable] in accepted;
      }
    }
  }

  /** The case of a negated condition without its exclamation mark. */
  function Named(c: string): Val {
    if Negated(c) then c[1..] else c
  }

  /** No case names a known value that is not accepted, or names a known value again. */
  ghost predicate Removable(cases: seq<string>, known: seq<Val>, accepted: seq<Val>) {
    && (forall i :: 0 <= i < |cases| && Named(cases[i]) in known ==> Named(cases[i]) in accepted)
    && (forall i, j :: 0 <= i < j < |cases| && Named(cases[i]) in known ==> Named(cases[i]) != Named(cases[j]))
  }

  lemma {:induction false} RemoveKnownSucceeds(cases: seq<string>, known: seq<Val>, accepted: seq<Val>)
    requires (forall c :: c in cases ==> Negated(c)) && NoDuplicates(accepted)
    ensures RemoveKnown(cases, known, accepted).Success? <==> Removable(cases, known, accepted)
    decreases cases
  {
    if cases != [] {
      assert Negated(cases[0]);
      var x, rest := Named(cases[0]), cases[1..];
      if x in known && x in accepted {
        forall v ensures v in RemoveFirst(accepted, x) <==> v in accepted && v != x {
          RemoveFirstMeaning(accepted, x, v);
        }
        RemoveFirstMeaning(accepted, x, x);
        RemoveKnownSucceeds(rest, known, RemoveFirst(accepted, x));
      } else if x !in known {
        RemoveKnownSucceeds(rest, known, accepted);
      }
    }
  }

  /** Restricted lists of values, as a profile makes them: the same variables, with some of their values. */
  predicate Restricts(few: map<Var, seq<Val>>, full: map<Var, seq<Val>>) {
    few.Keys == full.Keys && Known(few) && Known(full)
    && forall v, x :: v in few && x in few[v] ==> x in full[v]
  }

  lemma RestrictedAccepts(c: Condition, few: seq<Val>, full: seq<Val>)
    requires c.cases != [] && (Negated(c.cases[0]) ==> forall x :: x in c.cases ==> Negated(x))
    requires NoDuplicates(few) && NoDuplicates(full) && (forall x :: x in few ==> x in full)
    requires Accepted(c, full).Success?
    ensures Accepted(c, few).Success?
    ensures Accepted(c, full).value == [] ==> Accepted(c, few).value == []
  {
    if Negated(c.cases[0]) {
      RemoveKnownSucceeds(c.cases, full, full);
      RemoveKnownSucceeds(c.cases, few, few);
    }
    if Accepted(c, full).value == [] && Accepted(c, few).value != [] {
      var v := Accepted(c, few).value[0];
      AcceptedMeaning(c, few, v);
      AcceptedMeaning(c, full, v);
    }
  }

  /** A rule that can be built from the full lists can be built from restricted ones. */
  lemma {:induction false} RestrictedBuilds(conditions: seq<Condition>, few: map<Var, seq<Val>>, full: map<Var, seq<Val>>,
                                            some: map<Var, seq<Val>>, values: map<Var, seq<Val>>)
    requires Split(conditions) && Restricts(few, full) && some.Keys == values.Keys
    requires Build(conditions, full, values).Success?
    ensures Build(conditions, few, some).Success?
    decreases conditions
  {
    if conditions != [] {
      var c := conditions[0];
      RestrictedAccepts(c, few[c.variable], full[c.variable]);
      if Accepted(c, few[c.variable]).value != [] {
        RestrictedBuilds(conditions[1..], few, full, some[c.variable := Accepted(c, few[c.variable]).value],
                         values[c.variable := Accepted(c, full[c.variable]).value]);
      }
    }
  }

  /**
   Building a rule against restricted lists and matching agrees with building it against the full lists,
   for every assignment within the restricted lists, also when the restriction makes the rule invalid.
   */
  lemma RestrictionAgrees(conditions: seq<Condition>, few: map<Var, seq<Val>>, full: map<Var, seq<Val>>, a: Assignment)
    requires Split(conditions) && Restricts(few, full) && Build(conditions, full, map[]).Success?
    requires forall v :: v in a && v in few ==> a[v] in few[v]
    ensures Build(conditions, few, map[]).Success?
    ensures Build(conditions, few, map[]).value.Matches(a, false)
        <==> Build(conditions, full, map[]).value.Matches(a, false)
  {
    RestrictedBuilds(conditions, few, full, map[], map[]);
    BuildMeaning(conditions, few, map[], a);
    BuildMeaning(conditions, full, map[], a);
  }

  /** Rules only constrain known variables, each to a non-empty list of known values. */
  predicate WellBuilt(r: Rule, scenarios: map<Var, seq<Val>>) {
    && (forall v :: v in r.values ==> v in scenarios && r.values[v] != [])
    && (forall v, x :: v in r.values && x in r.values[v] ==> x in scenarios[v])
  }

  lemma {:induction false} BuildWellBuilt(conditions: seq<Condition>, scenarios: map<Var, seq<Val>>, values: map<Var, seq<Val>>)
    requires Split(conditions) && Known(scenarios) && Build(conditions, scenarios, values).Success?
    requires WellBuilt(Rule(values, false), scenarios)
    ensures WellBuilt(Build(conditions, scenarios, values).value, scenarios)
    decreases conditions
  {
    if conditions != [] {
      var c := conditions[0];
      var accepted := Accepted(c, scenarios[c.variable]).value;
      forall x | x in accepted ensures x in scenarios[c.variable] {
        AcceptedMeaning(c, scenarios[c.variable], x);
      }
      if accepted != [] {
        BuildWellBuilt(conditions[1..], scenarios, values[c.variable := accepted]);
      }
    }
  }

  // When a rule can be built, in terms of the conditions alone.

  /** The first case begins with an exclamation mark. */
  predicate Negative(c: Condition)
    requires c.cases != [] && c.cases[0] != ""
  {
    c.cases[0][0] == '!'
  }

  /** No known value meets the condition, so the rule can never match. */
  predicate LeavesNothing(c: Condition, known: seq<Val>)
    requires c.cases != [] && c.cases[0] != ""
  {
    forall v :: v in known ==> if Negative(c) then "!" + v in c.cases else v !in c.cases
  }

  predicate NamesTwice(cases: seq<string>, known: seq<Val>) {
    exists i, j, v :: 0 <= i < j < |cases| && v in known && cases[i] == "!" + v && cases[j] == "!" + v
  }

  /** What is wrong with a condition, when the conditions before it have used some variables. */
  predicate Fault(c: Condition, scenarios: map<Var, seq<Val>>, used: set<Var>, e: RuleError)
    requires c.cases != []
  {
    if c.variable !in scenarios then e == UnknownVariable
    else if c.cases[0] == "" then e == EmptyCase
    else if Negative(c) && exists x :: x in c.cases && (x == "" || x[0] != '!') then e == MixedNegation
    else if c.variable in used then e == DuplicateVariable
    else Negative(c) && NamesTwice(c.cases, scenarios[c.variable]) && e == CaseTwice
  }

  predicate Fine(c: Condition, scenarios: map<Var, seq<Val>>, used: set<Var>)
    requires c.cases != []
  {
    && c.variable in scenarios && c.cases[0] != "" && c.variable !in used
    && (Negative(c) ==> (forall x :: x in c.cases ==> x != "" && x[0] == '!') && !NamesTwice(c.cases, scenarios[c.variable]))
  }

  predicate LeavesSome(c: Condition, scenarios: map<Var, seq<Val>>)
    requires c.cases != []
  {
    c.variable in scenarios && c.cases[0] != "" && !LeavesNothing(c, scenarios[c.variable])
  }

  function VariablesOf(conditions: seq<Condition>): set<Var> {
    set c | c in conditions :: c.variable
  }

  /** All conditions before condition n are in order, and none of them makes the rule one that never matches. */
  predicate ReachedBy(conditions: seq<Condition>, scenarios: map<Var, seq<Val>>, used: set<Var>, n: nat)
    requires Split(conditions) && n <= |conditions|
  {
    forall i :: 0 <= i < n ==>
      LeavesSome(conditions[i], scenarios) && Fine(conditions[i], scenarios, used + VariablesOf(conditions[..i]))
  }

  /** Every condition that is reached is in order. */
  predicate CanBuild(conditions: seq<Condition>, scenarios: map<Var, seq<Val>>, used: set<Var>)
    requires Split(conditions)
  {
    forall n :: 0 <= n < |conditions| && ReachedBy(conditions, scenarios, used, n) ==>
      Fine(conditions[n], scenarios, used + VariablesOf(conditions[..n]))
  }

  /** A condition that is reached is wrong. */
  predicate FailsWith(conditions: seq<Condition>, scenarios: map<Var, seq<Val>>, used: set<Var>, e: RuleError)
    requires Split(conditions)
  {
    exists n :: 0 <= n < |conditions| && ReachedBy(conditions, scenarios, used, n) &&
      Fault(conditions[n], scenarios, used + VariablesOf(conditions[..n]), e)
  }

  /** A condition is in order, or exactly one thing is wrong with it first. */
  lemma FineOrFault(c: Condition, scenarios: map<Var, seq<Val>>, used: set<Var>)
    requires c.cases != []
    ensures Fine(c, scenarios, used) <==> forall e :: !Fault(c, scenarios, used, e)
    ensures forall e, e' :: Fault(c, scenarios, used, e) && Fault(c, scenarios, used, e') ==> e == e'
  {
    if !Fine(c, scenarios, used) {
      var e := if c.variable !in scenarios then UnknownVariable else if c.cases[0] == "" then EmptyCase
               else if Negative(c) && exists x :: x in c.cases && (x == "" || x[0] != '!') then MixedNegation
               else if c.variable in used then DuplicateVariable else CaseTwice;
      assert Fault(c, scenarios, used, e);
    }
  }

  /** The first condition and the others. */
  lemma ReachedTail(c: Condition, rest: seq<Condition>, scenarios: map<Var, seq<Val>>, used: set<Var>, n: nat)
    requires Split([c] + rest) && Split(rest) && c.cases != [] && n <= |rest|
    ensures ReachedBy([c] + rest, scenarios, used, n + 1) <==>
      LeavesSome(c, scenarios) && Fine(c, scenarios, used) && ReachedBy(rest, scenarios, used + {c.variable}, n)
    ensures used + VariablesOf(([c] + rest)[..n + 1]) == used + {c.variable} + VariablesOf(rest[..n])
  {
    var all := [c] + rest;
    forall i | 0 <= i <= n ensures VariablesOf(all[..i + 1]) == {c.variable} + VariablesOf(rest[..i]) {
      assert all[..i + 1] == [c] + rest[..i];
    }
    assert all[..0] == [] && used + VariablesOf([]) == used;
    forall i | 0 <= i < n
      ensures all[i + 1] == rest[i]
      ensures used + VariablesOf(all[..i + 1]) == used + {c.variable} + VariablesOf(rest[..i])
    {
    }
    if ReachedBy(all, scenarios, used, n + 1) {
      assert LeavesSome(all[0], scenarios) && Fine(all[0], scenarios, used + VariablesOf(all[..0]));
      forall i | 0 <= i < n
        ensures LeavesSome(rest[i], scenarios) && Fine(rest[i], scenarios, used + {c.variable} + VariablesOf(rest[..i]))
      {
        assert LeavesSome(all[i + 1], scenarios) && Fine(all[i + 1], scenarios, used + VariablesOf(all[..i + 1]));
      }
    }
    if LeavesSome(c, scenarios) && Fine(c, scenarios, used) && ReachedBy(rest, scenarios, used + {c.variable}, n) {
      forall i | 0 <= i < n + 1
        ensures LeavesSome(all[i], scenarios) && Fine(all[i], scenarios, used + VariablesOf(all[..i]))
      {
        if i > 0 {
          assert LeavesSome(rest[i - 1], scenarios)
            && Fine(rest[i - 1], scenarios, used + {c.variable} + VariablesOf(rest[..i - 1]));
        }
      }
    }
  }

  lemma CanBuildFirst(c: Condition, rest: seq<Condition>, scenarios: map<Var, seq<Val>>, used: set<Var>)
    requires Split([c] + rest) && Split(rest) && c.cases != []
    ensures CanBuild([c] + rest, scenarios, used) <==>
      Fine(c, scenarios, used) && (LeavesSome(c, scenarios) ==> CanBuild(rest, scenarios, used + {c.variable}))
  {
    var all := [c] + rest;
    assert all[..0] == [] && used + VariablesOf([]) == used && ReachedBy(all, scenarios, used, 0);
    if CanBuild(all, scenarios, used) {
      assert Fine(all[0], scenarios, used + VariablesOf(all[..0]));
      if LeavesSome(c, scenarios) {
        forall n | 0 <= n < |rest| && ReachedBy(rest, scenarios, used + {c.variable}, n)
          ensures Fine(rest[n], scenarios, used + {c.variable} + VariablesOf(rest[..n]))
        {
          ReachedTail(c, rest, scenarios, used, n);
          assert Fine(all[n + 1], scenarios, used + VariablesOf(all[..n + 1]));
        }
      }
    }
    if Fine(c, scenarios, used) && (LeavesSome(c, scenarios) ==> CanBuild(rest, scenarios, used + {c.variable})) {
      forall n | 0 <= n < |all| && ReachedBy(all, scenarios, used, n)
        ensures Fine(all[n], scenarios, used + VariablesOf(all[..n]))
      {
        if n > 0 {
          ReachedTail(c, rest, scenarios, used, n - 1);
          assert Fine(rest[n - 1], scenarios, used + {c.variable} + VariablesOf(rest[..n - 1]));
        }
      }
    }
  }

  lemma FailsHere(conditions: seq<Condition>, scenarios: map<Var, seq<Val>>, used: set<Var>, e: RuleError)
    requires Split(conditions) && conditions != [] && Fault(conditions[0], scenarios, used, e)
    ensures FailsWith(conditions, scenarios, used, e)
  {
    assert conditions[..0] == [] && used + VariablesOf([]) == used && ReachedBy(conditions, scenarios, used, 0);
    assert Fault(conditions[0], scenarios, used + VariablesOf(conditions[..0]), e);
  }

  lemma FailsLater(c: Condition, rest: seq<Condition>, scenarios: map<Var, seq<Val>>, used: set<Var>, e: RuleError)
    requires Split([c] + rest) && Split(rest) && c.cases != []
    requires LeavesSome(c, scenarios) && Fine(c, scenarios, used) && FailsWith(rest, scenarios, used + {c.variable}, e)
    ensures FailsWith([c] + rest, scenarios, used, e)
  {
    var all := [c] + rest;
    var n :| 0 <= n < |rest| && ReachedBy(rest, scenarios, used + {c.variable}, n) &&
      Fault(rest[n], scenarios, used + {c.variable} + VariablesOf(rest[..n]), e);
    ReachedTail(c, rest, scenarios, used, n);
    assert Fault(all[n + 1], scenarios, used + VariablesOf(all[..n + 1]), e);
  }

  /** There is at most one error. */
  lemma OneError(conditions: seq<Condition>, scenarios: map<Var, seq<Val>>, used: set<Var>, e: RuleError, e': RuleError)
    requires Split(conditions) && FailsWith(conditions, scenarios, used, e)
    ensures !CanBuild(conditions, scenarios, used)
    ensures FailsWith(conditions, scenarios, used, e') ==> e == e'
  {
    var n :| 0 <= n < |conditions| && ReachedBy(conditions, scenarios, used, n) &&
      Fault(conditions[n], scenarios, used + VariablesOf(conditions[..n]), e);
    FineOrFault(conditions[n], scenarios, used + VariablesOf(conditions[..n]));
    if FailsWith(conditions, scenarios, used, e') {
      var m :| 0 <= m < |conditions| && ReachedBy(conditions, scenarios, used, m) &&
        Fault(conditions[m], scenarios, used + VariablesOf(conditions[..m]), e');
      FineOrFault(conditions[m], scenarios, used + VariablesOf(conditions[..m]));
      assert n == m;
    }
  }

  /** The checks and the selection of one condition find exactly its faults. */
  lemma ConditionExactly(c: Condition, scenarios: map<Var, seq<Val>>, values: map<Var, seq<Val>>)
    requires c.cases != [] && Known(scenarios)
    ensures Check(c, scenarios, values).Some? ==> Fault(c, scenarios, values.Keys, Check(c, scenarios, values).value)
    ensures Check(c, scenarios, values).None? ==>
      var r := Accepted(c, scenarios[c.variable]);
      && (r.Success? <==> Fine(c, scenarios, values.Keys))
      && (r.Failure? ==> r.error == CaseTwice && Fault(c, scenarios, values.Keys, CaseTwice))
      && (r.Success? ==> (r.value == [] <==> !LeavesSome(c, scenarios)))
  {
    if Check(c, scenarios, values).Some? {
      CheckFault(c, scenarios, values);
    } else {
      var known := scenarios[c.variable];
      forall x | x in c.cases && Negative(c) ensures x != "" && x[0] == '!' {
        var i :| 0 <= i < |c.cases| && c.cases[i] == x;
        assert Negated(c.cases[i]);
      }
      if Negative(c) {
        RemoveKnownSucceeds(c.cases, known, known);
        RemoveKnownError(c.cases, known, known);
        TwiceExactly(c.cases, known);
      }
      if Accepted(c, known).Success? {
        NothingExactly(c, known);
      }
    }
  }

  lemma CheckFault(c: Condition, scenarios: map<Var, seq<Val>>, values: map<Var, seq<Val>>)
    requires c.cases != [] && Check(c, scenarios, values).Some?
    ensures Fault(c, scenarios, values.Keys, Check(c, scenarios, values).value)
  {
    if c.variable in scenarios && c.cases[0] != "" {
      if i :| 0 <= i < |c.cases| && !Negated(c.cases[i]) {
        assert c.cases[i] in c.cases;
      }
      if x :| x in c.cases && (x == "" || x[0] != '!') {
        var i :| 0 <= i < |c.cases| && c.cases[i] == x;
        assert !Negated(c.cases[i]);
      }
    }
  }

  lemma {:induction false} RemoveKnownError(cases: seq<string>, known: seq<Val>, accepted: seq<Val>)
    requires forall c :: c in cases ==> Negated(c)
    ensures RemoveKnown(cases, known, accepted).Failure? ==> RemoveKnown(cases, known, accepted).error == CaseTwice
    decreases cases
  {
    if cases != [] {
      assert Negated(cases[0]);
      var v := cases[0][1..];
      if v !in known {
        RemoveKnownError(cases[1..], known, accepted);
      } else if v in accepted {
        RemoveKnownError(cases[1..], known, RemoveFirst(accepted, v));
      }
    }
  }

  /** Removing every case from the known values fails exactly if one is named twice. */
  lemma TwiceExactly(cases: seq<string>, known: seq<Val>)
    requires forall c :: c in cases ==> Negated(c)
    ensures Removable(cases, known, known) <==> !NamesTwice(cases, known)
  {
    forall i | 0 <= i < |cases| ensures Negated(cases[i]) && cases[i] == "!" + Named(cases[i]) {
    }
    if i, j, v :| 0 <= i < j < |cases| && v in known && cases[i] == "!" + v && cases[j] == "!" + v {
      assert Named(cases[i]) == v && Named(cases[j]) == v;
    }
  }

  lemma NothingExactly(c: Condition, known: seq<Val>)
    requires c.cases != [] && c.cases[0] != "" && (Negated(c.cases[0]) ==> forall x :: x in c.cases ==> Negated(x))
    requires NoDuplicates(known) && Accepted(c, known).Success?
    ensures Accepted(c, known).value == [] <==> LeavesNothing(c, known)
  {
    forall v ensures v in Accepted(c, known).value <==> v in known && Holds(c, v) {
      AcceptedMeaning(c, known, v);
    }
    if Accepted(c, known).value != [] {
      var v := Accepted(c, known).value[0];
      assert v in known && Holds(c, v);
    }
  }

  lemma {:induction false} BuildFails(conditions: seq<Condition>, scenarios: map<Var, seq<Val>>, values: map<Var, seq<Val>>)
    requires Split(conditions) && Known(scenarios)
    ensures Build(conditions, scenarios, values).Success? <==> CanBuild(conditions, scenarios, values.Keys)
    ensures Build(conditions, scenarios, values).Failure? ==>
      FailsWith(conditions, scenarios, values.Keys, Build(conditions, scenarios, values).error)
    decreases conditions
  {
    if conditions != [] {
      var c, rest := conditions[0], conditions[1..];
      assert conditions == [c] + rest;
      ConditionExactly(c, scenarios, values);
      FineOrFault(c, scenarios, values.Keys);
      CanBuildFirst(c, rest, scenarios, values.Keys);
      if Check(c, scenarios, values).None? && Accepted(c, scenarios[c.variable]).Success? {
        var values' := values[c.variable := Accepted(c, scenarios[c.variable]).value];
        assert values'.Keys == values.Keys + {c.variable};
        BuildFails(rest, scenarios, values');
        if Build(conditions, scenarios, values).Failure? {
          FailsLater(c, rest, scenarios, values.Keys, Build(conditions, scenarios, values).error);
        }
      } else {
        FailsHere(conditions, scenarios, values.Keys, Build(conditions, scenarios, values).error);
      }
    }
  }

  /**
   A rule is built exactly if every condition that is reached is in order: its variable is known and not used before,
   its first case is not empty, all its cases are negated if the first is, and then no known value is named twice. A
   condition is reached if each one before it is in order and leaves some value. Otherwise the error is that of the first
   condition that is not in order.
   */
  lemma BuildExactly(conditions: seq<Condition>, scenarios: map<Var, seq<Val>>)
    requires Split(conditions) && Known(scenarios)
    ensures Build(conditions, scenarios, map[]).Success? <==> CanBuild(conditions, scenarios, {})
    ensures forall e :: Build(conditions, scenarios, map[]) == Failure(e) <==> FailsWith(conditions, scenarios, {}, e)
  {
    var nothing: map<Var, seq<Val>> := map[];
    assert nothing.Keys == {};
    BuildFails(conditions, scenarios, nothing);
    forall e ensures Build(conditions, scenarios, map[]) == Failure(e) <==> FailsWith(conditions, scenarios, {}, e) {
      if FailsWith(conditions, scenarios, {}, e) {
        var r := Build(conditions, scenarios, map[]);
        OneError(conditions, scenarios, {}, e, if r.Failure? then r.error else e);
      }
    }
  }

  /** Rule.__init__: None or no conditions give the empty rule. */
  method MakeRule(conditions: seq<Condition>, scenarios: map<Var, seq<Val>>) returns (r: Result<Rule, RuleError>)
    requires Split(conditions)
    ensures r == Build(conditions, scenarios, map[])
  {
    var values: map<Var, seq<Val>> := map[];
    for i := 0 to |conditions|
      invariant Build(conditions[i..], scenarios, values) == Build(conditions, scenarios, map[])
    {
      var c := conditions[i];
      assert conditions[i..][0] == c && conditions[i..][1..] == conditions[i + 1..];
      var failed := Check(c, scenarios, values);
      if failed.Some? {
        return Failure(failed.value);
      }
      var accepted := Select(c, scenarios[c.variable]);
      if accepted.Failure? {
        return Failure(accepted.error);
      }
      if accepted.value == [] {
        return Success(Rule(map[], true));
      }
      values := values[c.variable := accepted.value];
    }
    r := Success(Rule(values, false));
  }

  /** The loop over the cases of one condition. */
  method Select(c: Condition, known: seq<Val>) returns (r: Result<seq<Val>, RuleError>)
    requires c.cases != [] && (Negated(c.cases[0]) ==> forall x :: x in c.cases ==> Negated(x))
    ensures r == Accepted(c, known)
  {
    var negate := Negated(c.cases[0]);
    var accepted := if negate then known else [];
    for i := 0 to |c.cases|
      invariant negate ==> RemoveKnown(c.cases[i..], known, accepted) == RemoveKnown(c.cases, known, known)
      invariant !negate ==> accepted + KeepKnown(c.cases[i..], known) == KeepKnown(c.cases, known)
    {
      ghost var rest := c.cases[i + 1..];
      assert c.cases[i..] == [c.cases[i]] + rest;
      if negate {
        assert Negated(c.cases[i]);
        var v := c.cases[i][1..];
        if v in known {
          if v !in accepted {
            return Failure(CaseTwice);
          }
          accepted := RemoveFirst(accepted, v);
        }
      } else {
        KeepOneMore(accepted, c.cases[i], rest, known);
        if c.cases[i] in known {
          accepted := accepted + [c.cases[i]];
        }
      }
    }
    assert c.cases[|c.cases|..] == [] && accepted + [] == accepted;
    r := Success(accepted);
  }

  lemma KeepOneMore(accepted: seq<Val>, first: Val, rest: seq<Val>, known: seq<Val>)
    ensures accepted + KeepKnown([first] + rest, known) ==
      (if first in known then accepted + [first] else accepted) + KeepKnown(rest, known)
  {
  }
}
