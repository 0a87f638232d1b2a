/** check_deps: closing a configuration under requirements. */
module Profiles {
  import opened Wrappers
  import opened Rules

  /** A source directory: its conditions and its requirements, where it has any. */
  datatype Source = Source(conditions: Option<seq<Condition>>, needs: Option<seq<Condition>>)

  datatype DepError =
    | BadRule(error: RuleError)
    | SeveralChoices   // corresponding_scenario: a requirement leaves a choice between values

  predicate Parsed(s: Source) {
    && (s.conditions.Some? ==> Split(s.conditions.value))
    && (s.needs.Some? ==> Split(s.needs.value))
  }

  /** A requirement that was understood: when trigger matches, need must match. */
  datatype Clause = Clause(trigger: Rule, need: Rule)

  /** The clause of a source with requirements; a source without conditions is always triggered. */
  function ClauseOf(s: Source, all: map<Var, seq<Val>>): Result<Clause, RuleError>
    requires Parsed(s) && s.needs.Some?
  {
    var trigger :- if s.conditions.Some? then Build(s.conditions.value, all, map[]) else Success(Rule(map[], false));
    var need :- Build(s.needs.value, all, map[]);
    Success(Clause(trigger, need))
  }

  /** The clauses of the sources that have one, in order. */
  function Clauses(sources: seq<Source>, all: map<Var, seq<Val>>): seq<Clause>
    requires AllParsed(sources)
  {
    if sources == [] then []
    else ClausesOf(sources[0], all) + Clauses(sources[1..], all)
  }

  function ClausesOf(s: Source, all: map<Var, seq<Val>>): seq<Clause>
    requires Parsed(s)
  {
    if s.needs.Some? && ClauseOf(s, all).Success? then [ClauseOf(s, all).value] else []
  }

  predicate AllParsed(sources: seq<Source>) {
    forall s :: s in sources ==> Parsed(s)
  }

  /** The configuration after one source, and whether its requirement had to be imposed. */
  datatype Step = Step(scenarios: Assignment, modified: bool)

  /** One source of the inner loop. Rules are only built when they are looked at. */
  function SourceStep(s: Source, all: map<Var, seq<Val>>, a: Assignment): Result<Step, DepError>
    requires Parsed(s)
  {
    if s.needs == None then Success(Step(a, false))
    else
      match if s.conditions.Some? then Build(s.conditions.value, all, map[]) else Success(Rule(map[], false))
      case Failure(e) => Failure(BadRule(e))
      case Success(trigger) => if trigger.Matches(a, false) then NeedStep(s, all, a) else Success(Step(a, false))
  }

  /** A source that is triggered. */
  function NeedStep(s: Source, all: map<Var, seq<Val>>, a: Assignment): Result<Step, DepError>
    requires Parsed(s) && s.needs.Some?
  {
    match Build(s.needs.value, all, map[])
    case Failure(e) => Failure(BadRule(e))
    case Success(need) =>
      if need.Matches(a, false) then Success(Step(a, false))
      else if Single(need) then Success(Step(a + Imposed(need), true))
      else Failure(SeveralChoices)
  }

  /** One pass over the sources. */
  function Pass(sources: seq<Source>, all: map<Var, seq<Val>>, a: Assignment): Result<Step, DepError>
    requires AllParsed(sources)
  {
    if sources == [] then Success(Step(a, false))
    else
      var first :- SourceStep(sources[0], all, a);
      var rest :- Pass(sources[1..], all, first.scenarios);
      Success(Step(rest.scenarios, first.modified || rest.modified))
  }

  /** No source has anything to impose. */
  predicate Settled(sources: seq<Source>, all: map<Var, seq<Val>>, a: Assignment)
    requires AllParsed(sources)
  {
    forall s :: s in sources ==> SourceStep(s, all, a) == Success(Step(a, false))
  }

  lemma UnmodifiedStep(s: Source, all: map<Var, seq<Val>>, a: Assignment)
    requires Parsed(s)
    ensures SourceStep(s, all, a).Success? && !SourceStep(s, all, a).value.modified ==>
      SourceStep(s, all, a) == Success(Step(a, false))
  {
  }

  /** A pass reports no modification, which ends the loop, if and only if no source has anything to impose. */
  lemma {:induction false} PassUnmodified(sources: seq<Source>, all: map<Var, seq<Val>>, a: Assignment)
    requires AllParsed(sources)
    ensures Pass(sources, all, a).Success? && !Pass(sources, all, a).value.modified <==> Settled(sources, all, a)
    ensures Settled(sources, all, a) ==> Pass(sources, all, a) == Success(Step(a, false))
    decreases |sources|
  {
    if sources != [] {
      assert sources == [sources[0]] + sources[1..];
      assert Settled(sources, all, a) <==> SourceStep(sources[0], all, a) == Success(Step(a, false)) && Settled(sources[1..], all, a);
      PassUnmodified(sources[1..], all, a);
      UnmodifiedStep(sources[0], all, a);
    }
  }

  /** A settled configuration is closed: every triggered requirement holds. */
  lemma {:induction false} SettledIsClosed(sources: seq<Source>, all: map<Var, seq<Val>>, a: Assignment)
    requires AllParsed(sources) && Settled(sources, all, a)
    ensures Closed(Clauses(sources, all), a)
    decreases |sources|
  {
    if sources != [] {
      assert sources == [sources[0]] + sources[1..];
      SettledClause(sources[0], all, a);
      SettledIsClosed(sources[1..], all, a);
    }
  }

  lemma SettledClause(s: Source, all: map<Var, seq<Val>>, a: Assignment)
    requires Parsed(s) && SourceStep(s, all, a) == Success(Step(a, false))
    ensures Closed(ClausesOf(s, all), a)
  {
    if s.needs.Some? && ClauseOf(s, all).Success? {
      var c := ClauseOf(s, all).value;
      assert ClausesOf(s, all) == [c] && (c.trigger.Matches(a, false) ==> NeedStep(s, all, a) == Success(Step(a, false)));
    }
  }

  /** Every triggered requirement holds. */
  predicate Closed(clauses: seq<Clause>, a: Assignment) {
    forall c :: c in clauses && c.trigger.Matches(a, false) ==> c.need.Matches(a, false)
  }

  predicate Single(r: Rule) {
    forall v :: v in r.values ==> |r.values[v]| == 1
  }

  /** corresponding_scenario, for a requirement without choice. */
  function Imposed(r: Rule): Assignment
    requires Single(r)
  {
    map v | v in r.values :: r.values[v][0]
  }

  /** What the loop does with n passes from configuration a. */
  function Passes(sources: seq<Source>, all: map<Var, seq<Val>>, a: Assignment, n: nat): Result<Assignment, DepError>
    requires AllParsed(sources)
  {
    if n == 0 then Success(a)
    else
      var before :- Passes(sources, all, a, n - 1);
      var step :- Pass(sources, all, before);
      Success(step.scenarios)
  }

  /** The loop ends in configuration b. */
  ghost predicate EndsAt(sources: seq<Source>, all: map<Var, seq<Val>>, a: Assignment, b: Assignment)
    requires AllParsed(sources)
  {
    exists n: nat :: Passes(sources, all, a, n) == Success(b) && Settled(sources, all, b)
  }

  /** The loop ends with an error. */
  ghost predicate Fails(sources: seq<Source>, all: map<Var, seq<Val>>, a: Assignment, error: DepError)
    requires AllParsed(sources)
  {
    exists n: nat :: Passes(sources, all, a, n) == Failure(error)
  }

  /** The loop ends, in one way or the other. */
  ghost predicate Halts(sources: seq<Source>, all: map<Var, seq<Val>>, a: Assignment)
    requires AllParsed(sources)
  {
    exists n: nat :: HaltsBy(sources, all, a, n)
  }

  predicate HaltsBy(sources: seq<Source>, all: map<Var, seq<Val>>, a: Assignment, n: nat)
    requires AllParsed(sources)
  {
    Passes(sources, all, a, n).Failure? || Settled(sources, all, Passes(sources, all, a, n).value)
  }

  /** The requirement can be imposed, and sets the variable. */
  predicate Sets(c: Clause, v: Var) {
    Single(c.need) && v in c.need.values
  }

  function ValueSet(c: Clause, v: Var): Val
    requires Sets(c, v)
  {
    c.need.values[v][0]
  }

  /** Variable v may come to have an accepted value: from the start, or from one of some requirements. */
  predicate Attainable(accepted: seq<Val>, v: Var, start: Assignment, some: set<Clause>) {
    (v in start && start[v] in accepted) || exists d :: d in some && Sets(d, v) && ValueSet(d, v) in accepted
  }

  predicate Enabled(c: Clause, start: Assignment, some: set<Clause>) {
    !c.trigger.invalid && forall v :: v in c.trigger.values ==> Attainable(c.trigger.values[v], v, start, some)
  }

  /** The clauses that are reached from start when those of some have been. */
  function Reach(cs: set<Clause>, start: Assignment, some: set<Clause>): (r: set<Clause>)
    requires some <= cs
    ensures some <= r <= cs
    decreases cs - some
  {
    var more := set c | c in cs && c !in some && Enabled(c, start, some);
    if more == {} then some else Reach(cs, start, some + more)
  }

  /** The clauses that can be triggered on the way from a configuration, each by values that earlier ones impose. */
  function Reached(sources: seq<Source>, all: map<Var, seq<Val>>, start: Assignment): set<Clause>
    requires AllParsed(sources)
  {
    Reach(ClauseSet(sources, all), start, {})
  }

  function ClauseSet(sources: seq<Source>, all: map<Var, seq<Val>>): set<Clause>
    requires AllParsed(sources)
  {
    set c | c in Clauses(sources, all)
  }

  lemma {:induction false} ReachClosed(cs: set<Clause>, start: Assignment, some: set<Clause>, c: Clause)
    requires some <= cs && c in cs && Enabled(c, start, Reach(cs, start, some))
    ensures c in Reach(cs, start, some)
    decreases cs - some
  {
    var more := set c | c in cs && c !in some && Enabled(c, start, some);
    if more == {} {
      assert c !in more;
    } else {
      ReachClosed(cs, start, some + more, c);
    }
  }

  /** What is closed under being enabled contains all that is reached. */
  lemma {:induction false} ReachLeast(cs: set<Clause>, start: Assignment, some: set<Clause>, closed: set<Clause>)
    requires some <= cs && some <= closed && forall c :: c in cs && Enabled(c, start, closed) ==> c in closed
    ensures Reach(cs, start, some) <= closed
    decreases cs - some
  {
    var more := set c | c in cs && c !in some && Enabled(c, start, some);
    forall c | c in more ensures c in closed {
      EnabledMore(c, start, some, closed);
    }
    if more != {} {
      ReachLeast(cs, start, some + more, closed);
    }
  }

  lemma EnabledMore(c: Clause, start: Assignment, some: set<Clause>, more: set<Clause>)
    requires Enabled(c, start, some) && some <= more
    ensures Enabled(c, start, more)
  {
    forall v | v in c.trigger.values ensures Attainable(c.trigger.values[v], v, start, more) {
      assert Attainable(c.trigger.values[v], v, start, some);
    }
  }

  /** Configuration a differs from start in values that requirements of some impose. */
  predicate Made(start: Assignment, a: Assignment, some: set<Clause>) {
    && (forall v :: v in start ==> v in a)
    && (forall v :: v in a ==> FromStart(start, a, v) || exists d :: d in some && Sets(d, v) && a[v] == ValueSet(d, v))
  }

  predicate FromStart(start: Assignment, a: Assignment, v: Var)
    requires v in a
  {
    v in start && a[v] == start[v]
  }

  /** The clauses are all those of a table, and contain each clause of it that they enable. */
  predicate Complete(sources: seq<Source>, all: map<Var, seq<Val>>, start: Assignment, some: set<Clause>)
    requires AllParsed(sources)
  {
    forall c :: c in Clauses(sources, all) && Enabled(c, start, some) ==> c in some
  }

  lemma ReachedComplete(sources: seq<Source>, all: map<Var, seq<Val>>, start: Assignment)
    requires AllParsed(sources)
    ensures Complete(sources, all, start, Reached(sources, all, start))
  {
    forall c | c in Clauses(sources, all) && Enabled(c, start, Reached(sources, all, start))
      ensures c in Reached(sources, all, start)
    {
      ReachClosed(ClauseSet(sources, all), start, {}, c);
    }
  }

  /** What is triggered on the way has been reached. */
  lemma TriggeredIsEnabled(c: Clause, start: Assignment, a: Assignment, some: set<Clause>)
    requires Made(start, a, some) && c.trigger.Matches(a, false)
    ensures Enabled(c, start, some)
  {
    forall v | v in c.trigger.values ensures Attainable(c.trigger.values[v], v, start, some) {
      assert v in a && a[v] in c.trigger.values[v];
    }
  }

  /** A source that imposes something has a clause, which is triggered and does not hold. */
  lemma Imposes(s: Source, all: map<Var, seq<Val>>, a: Assignment) returns (c: Clause)
    requires Parsed(s) && SourceStep(s, all, a).Success? && SourceStep(s, all, a).value.modified
    ensures ClausesOf(s, all) == [c] && c.trigger.Matches(a, false) && !c.need.Matches(a, false) && Single(c.need)
    ensures SourceStep(s, all, a).value.scenarios == a + Imposed(c.need)
  {
    c := ClauseOf(s, all).value;
  }

  /** No requirement that is reached is unsatisfiable, and any two give the same value to a common variable. */
  ghost predicate Compatible(some: set<Clause>) {
    && (forall c :: c in some ==> !c.need.invalid)
    && (forall c, d, v :: c in some && d in some && Sets(c, v) && Sets(d, v) ==> ValueSet(c, v) == ValueSet(d, v))
  }

  /** The variables that requirements set. */
  function Targets(some: set<Clause>): set<Var> {
    set c, v | c in some && v in c.need.values && Single(c.need) :: v
  }

  /** The values that compatible requirements give to variables. */
  ghost function Goal(some: set<Clause>): map<Var, Val> {
    map v | v in Targets(some) :: GoalValue(some, v)
  }

  ghost function GoalValue(some: set<Clause>, v: Var): Val
    requires v in Targets(some)
  {
    var c :| c in some && Sets(c, v);
    ValueSet(c, v)
  }

  lemma GoalIs(some: set<Clause>, c: Clause, v: Var)
    requires Compatible(some) && c in some && Sets(c, v)
    ensures v in Goal(some) && Goal(some)[v] == ValueSet(c, v)
  {
    assert v in Targets(some);
  }

  /** The variables that do not have their goal yet: the measure of the loop. */
  ghost function Unsettled(a: Assignment, some: set<Clause>): set<Var> {
    set v | v in Goal(some) && !(v in a && a[v] == Goal(some)[v])
  }

  /** Imposing a requirement that does not hold settles a variable and unsettles none. */
  lemma ImposeProgress(c: Clause, a: Assignment, some: set<Clause>)
    requires Compatible(some) && c in some && Single(c.need) && !c.need.Matches(a, false)
    ensures Unsettled(a + Imposed(c.need), some) < Unsettled(a, some)
  {
    forall v | v in c.need.values ensures v in Goal(some) && Goal(some)[v] == Imposed(c.need)[v] {
      GoalIs(some, c, v);
    }
    var v :| v in c.need.values && !(v in a && a[v] in c.need.values[v]);
    assert v in Unsettled(a, some) && v !in Unsettled(a + Imposed(c.need), some);
  }

  lemma ImposeMade(c: Clause, start: Assignment, a: Assignment, some: set<Clause>)
    requires Made(start, a, some) && c in some && Single(c.need)
    ensures Made(start, a + Imposed(c.need), some)
  {
    var b := a + Imposed(c.need);
    forall v | v in b ensures FromStart(start, b, v) || exists d :: d in some && Sets(d, v) && b[v] == ValueSet(d, v) {
      if v in c.need.values {
        assert Sets(c, v) && b[v] == ValueSet(c, v);
      } else {
        assert b[v] == a[v];
      }
    }
  }

  /** One source keeps to what has been reached, and settles a variable if it modifies anything. */
  lemma StepKeeps(s: Source, all: map<Var, seq<Val>>, start: Assignment, a: Assignment, some: set<Clause>)
    requires Parsed(s) && Made(start, a, some) && SourceStep(s, all, a).Success?
    requires forall c :: c in ClausesOf(s, all) && Enabled(c, start, some) ==> c in some
    ensures var step := SourceStep(s, all, a).value;
      && Made(start, step.scenarios, some)
      && (!step.modified ==> step.scenarios == a)
      && (step.modified && Compatible(some) ==> Unsettled(step.scenarios, some) < Unsettled(a, some))
  {
    if SourceStep(s, all, a).value.modified {
      var c := Imposes(s, all, a);
      TriggeredIsEnabled(c, start, a, some);
      ImposeMade(c, start, a, some);
      if Compatible(some) {
        ImposeProgress(c, a, some);
      }
    }
  }

  /** A pass does the same. */
  lemma {:induction false} PassKeeps(sources: seq<Source>, all: map<Var, seq<Val>>, start: Assignment, a: Assignment,
                                     some: set<Clause>)
    requires AllParsed(sources) && Complete(sources, all, start, some) && Made(start, a, some)
    requires Pass(sources, all, a).Success?
    ensures var step := Pass(sources, all, a).value;
      && Made(start, step.scenarios, some)
      && (!step.modified ==> step.scenarios == a)
      && (step.modified && Compatible(some) ==> Unsettled(step.scenarios, some) < Unsettled(a, some))
    decreases |sources|
  {
    if sources != [] {
      CompleteParts(sources, all, start, some);
      StepKeeps(sources[0], all, start, a, some);
      PassKeeps(sources[1..], all, start, SourceStep(sources[0], all, a).value.scenarios, some);
    }
  }

  lemma CompleteParts(sources: seq<Source>, all: map<Var, seq<Val>>, start: Assignment, some: set<Clause>)
    requires AllParsed(sources) && Complete(sources, all, start, some) && sources != []
    ensures Complete(sources[1..], all, start, some)
    ensures forall c :: c in ClausesOf(sources[0], all) && Enabled(c, start, some) ==> c in some
  {
  }

  /** So does every number of passes. */
  lemma {:induction false} PassesKeep(sources: seq<Source>, all: map<Var, seq<Val>>, start: Assignment, n: nat)
    requires AllParsed(sources) && Passes(sources, all, start, n).Success?
    ensures Made(start, Passes(sources, all, start, n).value, Reached(sources, all, start))
  {
    if n > 0 {
      PassesKeep(sources, all, start, n - 1);
      ReachedComplete(sources, all, start);
      PassKeeps(sources, all, start, Passes(sources, all, start, n - 1).value, Reached(sources, all, start));
    }
  }

  /** If what is reached is compatible, the loop ends: every pass settles a variable. */
  lemma CompatibleHalts(sources: seq<Source>, all: map<Var, seq<Val>>, start: Assignment)
    requires AllParsed(sources) && Compatible(Reached(sources, all, start))
    ensures Halts(sources, all, start)
  {
    HaltsAfter(sources, all, start, 0, Unsettled(start, Reached(sources, all, start)));
  }

  lemma {:induction false} HaltsAfter(sources: seq<Source>, all: map<Var, seq<Val>>, start: Assignment, n: nat,
                                      open: set<Var>)
    requires AllParsed(sources) && Compatible(Reached(sources, all, start)) && Passes(sources, all, start, n).Success?
    requires open == Unsettled(Passes(sources, all, start, n).value, Reached(sources, all, start))
    ensures Halts(sources, all, start)
    decreases open
  {
    if !HaltsBy(sources, all, start, n) && !HaltsBy(sources, all, start, n + 1) {
      NextSettles(sources, all, start, n);
      HaltsAfter(sources, all, start, n + 1, Unsettled(Passes(sources, all, start, n + 1).value, Reached(sources, all, start)));
    }
  }

  lemma NextSettles(sources: seq<Source>, all: map<Var, seq<Val>>, start: Assignment, n: nat)
    requires AllParsed(sources) && Compatible(Reached(sources, all, start)) && Passes(sources, all, start, n).Success?
    requires Passes(sources, all, start, n + 1).Success? && !HaltsBy(sources, all, start, n)
    ensures Unsettled(Passes(sources, all, start, n + 1).value, Reached(sources, all, start)) <
      Unsettled(Passes(sources, all, start, n).value, Reached(sources, all, start))
  {
    var a, some := Passes(sources, all, start, n).value, Reached(sources, all, start);
    PassUnmodified(sources, all, a);
    PassesKeep(sources, all, start, n);
    ReachedComplete(sources, all, start);
    PassKeeps(sources, all, start, a, some);
  }

  /** Every trigger that is reached accepts the values that requirements that are reached impose on its variables. */
  ghost predicate Accepting(some: set<Clause>) {
    forall c, d, v :: c in some && d in some && v in c.trigger.values && Sets(d, v) ==> ValueSet(d, v) in c.trigger.values[v]
  }

  /** The clauses of some that are triggered in a configuration. */
  function Triggered(some: set<Clause>, a: Assignment): set<Clause> {
    set c | c in some && c.trigger.Matches(a, false)
  }

  /** a keeps the variables of start, or gives them values that requirements of some impose. */
  predicate Keeps(start: Assignment, a: Assignment, some: set<Clause>) {
    forall v :: v in start ==>
      v in a && (a[v] == start[v] || exists d :: d in some && Sets(d, v) && a[v] == ValueSet(d, v))
  }

  /** In a closed configuration every clause that is reached is triggered. */
  lemma ClosedTriggersAll(cs: set<Clause>, start: Assignment, a: Assignment)
    requires var some := Reach(cs, start, {});
      Accepting(some) && Keeps(start, a, some) && forall c :: c in cs && c.trigger.Matches(a, false) ==> c.need.Matches(a, false)
    ensures forall c :: c in Reach(cs, start, {}) ==> c.trigger.Matches(a, false)
  {
    var some := Reach(cs, start, {});
    var closed := Triggered(some, a);
    forall c | c in cs && Enabled(c, start, closed) ensures c in closed {
      EnabledMore(c, start, closed, some);
      ReachClosed(cs, start, {}, c);
      EnabledTriggers(c, start, a, some, closed);
    }
    ReachLeast(cs, start, {}, closed);
  }

  lemma EnabledTriggers(c: Clause, start: Assignment, a: Assignment, some: set<Clause>, closed: set<Clause>)
    requires Accepting(some) && Keeps(start, a, some) && c in some && closed <= some && Enabled(c, start, closed)
    requires forall d :: d in closed ==> d.need.Matches(a, false)
    ensures c.trigger.Matches(a, false)
  {
    forall v | v in c.trigger.values ensures v in a && a[v] in c.trigger.values[v] {
      assert Attainable(c.trigger.values[v], v, start, closed);
      if d :| d in closed && Sets(d, v) && ValueSet(d, v) in c.trigger.values[v] {
        assert d.need.Matches(a, false);
        assert a[v] in d.need.values[v];
      }
    }
  }

  /** Requirements that hold in one configuration are compatible. */
  lemma HoldTogether(some: set<Clause>, a: Assignment)
    requires forall c :: c in some ==> c.need.Matches(a, false)
    ensures Compatible(some)
    ensures forall c, v :: c in some && Sets(c, v) ==> v in a && a[v] == ValueSet(c, v)
  {
    forall c, v | c in some && Sets(c, v) ensures v in a && a[v] == ValueSet(c, v) {
      assert a[v] in c.need.values[v];
    }
  }

  /**
   Where the loop ends, if reached triggers accept what reached requirements impose: the requirements that are reached
   are compatible, and the configuration is the start with their values, whatever the order of the sources.
   */
  lemma EndIsGoal(sources: seq<Source>, all: map<Var, seq<Val>>, start: Assignment, b: Assignment)
    requires AllParsed(sources) && Accepting(Reached(sources, all, start)) && EndsAt(sources, all, start, b)
    ensures Compatible(Reached(sources, all, start)) && b == start + Goal(Reached(sources, all, start))
  {
    var some := Reached(sources, all, start);
    var n: nat :| Passes(sources, all, start, n) == Success(b) && Settled(sources, all, b);
    PassesKeep(sources, all, start, n);
    SettledIsClosed(sources, all, b);
    ClosedTriggersAll(ClauseSet(sources, all), start, b);
    HoldTogether(some, b);
    MadeIsGoal(start, b, some);
  }

  lemma MadeIsGoal(start: Assignment, b: Assignment, some: set<Clause>)
    requires Made(start, b, some) && Compatible(some)
    requires forall c, v :: c in some && Sets(c, v) ==> v in b && b[v] == ValueSet(c, v)
    ensures b == start + Goal(some)
  {
    var goal := start + Goal(some);
    forall v | v in Goal(some) ensures v in b && b[v] == goal[v] {
      var c :| c in some && Sets(c, v);
      GoalIs(some, c, v);
    }
    forall v | v in b ensures v in goal && b[v] == goal[v] {
      if d :| d in some && Sets(d, v) && b[v] == ValueSet(d, v) {
        GoalIs(some, d, v);
      }
    }
    assert b.Keys == goal.Keys;
  }

  /** The rule of a source can be built, and its conditions hold; a source without conditions is always triggered. */
  predicate TriggeredBy(s: Source, all: map<Var, seq<Val>>, a: Assignment)
    requires Parsed(s)
  {
    s.conditions.Some? ==> Satisfied(s.conditions.value, all, a)
  }

  /**
   Where the loop ends, for every table: the conditions of all sources with requirements can be built, and whenever the
   configuration satisfies them, the requirements can be built and it satisfies those too.
   */
  lemma EndSatisfies(sources: seq<Source>, all: map<Var, seq<Val>>, start: Assignment, b: Assignment, s: Source)
    requires AllParsed(sources) && Known(all) && EndsAt(sources, all, start, b) && s in sources && s.needs.Some?
    ensures s.conditions.Some? ==> CanBuild(s.conditions.value, all, {})
    ensures TriggeredBy(s, all, b) ==> CanBuild(s.needs.value, all, {}) && Satisfied(s.needs.value, all, b)
  {
    var n: nat :| Passes(sources, all, start, n) == Success(b) && Settled(sources, all, b);
    assert SourceStep(s, all, b) == Success(Step(b, false));
    if s.conditions.Some? {
      BuildExactly(s.conditions.value, all);
      BuildMeaning(s.conditions.value, all, map[], b);
    }
    BuildExactly(s.needs.value, all);
    if TriggeredBy(s, all, b) {
      BuildMeaning(s.needs.value, all, map[], b);
    }
  }

  /** When an error is met: a rule that cannot be built, in the words of BuildExactly, or a choice. */
  lemma StepFails(s: Source, all: map<Var, seq<Val>>, a: Assignment)
    requires Parsed(s) && Known(all)
    ensures SourceStep(s, all, a).Failure? <==>
      s.needs.Some? && ((s.conditions.Some? && !CanBuild(s.conditions.value, all, {})) ||
                        (TriggeredBy(s, all, a) && (!CanBuild(s.needs.value, all, {}) || Choice(s.needs.value, all, a))))
  {
    if s.conditions.Some? {
      BuildExactly(s.conditions.value, all);
      if CanBuild(s.conditions.value, all, {}) {
        BuildMeaning(s.conditions.value, all, map[], a);
      }
    }
    if s.needs.Some? {
      BuildExactly(s.needs.value, all);
      if CanBuild(s.needs.value, all, {}) {
        BuildMeaning(s.needs.value, all, map[], a);
      }
    }
  }

  /** A requirement that does not hold leaves a choice between values. */
  predicate Choice(needs: seq<Condition>, all: map<Var, seq<Val>>, a: Assignment)
    requires Split(needs)
  {
    var rule := Build(needs, all, map[]);
    rule.Success? && !Satisfied(needs, all, a) && !Single(rule.value)
  }

  /** It is the least: every closed configuration that keeps or raises the start has all these values. */
  lemma EndIsLeast(sources: seq<Source>, all: map<Var, seq<Val>>, start: Assignment, b: Assignment, x: Assignment)
    requires AllParsed(sources) && Accepting(Reached(sources, all, start)) && EndsAt(sources, all, start, b)
    requires Closed(Clauses(sources, all), x) && Keeps(start, x, Reached(sources, all, start))
    ensures forall v :: v in b && !(v in start && b[v] == start[v]) ==> v in x && x[v] == b[v]
  {
    var some := Reached(sources, all, start);
    EndIsGoal(sources, all, start, b);
    ClosedTriggersAll(ClauseSet(sources, all), start, x);
    HoldTogether(some, x);
    forall v | v in b && !(v in start && b[v] == start[v]) ensures v in x && x[v] == b[v] {
      var c :| c in some && Sets(c, v);
      GoalIs(some, c, v);
    }
  }

  /** Two runs over the same sources in any order end, where they end, in the same configuration. */
  lemma OrderDoesNotMatter(sources: seq<Source>, others: seq<Source>, all: map<Var, seq<Val>>, start: Assignment,
                           b: Assignment, b': Assignment)
    requires AllParsed(sources) && AllParsed(others) && multiset(sources) == multiset(others)
    requires Accepting(Reached(sources, all, start))
    requires EndsAt(sources, all, start, b) && EndsAt(others, all, start, b')
    ensures b == b'
  {
    SameClauses(sources, others, all);
    EndIsGoal(sources, all, start, b);
    EndIsGoal(others, all, start, b');
  }

  lemma SameClauses(sources: seq<Source>, others: seq<Source>, all: map<Var, seq<Val>>)
    requires AllParsed(sources) && AllParsed(others) && multiset(sources) == multiset(others)
    ensures ClauseSet(sources, all) == ClauseSet(others, all)
  {
    forall c ensures c in ClauseSet(sources, all) <==> c in ClauseSet(others, all) {
      ClauseFrom(sources, all, c);
      ClauseFrom(others, all, c);
      forall s ensures s in sources <==> s in others {
        assert s in multiset(sources) <==> s in multiset(others);
      }
    }
  }

  /** A clause is among those of a table if and only if it is that of one of its sources. */
  lemma {:induction false} ClauseFrom(sources: seq<Source>, all: map<Var, seq<Val>>, c: Clause)
    requires AllParsed(sources)
    ensures c in Clauses(sources, all) <==> exists s :: s in sources && c in ClausesOf(s, all)
    decreases |sources|
  {
    if sources != [] {
      assert sources == [sources[0]] + sources[1..];
      ClauseFrom(sources[1..], all, c);
    }
  }

  /** All rules can be built and leave no choice. */
  predicate Definite(sources: seq<Source>, all: map<Var, seq<Val>>)
    requires AllParsed(sources)
  {
    forall s :: s in sources && s.needs.Some? ==> ClauseOf(s, all).Success? && Single(ClauseOf(s, all).value.need)
  }

  /** Then no pass fails. */
  lemma {:induction false} DefinitePasses(sources: seq<Source>, all: map<Var, seq<Val>>, a: Assignment)
    requires AllParsed(sources) && Definite(sources, all)
    ensures Pass(sources, all, a).Success?
    decreases |sources|
  {
    if sources != [] {
      DefiniteStep(sources[0], all, a);
      DefinitePasses(sources[1..], all, SourceStep(sources[0], all, a).value.scenarios);
    }
  }

  lemma DefiniteStep(s: Source, all: map<Var, seq<Val>>, a: Assignment)
    requires Parsed(s) && (s.needs.Some? ==> ClauseOf(s, all).Success? && Single(ClauseOf(s, all).value.need))
    ensures SourceStep(s, all, a).Success?
  {
  }

  lemma {:induction false} DefiniteNeverFails(sources: seq<Source>, all: map<Var, seq<Val>>, a: Assignment, n: nat)
    requires AllParsed(sources) && Definite(sources, all)
    ensures Passes(sources, all, a, n).Success?
  {
    if n > 0 {
      DefiniteNeverFails(sources, all, a, n - 1);
      DefinitePasses(sources, all, Passes(sources, all, a, n - 1).value);
    }
  }

  /**
   When check_deps ends, if reached triggers accept what reached requirements impose. It ends in a configuration only
   if what is reached is compatible, and then it always ends, in a configuration or with the error of a source.
   */
  lemma EndsOnlyIfCompatible(sources: seq<Source>, all: map<Var, seq<Val>>, start: Assignment)
    requires AllParsed(sources) && Accepting(Reached(sources, all, start))
    ensures (exists b :: EndsAt(sources, all, start, b)) ==> Compatible(Reached(sources, all, start))
    ensures Compatible(Reached(sources, all, start)) ==>
      (exists b :: EndsAt(sources, all, start, b)) || (exists e :: Fails(sources, all, start, e))
  {
    if b :| EndsAt(sources, all, start, b) {
      EndIsGoal(sources, all, start, b);
    }
    if Compatible(Reached(sources, all, start)) {
      CompatibleHalts(sources, all, start);
      HaltsInOneWay(sources, all, start);
    }
  }

  lemma HaltsInOneWay(sources: seq<Source>, all: map<Var, seq<Val>>, start: Assignment)
    requires AllParsed(sources) && Halts(sources, all, start)
    ensures (exists b :: EndsAt(sources, all, start, b)) || (exists e :: Fails(sources, all, start, e))
  {
    var n: nat :| HaltsBy(sources, all, start, n);
    var r := Passes(sources, all, start, n);
    if r.Failure? {
      assert Fails(sources, all, start, r.error);
    } else {
      assert EndsAt(sources, all, start, r.value);
    }
  }

  /**
   For tables whose rules can be built and leave no choice: check_deps ends if and only if no requirement that is
   reached from the start is unsatisfiable and any two of them give the same value to a common variable. It then ends
   in the start with these values, and otherwise it goes on for ever.
   */
  lemma EndsExactly(sources: seq<Source>, all: map<Var, seq<Val>>, start: Assignment)
    requires AllParsed(sources) && Definite(sources, all) && Accepting(Reached(sources, all, start))
    ensures Halts(sources, all, start) <==> Compatible(Reached(sources, all, start))
    ensures Compatible(Reached(sources, all, start)) ==>
      EndsAt(sources, all, start, start + Goal(Reached(sources, all, start)))
  {
    if Halts(sources, all, start) {
      var n: nat :| HaltsBy(sources, all, start, n);
      DefiniteNeverFails(sources, all, start, n);
      assert EndsAt(sources, all, start, Passes(sources, all, start, n).value);
      EndIsGoal(sources, all, start, Passes(sources, all, start, n).value);
    }
    if Compatible(Reached(sources, all, start)) {
      CompatibleHalts(sources, all, start);
    }
  }

  /** A source that asks for v to be x when P is set to yes. */
  function Asks(v: Var, x: Val): Source {
    Source(Some([Condition("P", ["yes"])]), Some([Condition(v, [x])]))
  }

  function AskedClause(v: Var, x: Val): Clause {
    Clause(Rule(map["P" := ["yes"]], false), Rule(map[v := [x]], false))
  }

  const SCENARIOS: map<Var, seq<Val>> := map["P" := ["yes"], "V" := ["no", "yes"]]

  lemma BuildOne(v: Var, x: Val, all: map<Var, seq<Val>>)
    requires v in all && x in all[v] && x != "" && x[0] != '!'
    ensures Build([Condition(v, [x])], all, map[]) == Success(Rule(map[v := [x]], false))
  {
    var c := Condition(v, [x]);
    assert [x][1..] == [] && KeepKnown([], all[v]) == [];
    assert [x] + [] == [x] && KeepKnown([x], all[v]) == [x];
    assert !Negated(x) && c.cases[0] == x;
    assert Accepted(c, all[v]) == Success([x]);
    assert [c][1..] == [] && map[][v := [x]] == map[v := [x]];
    assert Build([], all, map[v := [x]]) == Success(Rule(map[v := [x]], false));
  }

  lemma AskedIs(x: Val)
    requires x in {"no", "yes"}
    ensures Parsed(Asks("V", x)) && ClauseOf(Asks("V", x), SCENARIOS) == Success(AskedClause("V", x))
  {
    BuildOne("P", "yes", SCENARIOS);
    BuildOne("V", x, SCENARIOS);
  }

  /** Two sources that the start triggers and that ask for different values keep check_deps going for ever. */
  lemma ConflictNeverEnds()
    ensures var sources := [Asks("V", "no"), Asks("V", "yes")];
      AllParsed(sources) && Definite(sources, SCENARIOS) && !Halts(sources, SCENARIOS, map["P" := "yes"])
  {
    var sources, start := [Asks("V", "no"), Asks("V", "yes")], map["P" := "yes"];
    AskedIs("no");
    AskedIs("yes");
    var no, yes := AskedClause("V", "no"), AskedClause("V", "yes");
    ConflictClauses(sources, no, yes);
    ConflictReached(sources, start, no, yes);
    EndsExactly(sources, SCENARIOS, start);
  }

  lemma ConflictClauses(sources: seq<Source>, no: Clause, yes: Clause)
    requires AllParsed(sources) && sources == [Asks("V", "no"), Asks("V", "yes")]
    requires ClauseOf(sources[0], SCENARIOS) == Success(no) && ClauseOf(sources[1], SCENARIOS) == Success(yes)
    ensures Clauses(sources, SCENARIOS) == [no, yes]
  {
    var rest := sources[1..];
    assert rest == [sources[1]] && rest[1..] == [];
    assert Clauses(rest, SCENARIOS) == [yes] + Clauses([], SCENARIOS);
  }

  lemma ConflictReached(sources: seq<Source>, start: Assignment, no: Clause, yes: Clause)
    requires AllParsed(sources) && Clauses(sources, SCENARIOS) == [no, yes] && start == map["P" := "yes"]
    requires no == AskedClause("V", "no") && yes == AskedClause("V", "yes")
    ensures Accepting(Reached(sources, SCENARIOS, start)) && !Compatible(Reached(sources, SCENARIOS, start))
  {
    var some := Reached(sources, SCENARIOS, start);
    assert forall c :: c in ClauseSet(sources, SCENARIOS) <==> c == no || c == yes;
    forall c | c in {no, yes} ensures c in some {
      assert Enabled(c, start, {});
      EnabledMore(c, start, {}, some);
      ReachClosed(ClauseSet(sources, SCENARIOS), start, {}, c);
    }
    assert "P" != "V" && "no" != "yes";
    assert Sets(no, "V") && Sets(yes, "V") && ValueSet(no, "V") != ValueSet(yes, "V");
  }

  /** Wherever the loop ends, whatever the table: the requirements of the clauses that are triggered are compatible. */
  lemma TriggeredAgree(sources: seq<Source>, all: map<Var, seq<Val>>, a: Assignment)
    requires AllParsed(sources) && Pass(sources, all, a).Success? && !Pass(sources, all, a).value.modified
    ensures Compatible(Triggered(ClauseSet(sources, all), a))
  {
    PassUnmodified(sources, all, a);
    SettledIsClosed(sources, all, a);
    HoldTogether(Triggered(ClauseSet(sources, all), a), a);
  }

  class Configuration {
    var scenarios: Assignment

    constructor (scenarios: Assignment)
      ensures this.scenarios == scenarios
    {
      this.scenarios := scenarios;
    }

    /** One source of the inner loop. */
    method CheckSource(s: Source, all: map<Var, seq<Val>>) returns (modified: bool, err: Option<DepError>)
      requires Parsed(s)
      modifies this
      ensures match SourceStep(s, all, old(scenarios))
        case Success(step) => err == None && scenarios == step.scenarios && modified == step.modified
        case Failure(e) => err == Some(e)
    {
      modified, err := false, None;
      if s.needs == None {
        return;
      }
      var matches := true;
      if s.conditions.Some? {
        var rule := MakeRule(s.conditions.value, all);
        if rule.Failure? {
          return false, Some(BadRule(rule.error));
        }
        matches := rule.value.Matches(scenarios, false);
      }
      if matches {
        var dep := MakeRule(s.needs.value, all);
        if dep.Failure? {
          return false, Some(BadRule(dep.error));
        }
        if !dep.value.Matches(scenarios, false) {
          modified := true;
          if exists v :: v in dep.value.values && |dep.value.values[v]| != 1 {
            err := Some(SeveralChoices);
            return;
          }
          scenarios := scenarios + Imposed(dep.value);
        }
      }
    }

    /** One pass over the sources. */
    method Round(sources: seq<Source>, all: map<Var, seq<Val>>) returns (modified: bool, err: Option<DepError>)
      requires AllParsed(sources)
      modifies this
      ensures match Pass(sources, all, old(scenarios))
        case Success(step) => err == None && scenarios == step.scenarios && modified == step.modified
        case Failure(e) => err == Some(e)
    {
      modified, err := false, None;
      ghost var goal := Pass(sources, all, scenarios);
      assert sources[0..] == sources;
      for i := 0 to |sources|
        invariant err == None && AllParsed(sources[i..])
        invariant goal == Merged(modified, Pass(sources[i..], all, scenarios))
      {
        assert sources[i..][0] == sources[i] && sources[i..][1..] == sources[i + 1..];
        var changed;
        changed, err := CheckSource(sources[i], all);
        if err.Some? {
          return;
        }
        modified := modified || changed;
      }
      assert sources[|sources|..] == [];
    }

    /** check_deps, wherever the loop ends: in a configuration where no source has anything to impose, or with an error. */
    method CheckDeps(sources: seq<Source>, all: map<Var, seq<Val>>) returns (err: Option<DepError>)
      requires AllParsed(sources) && Halts(sources, all, scenarios)
      modifies this
      ensures match err
        case None => EndsAt(sources, all, old(scenarios), scenarios)
        case Some(e) => Fails(sources, all, old(scenarios), e)
    {
      ghost var start, n := scenarios, 0;
      ghost var last: nat :| HaltsBy(sources, all, start, last);
      var modified := true;
      err := None;
      while modified
        invariant err == None && Passes(sources, all, start, n) == Success(scenarios)
        invariant !modified ==> Settled(sources, all, scenarios)
        invariant modified ==> n <= last
        decreases last - n, modified
      {
        ghost var before := scenarios;
        modified, err := Round(sources, all);
        PassUnmodified(sources, all, before);
        if err.Some? {
          assert Passes(sources, all, start, n + 1) == Failure(err.value);
          return;
        }
        NoPassesAfter(sources, all, start, n, last);
        n := n + 1;
      }
    }
  }

  /** The last pass that matters is the first that modifies nothing or fails. */
  lemma {:induction false} NoPassesAfter(sources: seq<Source>, all: map<Var, seq<Val>>, start: Assignment, n: nat, last: nat)
    requires AllParsed(sources) && n <= last && HaltsBy(sources, all, start, last)
    requires Passes(sources, all, start, n + 1).Success?
    ensures n == last ==> Settled(sources, all, Passes(sources, all, start, n).value)
  {
  }

  /** The result of the rest of a pass, with what has been modified already. */
  function Merged(modified: bool, rest: Result<Step, DepError>): Result<Step, DepError> {
    match rest
    case Success(step) => Success(Step(step.scenarios, modified || step.modified))
    case Failure(e) => Failure(e)
  }
}
