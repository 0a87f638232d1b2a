/** With which error the program ends, in terms of the regions. */
module Failures {
  import opened Bits
  import opened Wrappers
  import opened PageTree
  import opened Descriptors
  import opened Regions
  import opened RegionMap
  import opened Build
  import opened Start
  import opened Tcr
  import opened Generate
  import opened Memmap
  import opened PhysicalSize
  import opened Permissions
  import opened Acceptance

  /** The regions before i are inserted, and i is not. */
  lemma {:induction false} StopsAt(t: Tree, js: seq<Job>) returns (i: nat)
    requires Shaped(t, 9) && InsertRegions(t, js, 12).Failure?
    ensures i < |js| && InsertRegions(t, js[..i], 12).Success?
    ensures InsertRegion(InsertRegions(t, js[..i], 12).value, js[i], 12) == Failure(InsertRegions(t, js, 12).error)
    decreases |js|
  {
    i := 0;
    if InsertRegion(t, js[0], 12).Success? {
      i := StopsAt(InsertRegion(t, js[0], 12).value, js[1..]);
      assert js[..i + 1][1..] == js[1..][..i] && js[..i + 1][0] == js[0];
      i := i + 1;
    }
  }

  lemma {:induction false} StopsThere(t: Tree, js: seq<Job>, i: nat)
    requires Shaped(t, 9) && i < |js| && InsertRegions(t, js[..i], 12).Success?
    ensures var res := InsertRegion(InsertRegions(t, js[..i], 12).value, js[i], 12);
      res.Failure? ==> InsertRegions(t, js, 12) == Failure(res.error)
    decreases |js|
  {
    if i > 0 {
      assert js[..i][1..] == js[1..][..i - 1] && js[..i][0] == js[0];
      StopsThere(InsertRegion(t, js[0], 12).value, js[1..], i - 1);
    }
  }

  /** One more region keeps a list disjoint if and only if it is apart from all of them. */
  lemma {:induction false} OneMoreApart(js: seq<Job>, j: Job)
    ensures Disjoint(js + [j]) <==> Disjoint(js) && forall k :: k in js ==> Apart(k, j)
    decreases |js|
  {
    if js != [] {
      assert (js + [j])[1..] == js[1..] + [j] && (js + [j])[0] == js[0] && js == [js[0]] + js[1..];
      assert forall k :: k in js[1..] + [j] <==> k in js[1..] || k == j;
      OneMoreApart(js[1..], j);
    } else {
      assert (js + [j])[1..] == [];
    }
  }

  /** Region i is the first that cannot be inserted: its strings are refused, or it shares an address with an earlier one. */
  predicate Blamed(rs: seq<Region>, mode: Option<string>, i: nat, error: MmuError) {
    && i < |rs| && (forall r :: r in rs[..i] ==> Accepted(r, mode)) && Disjoint(Jobs(rs[..i], mode))
    && (if Accepted(rs[i], mode) then
          error == Overlapping && exists r :: r in rs[..i] && !Apart(JobOf(r, mode), JobOf(rs[i], mode))
        else error == Refusal(rs[i], mode))
  }

  lemma {:induction false} JobsAt(rs: seq<Region>, mode: Option<string>, i: nat)
    requires i < |rs|
    ensures |Jobs(rs, mode)| == |rs| && Jobs(rs, mode)[i] == JobOf(rs[i], mode)
    ensures Jobs(rs, mode)[..i] == Jobs(rs[..i], mode)
    decreases |rs|
  {
    assert Jobs(rs, mode) == [JobOf(rs[0], mode)] + Jobs(rs[1..], mode);
    if |rs| > 1 {
      JobsAt(rs[1..], mode, if i > 0 then i - 1 else 0);
    }
    if i > 0 {
      assert rs[..i][1..] == rs[1..][..i - 1] && rs[..i][0] == rs[0];
    }
  }

  /** What happens at region i once the regions before it are in the tables. */
  lemma AtRegion(rs: seq<Region>, mode: Option<string>, i: nat)
    requires InAddressSpace(rs) && i < |rs| && InsertRegions(Root(), Jobs(rs[..i], mode), 12).Success?
    ensures var res := InsertRegion(InsertRegions(Root(), Jobs(rs[..i], mode), 12).value, JobOf(rs[i], mode), 12);
      forall e :: res == Failure(e) <==> Blamed(rs, mode, i, e)
  {
    var js, j := Jobs(rs[..i], mode), JobOf(rs[i], mode);
    var t := InsertRegions(Root(), js, 12).value;
    JobsOf(rs[..i], mode);
    UnderstoodExactly(rs[..i], mode);
    BuildRefinesRegionMap(js);
    AcceptedExactly(rs[i], mode);
    if Accepted(rs[i], mode) {
      InsertRegionExactly(t, j);
      OneMoreApart(js, j);
      OneMore(js, j, t);
    } else {
      RefusedExactly(rs[i], mode);
    }
  }

  lemma OneMore(js: seq<Job>, j: Job, t: Tree)
    requires j.attributes.Success? && Placeable(j) && InsertRegions(Root(), js, 12) == Success(t)
    requires forall k :: k in js ==> Placeable(k)
    ensures InsertRegion(t, j, 12).Success? <==> Disjoint(js + [j])
  {
    BuildRefinesRegionMap(js + [j]);
    BuildRefinesRegionMap(js);
    assert (js + [j])[..|js|] == js;
    if InsertRegion(t, j, 12).Failure? {
      StopsThere(Root(), js + [j], |js|);
    } else if InsertRegions(Root(), js + [j], 12).Failure? {
      var i := StopsAt(Root(), js + [j]);
      if i < |js| {
        assert (js + [j])[..i] == js[..i];
        StopsThere(Root(), js, i);
      }
    }
  }

  /** Insertion ends with an error if and only if some region is blamed for it. */
  lemma InsertionFailsExactly(rs: seq<Region>, mode: Option<string>, error: MmuError)
    requires InAddressSpace(rs)
    ensures InsertRegions(Root(), Jobs(rs, mode), 12) == Failure(error) <==> exists i: nat :: Blamed(rs, mode, i, error)
  {
    if InsertRegions(Root(), Jobs(rs, mode), 12) == Failure(error) {
      var i := FindBlamed(rs, mode, error);
    }
    if i: nat :| Blamed(rs, mode, i, error) {
      BlamedStops(rs, mode, i, error);
    }
  }

  lemma FindBlamed(rs: seq<Region>, mode: Option<string>, error: MmuError) returns (i: nat)
    requires InAddressSpace(rs) && InsertRegions(Root(), Jobs(rs, mode), 12) == Failure(error)
    ensures Blamed(rs, mode, i, error)
  {
    i := StopsAt(Root(), Jobs(rs, mode));
    JobsAt(rs, mode, 0);
    JobsAt(rs, mode, i);
    AtRegion(rs, mode, i);
  }

  lemma BlamedStops(rs: seq<Region>, mode: Option<string>, i: nat, error: MmuError)
    requires InAddressSpace(rs) && Blamed(rs, mode, i, error)
    ensures InsertRegions(Root(), Jobs(rs, mode), 12) == Failure(error)
  {
    JobsAt(rs, mode, i);
    JobsOf(rs[..i], mode);
    UnderstoodExactly(rs[..i], mode);
    BuildRefinesRegionMap(Jobs(rs[..i], mode));
    AtRegion(rs, mode, i);
    StopsThere(Root(), Jobs(rs, mode), i);
  }

  lemma {:induction false} ShrinkError(t: Tree, level: nat, k: nat, n: nat, mode: Option<string>)
    requires 1 <= k <= n && Shaped(t, n) && Shrink(t, level, k, n, mode).Failure?
    ensures Shrink(t, level, k, n, mode).error ==
      if mode in {Some("el1"), Some("el2"), Some("stage2")} then NotATable else KeyError
    decreases t.shift, k
  {
    Pow2Monotone(k, n);
    if UpperHalfUsed(t.slots, k) {
    } else if k > 1 {
      ShrinkError(t, level, k - 1, n, mode);
    } else if DeepestLevel(mode).Some? && DeepestLevel(mode).value != level && t.slots[0].Table? {
      ShrinkError(t.slots[0].table, level + 1, n, n, mode);
    }
  }

  lemma GenerateError(t: Tree, maxPa: nat, mode: Option<string>)
    requires IsRoot(t) && GenerateOutput(t, maxPa, 12, mode).Failure?
    ensures GenerateOutput(t, maxPa, 12, mode).error ==
      if Inhabited(t) && CanStart(t, mode) then NoPhysicalSize
      else if mode in {Some("el1"), Some("el2"), Some("stage2")} then NotATable else KeyError
  {
    if DeepestLevel(mode).Some? {
      TableWithMode(t, mode);
    } else {
      TableWithoutMode(t, mode);
    }
    if Shrink(t, 0, 9, 9, mode).Failure? {
      ShrinkError(t, 0, 9, 9, mode);
    }
  }

  lemma GenerateFailsExactly(t: Tree, mode: Option<string>, maxPa: nat, k: nat, pas: set<nat>, error: MmuError)
    requires IsRoot(t) && Tight(maxPa, k, 32, pas)
    ensures GenerateOutput(t, maxPa, 12, mode) == Failure(error) <==>
      if Inhabited(t) && CanStart(t, mode) then SomeBeyond(pas, 52) && error == NoPhysicalSize
      else error == if mode in {Some("el1"), Some("el2"), Some("stage2")} then NotATable else KeyError
  {
    AfterInsertion(t, mode, maxPa, k, pas);
    if GenerateOutput(t, maxPa, 12, mode).Failure? {
      GenerateError(t, maxPa, mode);
    }
  }

  /** All regions are inserted, but there is no first table, or an address needs more than 52 bits. */
  ghost predicate NoTables(rs: seq<Region>, mode: Option<string>, leaves: set<Entry>, error: MmuError) {
    if (exists r :: r in rs && r.size > 0) && Startable(rs, mode, leaves) then
      SomeBeyond(PhysicalOf(leaves), 52) && error == NoPhysicalSize
    else error == if mode in {Some("el1"), Some("el2"), Some("stage2")} then NotATable else KeyError
  }

  /** What ends the program: a region that is refused or shares an address with an earlier one, or no tables for them all. */
  ghost predicate StopsWith(rs: seq<Region>, mode: Option<string>, error: MmuError) {
    var js := Jobs(rs, mode);
    || (exists i: nat :: Blamed(rs, mode, i, error))
    || ((forall r :: r in rs ==> Accepted(r, mode)) && Disjoint(js)
        && AllUnderstood(js) && NoTables(rs, mode, AllLeaves(js), error))
  }

  /** For all regions and modes: the program ends with an error if and only if the regions are at fault in that way. */
  lemma ProgramFailsExactly(rs: seq<Region>, mode: Option<string>, error: MmuError)
    requires InAddressSpace(rs)
    ensures Program(Jobs(rs, mode), mode, 12) == Failure(error) <==> StopsWith(rs, mode, error)
  {
    var js := Jobs(rs, mode);
    JobsOf(rs, mode);
    UnderstoodExactly(rs, mode);
    InsertionFailsExactly(rs, mode, error);
    BuildRefinesRegionMap(js);
    if AllUnderstood(js) && Disjoint(js) {
      AfterAll(rs, mode, InsertRegions(Root(), js, 12).value, GrowJobs(0xFFFF_FFFF, js, 12), error);
    }
  }

  lemma AfterAll(rs: seq<Region>, mode: Option<string>, t: Tree, maxPa: nat, error: MmuError)
    requires InAddressSpace(rs) && AllUnderstood(Jobs(rs, mode)) && maxPa == GrowJobs(0xFFFF_FFFF, Jobs(rs, mode), 12)
    requires InsertRegions(Root(), Jobs(rs, mode), 12) == Success(t)
    ensures GenerateOutput(t, maxPa, 12, mode) == Failure(error) <==> NoTables(rs, mode, AllLeaves(Jobs(rs, mode)), error)
  {
    TablesOf(rs, mode, t);
    var k := ProgramTight(Jobs(rs, mode));
    Generating(rs, mode, t, maxPa, k, AllLeaves(Jobs(rs, mode)), error);
  }

  lemma Generating(rs: seq<Region>, mode: Option<string>, t: Tree, maxPa: nat, k: nat, leaves: set<Entry>, error: MmuError)
    requires IsRoot(t) && (Inhabited(t) <==> exists r :: r in rs && r.size > 0)
    requires (CanStart(t, mode) <==> Startable(rs, mode, leaves)) && Tight(maxPa, k, 32, PhysicalOf(leaves))
    ensures GenerateOutput(t, maxPa, 12, mode) == Failure(error) <==> NoTables(rs, mode, leaves, error)
  {
    GenerateFailsExactly(t, mode, maxPa, k, PhysicalOf(leaves), error);
  }

  lemma TablesOf(rs: seq<Region>, mode: Option<string>, t: Tree)
    requires InAddressSpace(rs) && AllUnderstood(Jobs(rs, mode)) && InsertRegions(Root(), Jobs(rs, mode), 12) == Success(t)
    ensures IsRoot(t) && (Inhabited(t) <==> exists r :: r in rs && r.size > 0)
    ensures CanStart(t, mode) <==> Startable(rs, mode, AllLeaves(Jobs(rs, mode)))
  {
    JobsOf(rs, mode);
    InsertedHold(Jobs(rs, mode), t);
    InhabitedExactly(t, rs, mode);
    StartableExactly(t, rs, mode);
  }
}
