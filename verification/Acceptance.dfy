/** Which memory maps the whole program accepts, in terms of the regions. */
module Acceptance {
  import opened Bits
  import opened Wrappers
  import opened PageTree
  import opened Regions
  import opened RegionMap
  import opened Build
  import opened Start
  import opened Tcr
  import opened Generate
  import opened Exact
  import opened Memmap
  import opened PhysicalSize
  import opened Permissions

  lemma {:induction false} LeafInSlot(slots: seq<Slot>, e: Entry) returns (i: nat)
    requires e in SlotsLeaves(slots)
    ensures i < |slots| && e in SlotLeaves(slots[i])
    decreases |slots|
  {
    if e in SlotLeaves(slots[0]) {
      i := 0;
    } else {
      i := LeafInSlot(slots[1..], e);
      i := i + 1;
    }
  }

  /** A leaf of the tables is what the walk finds on all its addresses. */
  lemma {:induction false} LeafWalked(t: Tree, e: Entry, x: nat, n: nat)
    requires n > 0 && WellFormed(t, n) && Shaped(t, n) && e in Leaves(t) && Hits(e, x)
    ensures Within(t, x, n) && Walk(t, x, n) == Some(e)
    decreases t
  {
    var i := LeafInSlot(t.slots, e);
    assert InPlace(t, t.slots[i], n, i);
    if t.slots[i].Table? {
      LeafWalked(t.slots[i].table, e, x, n);
    }
    SlotOf(t, x, n, i);
  }

  /** The leaves of the tables are exactly what walks find. */
  lemma LeavesAreWalked(t: Tree, e: Entry)
    requires IsRoot(t)
    ensures e in Leaves(t) <==> exists x: nat :: x < ADDRESSES && Walk(t, x, 9) == Some(e)
  {
    if e in Leaves(t) {
      LeafBelow(t, e, e.va);
    }
    if x: nat :| x < ADDRESSES && Walk(t, x, 9) == Some(e) {
      WalkInLeaves(t, x, 9);
    }
  }

  lemma LeafBelow(t: Tree, e: Entry, x: nat)
    requires IsRoot(t) && e in Leaves(t) && Hits(e, x)
    ensures x < ADDRESSES && Walk(t, x, 9) == Some(e)
  {
    LeafWalked(t, e, x, 9);
    RootWithin(t, x);
  }

  /** All that the regions come to is one leaf at address 0, of more than 2^bound bytes. */
  ghost predicate SingleLeaf(leaves: set<Entry>, bound: int) {
    exists e :: leaves == {e} && e.va == 0 && e.log2Size > bound
  }

  lemma LoneBlockIsSingle(t: Tree, bound: int)
    requires IsRoot(t)
    ensures LoneBlock(t, bound) <==> SingleLeaf(Leaves(t), bound)
  {
    if e: Entry :| OnlyEntry(t, e) && e.log2Size > bound {
      OnlyIsSingle(t, e);
    }
    if e :| Leaves(t) == {e} && e.va == 0 && e.log2Size > bound {
      SingleIsOnly(t, e);
    }
  }

  lemma OnlyIsSingle(t: Tree, e: Entry)
    requires IsRoot(t) && OnlyEntry(t, e)
    ensures Leaves(t) == {e} && e.va == 0
  {
    assert Pow2(48) == ADDRESSES by { Powers(); }
    assert Walk(t, 0, 9) == Some(e);
    WalkInLeaves(t, 0, 9);
    RootWithin(t, 0);
    WalkFindsHit(t, 0, 9);
    HitsRange(e, 0);
    forall other | other in Leaves(t) ensures other == e {
      LeafBelow(t, other, other.va);
    }
  }

  lemma SingleIsOnly(t: Tree, e: Entry)
    requires IsRoot(t) && Leaves(t) == {e} && e.va == 0
    ensures OnlyEntry(t, e)
  {
    assert Pow2(48) == ADDRESSES by { Powers(); }
    LeafBelow(t, e, 0);
    RootWithin(t, 0);
    WalkFindsHit(t, 0, 9);
    forall x: nat | x < Pow2(t.shift + 9) ensures Walk(t, x, 9) == if x < Pow2(e.log2Size) then Some(e) else None {
      HitsRange(e, x);
      if x < Pow2(e.log2Size) {
        LeafBelow(t, e, x);
      } else if Walk(t, x, 9).Some? {
        WalkInLeaves(t, x, 9);
        RootWithin(t, x);
        WalkFindsHit(t, x, 9);
        assert false;
      }
    }
  }

  /** Something lies in the tables if and only if some region is not empty. */
  lemma InhabitedExactly(t: Tree, rs: seq<Region>, mode: Option<string>)
    requires InAddressSpace(rs) && Holds(t, Jobs(rs, mode))
    ensures Inhabited(t) <==> exists r :: r in rs && r.size > 0
  {
    MappedAbove(t, rs, mode, 0);
    if Inhabited(t) {
      var x := InhabitedTranslates(t, 9);
      RootWithin(t, x);
      assert 0 <= x < ADDRESSES && Walk(t, x, 9).Some?;
    }
    if r :| r in rs && r.size > 0 {
      JobsOf(rs, mode);
      InsideRegion(JobOf(r, mode));
      assert CutEnd(r, 12, r.virt) > 0;
      var x: nat :| 0 <= x < ADDRESSES && Walk(t, x, 9).Some?;
      assert t.slots[Index(x, t.shift, 9)] != Empty;
    }
  }

  /** What generate can begin with, for regions that were inserted. */
  ghost predicate Startable(rs: seq<Region>, mode: Option<string>, leaves: set<Entry>) {
    if mode == Some("stage2") then !SingleLeaf(leaves, 12)
    else if mode in {Some("el1"), Some("el2")} then !SingleLeaf(leaves, 21)
    else exists r :: r in rs && r.size > 0 && CutEnd(r, 12, r.virt) > 0x80_0000_0000
  }

  lemma StartableExactly(t: Tree, rs: seq<Region>, mode: Option<string>)
    requires InAddressSpace(rs) && Holds(t, Jobs(rs, mode))
    ensures Startable(rs, mode, AllLeaves(Jobs(rs, mode))) <==> CanStart(t, mode)
  {
    assert Pow2(39) == 0x80_0000_0000 by { Powers(); }
    if DeepestLevel(mode).Some? {
      LoneBlockIsSingle(t, 39 - 9 * DeepestLevel(mode).value);
    } else {
      MappedAbove(t, rs, mode, Pow2(39));
    }
  }

  /**
   The program ends with tables if and only if
   - the strings of every region are accepted, and no two regions share an address;
   - some region is not empty, and no physical address needs more than 52 bits;
   - for el1, el2 and stage2: the regions are not a single block at address 0 that is larger than a slot of the
     deepest first level; for any other mode, and for none: some region ends above 2^39.
   */
  lemma ProgramSucceedsExactly(rs: seq<Region>, mode: Option<string>)
    requires InAddressSpace(rs)
    ensures var js := Jobs(rs, mode);
      Program(js, mode, 12).Success? <==>
        && (forall r :: r in rs ==> Accepted(r, mode)) && Disjoint(js) && (exists r :: r in rs && r.size > 0)
        && AllUnderstood(js) && !SomeBeyond(PhysicalOf(AllLeaves(js)), 52)
        && Startable(rs, mode, AllLeaves(js))
  {
    var js := Jobs(rs, mode);
    JobsOf(rs, mode);
    UnderstoodExactly(rs, mode);
    BuildRefinesRegionMap(js);
    if AllUnderstood(js) && Disjoint(js) {
      var t := InsertRegions(Root(), js, 12).value;
      InsertedHold(js, t);
      var k := ProgramTight(js);
      InhabitedExactly(t, rs, mode);
      StartableExactly(t, rs, mode);
      AfterInsertion(t, mode, GrowJobs(0xFFFF_FFFF, js, 12), k, PhysicalOf(AllLeaves(js)));
    }
  }

  lemma {:induction false} UnderstoodExactly(rs: seq<Region>, mode: Option<string>)
    ensures AllUnderstood(Jobs(rs, mode)) <==> forall r :: r in rs ==> Accepted(r, mode)
    decreases |rs|
  {
    if rs != [] {
      AcceptedExactly(rs[0], mode);
      UnderstoodExactly(rs[1..], mode);
      assert rs == [rs[0]] + rs[1..];
      assert Jobs(rs, mode) == [JobOf(rs[0], mode)] + Jobs(rs[1..], mode);
    }
  }

  lemma AfterInsertion(t: Tree, mode: Option<string>, maxPa: nat, k: nat, pas: set<nat>)
    requires IsRoot(t) && Tight(maxPa, k, 32, pas)
    ensures GenerateOutput(t, maxPa, 12, mode).Success? <==> Inhabited(t) && !SomeBeyond(pas, 52) && CanStart(t, mode)
  {
    GenerateSucceedsExactly(t, maxPa, mode);
    PhysicalSizeExactly(maxPa, k, pas);
  }
}
