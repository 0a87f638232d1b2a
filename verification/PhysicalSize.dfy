/** max_pa over all regions, and the PS field. */
module PhysicalSize {
  import opened Bits
  import opened Wrappers
  import opened PageTree
  import opened Descriptors
  import opened Regions
  import opened RegionMap
  import opened Build
  import opened Tcr
  import opened Generate
  import opened Exact
  import opened Memmap

  /** The physical addresses of leaves, as the regions describe them. */
  function PhysicalOf(leaves: set<Entry>): set<nat> {
    set e | e in leaves :: e.pa
  }

  lemma InitialTight()
    ensures Tight(0xFFFF_FFFF, 32, 32, {})
  {
    Powers();
  }

  /** After the loop over the regions, max_pa is the tightest 2^k - 1 with k >= 32 above all physical addresses. */
  lemma {:induction false} GrowJobsTight(maxPa: nat, js: seq<Job>, k: nat, pas: set<nat>) returns (k': nat)
    requires Tight(maxPa, k, 32, pas) && AllUnderstood(js)
    ensures Tight(GrowJobs(maxPa, js, 12), k', 32, pas + PhysicalOf(AllLeaves(js)))
    decreases |js|
  {
    if js == [] {
      k' := k;
      assert pas + PhysicalOf(AllLeaves(js)) == pas;
    } else {
      var es := js[0].Entries();
      var k1 := GrowAllTight(maxPa, es, k, 32, pas);
      k' := GrowJobsTight(GrowJob(maxPa, js[0], 12), js[1..], k1, pas + Addresses(es));
      PhysicalOfMore(js, es, AllLeaves(js[1..]), pas);
    }
  }

  lemma PhysicalOfMore(js: seq<Job>, es: seq<Entry>, rest: set<Entry>, pas: set<nat>)
    requires AllUnderstood(js) && AllLeaves(js) == EntrySet(es) + rest
    ensures pas + PhysicalOf(AllLeaves(js)) == pas + Addresses(es) + PhysicalOf(rest)
  {
    assert PhysicalOf(AllLeaves(js)) == Addresses(es) + PhysicalOf(rest);
  }

  lemma ProgramTight(js: seq<Job>) returns (k: nat)
    requires AllUnderstood(js)
    ensures Tight(GrowJobs(0xFFFF_FFFF, js, 12), k, 32, PhysicalOf(AllLeaves(js)))
  {
    InitialTight();
    k := GrowJobsTight(0xFFFF_FFFF, js, 32, {});
    assert {} + PhysicalOf(AllLeaves(js)) == PhysicalOf(AllLeaves(js));
  }

  /** Some leaf has a physical address that the size q does not reach. */
  predicate Beyond(leaves: set<Entry>, q: nat)
    requires q <= 6
  {
    exists e :: e in leaves && e.pa >= Pow2(PhysicalBits(q))
  }

  /** PS covers every physical address of the leaves, and no smaller one does. */
  ghost predicate LeastFor(ps: nat, leaves: set<Entry>) {
    && ps <= 6
    && (forall e :: e in leaves ==> e.pa < Pow2(PhysicalBits(ps)))
    && (forall q: nat :: q < ps ==> Beyond(leaves, q))
  }

  lemma ChosenIsLeast(maxPa: nat, k: nat, ps: nat, leaves: set<Entry>)
    requires Tight(maxPa, k, 32, PhysicalOf(leaves)) && PsOf(maxPa) == Some(ps)
    ensures LeastFor(ps, leaves)
  {
    PhysicalSizeExactly(maxPa, k, PhysicalOf(leaves));
    forall e | e in leaves ensures e.pa < Pow2(PhysicalBits(ps)) {
      assert e.pa in PhysicalOf(leaves);
    }
    forall q: nat | q < ps ensures Beyond(leaves, q) {
      LeafBeyond(leaves, q);
    }
  }

  lemma LeafBeyond(leaves: set<Entry>, q: nat)
    requires q <= 6 && SomeBeyond(PhysicalOf(leaves), PhysicalBits(q))
    ensures Beyond(leaves, q)
  {
    var pa :| pa in PhysicalOf(leaves) && pa >= Pow2(PhysicalBits(q));
    var e :| e in leaves && e.pa == pa;
  }

  /** Every byte that hardware maps a leaf to lies below 2^bits. */
  predicate Covered(e: Entry, bits: nat) {
    OutputAddress(Descriptor(e, 12), e.log2Size) + Pow2(e.log2Size) <= Pow2(bits)
  }

  /** The size that the program emits is the least for all leaves. */
  lemma ProgramPs(rs: seq<Region>, mode: Option<string>, o: Output) returns (t: Tree)
    requires InAddressSpace(rs) && Program(Jobs(rs, mode), mode, 12) == Success(o) && o.tcr >= 0
    ensures Holds(t, Jobs(rs, mode)) && GoodJobs(Jobs(rs, mode))
    ensures LeastFor(Field(o.tcr, 16, 3), AllLeaves(Jobs(rs, mode)))
  {
    var js := Jobs(rs, mode);
    t := RunHolds(rs, mode, o);
    SizeOfOutput(t, GrowJobs(0xFFFF_FFFF, js, 12), mode, o);
    var k := ProgramTight(js);
    ChosenIsLeast(GrowJobs(0xFFFF_FFFF, js, 12), k, Field(o.tcr, 16, 3), AllLeaves(js));
  }

  /**
   Every byte of every mapped page is below the size that bits 18 to 16 of the emitted value stand for, which is the
   physical size field of TCR_EL2 and VTCR_EL2. No smaller one would do: the physical address of some leaf lies at or
   above it.
   */
  lemma RegisterCoversExactly(rs: seq<Region>, mode: Option<string>, o: Output)
    requires InAddressSpace(rs) && Program(Jobs(rs, mode), mode, 12) == Success(o) && o.tcr >= 0
    ensures AllUnderstood(Jobs(rs, mode)) && LeastFor(Field(o.tcr, 16, 3), AllLeaves(Jobs(rs, mode)))
    ensures forall e :: e in AllLeaves(Jobs(rs, mode)) ==> Covered(e, PhysicalBits(Field(o.tcr, 16, 3)))
  {
    var t := ProgramPs(rs, mode, o);
    AllCovered(t, Jobs(rs, mode), Field(o.tcr, 16, 3));
  }

  lemma AllCovered(t: Tree, js: seq<Job>, ps: nat)
    requires Holds(t, js) && GoodJobs(js) && LeastFor(ps, AllLeaves(js))
    ensures forall e :: e in AllLeaves(js) ==> Covered(e, PhysicalBits(ps))
  {
    forall e | e in AllLeaves(js) ensures Covered(e, PhysicalBits(ps)) {
      LeafCovered(t, js, e, PhysicalBits(ps));
    }
  }

  lemma LeafCovered(t: Tree, js: seq<Job>, e: Entry, bits: nat)
    requires Holds(t, js) && GoodJobs(js) && e in AllLeaves(js) && e.pa < Pow2(bits) && bits >= 32
    ensures Covered(e, bits)
  {
    AllLeavesAnyOrder(js);
    var j :| j in js && e in j.Entries();
    StartOnTrack(j.region, 12);
    CutPieces(j.region, j.attributes.value, 12, j.region.virt, e);
    PieceSizes(e, j.region, j.attributes.value);
    OutputBelow(e, bits);
  }

  /** If the regions are physically aligned, some byte that is mapped lies at or above every smaller size. */
  lemma NoSmallerCovers(rs: seq<Region>, mode: Option<string>, o: Output, q: nat)
    requires InAddressSpace(rs) && AllAligned(Jobs(rs, mode))
    requires Program(Jobs(rs, mode), mode, 12) == Success(o) && o.tcr >= 0 && q < Field(o.tcr, 16, 3)
    ensures AllUnderstood(Jobs(rs, mode)) && q <= 6
    ensures exists e :: e in AllLeaves(Jobs(rs, mode)) && !Covered(e, PhysicalBits(q))
  {
    var t := ProgramPs(rs, mode, o);
    UncoveredLeaf(t, Jobs(rs, mode), Field(o.tcr, 16, 3), q);
  }

  lemma UncoveredLeaf(t: Tree, js: seq<Job>, ps: nat, q: nat)
    requires Holds(t, js) && GoodJobs(js) && AllAligned(js) && LeastFor(ps, AllLeaves(js)) && q < ps
    ensures exists e :: e in AllLeaves(js) && !Covered(e, PhysicalBits(q))
  {
    assert Beyond(AllLeaves(js), q);
    var e :| e in AllLeaves(js) && e.pa >= Pow2(PhysicalBits(q));
    AlignedLeaf(t, js, e);
  }

  lemma AlignedLeaf(t: Tree, js: seq<Job>, e: Entry)
    requires Holds(t, js) && GoodJobs(js) && e in AllLeaves(js) && AllAligned(js)
    ensures OutputAddress(Descriptor(e, 12), e.log2Size) == e.pa
  {
    AllLeavesAnyOrder(js);
    var j :| j in js && e in j.Entries();
    StartOnTrack(j.region, 12);
    CutPieces(j.region, j.attributes.value, 12, j.region.virt, e);
    PieceSizes(e, j.region, j.attributes.value);
    PieceAligned(e, j);
    OutputExact(e, 12);
  }
}
