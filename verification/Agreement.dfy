/** The whole of memmap.py against the page walk of hardware. */
module Agreement {
  import opened Bits
  import opened Wrappers
  import opened PageTree
  import opened Descriptors
  import opened Regions
  import opened RegionMap
  import opened Build
  import opened Hardware
  import opened Tcr
  import opened Generate
  import opened Exact
  import opened Memmap
  import opened PhysicalSize

  /** What the plain region map says, in hardware's terms. */
  function MapOutcome(m: Option<Mapping>): Outcome
    requires m.Some? ==> m.value.pa >= 0
  {
    match m
    case None => Fault
    case Some(m) => Mapped(m.pa, m.upper, m.lower)
  }

  /** The emitted words lie on pages of physical memory that hardware can address under the emitted register. */
  predicate FitsAt(o: Output, mode: Option<string>, base: nat)
    requires o.tcr >= 0
  {
    && base % PAGE == 0 && base + PAGE * |o.image| <= ADDRESSES
    && base + PAGE * |o.image| <= PhysicalLimit(o.tcr, RegisterOf(mode))
  }

  /** The emitted tables as hardware sees them: a page walk from the register value that was emitted with them. */
  function Seen(o: Output, mode: Option<string>, base: nat, x: nat): Outcome {
    HwTranslate(o.image, base, AddressOf(o.image, base, o.first), o.tcr, RegisterOf(mode), x)
  }

  /** With a usable register, the walk over the emitted words finds what the walk over the tables finds. */
  lemma SeenIsWalk(t: Tree, js: seq<Job>, maxPa: nat, mode: Option<string>, o: Output, base: nat, x: nat)
    requires Holds(t, js) && GoodJobs(js) && x < ADDRESSES
    requires GenerateOutput(t, maxPa, 12, mode) == Success(o) && o.tcr >= 0 && FitsAt(o, mode, base)
    ensures Seen(o, mode, base, x) == Limited(Walk(t, x, 9), PhysicalLimit(o.tcr, RegisterOf(mode)), x)
  {
    GoodLeaves(t, js);
    SuccessIsInhabited(t, maxPa, mode);
    UniqueInOutput(t, maxPa, mode, o);
    GenerateRefinesTree(t, maxPa, mode, base, o, x);
  }

  /** Hardware does with address x what the plain region map of the jobs says. */
  predicate Agrees(js: seq<Job>, mode: Option<string>, o: Output, base: nat, x: nat)
    requires AllUnderstood(js)
  {
    var m := Lookup(js, x);
    (m.Some? ==> m.value.pa >= 0) && Seen(o, mode, base, x) == MapOutcome(m)
  }

  /** The physical addresses of a region, with the overrun of its last block, end at or below a limit. */
  predicate EndsBelow(j: Job, limit: nat) {
    j.region.phys + (j.End() - j.region.virt) <= limit
  }

  predicate AllBelow(js: seq<Job>, limit: nat) {
    forall j :: j in js && j.region.size > 0 ==> EndsBelow(j, limit)
  }

  /** The limit of every register value that the program emits is a power of two from 2^32 on. */
  lemma LimitOfOutput(t: Tree, maxPa: nat, mode: Option<string>, o: Output) returns (bits: nat)
    requires IsRoot(t) && GenerateOutput(t, maxPa, 12, mode) == Success(o) && o.tcr >= 0
    ensures bits >= 32 && PhysicalLimit(o.tcr, RegisterOf(mode)) == Pow2(bits)
    ensures RegisterOf(mode).TcrEl1? ==> bits == 32
    ensures !RegisterOf(mode).TcrEl1? ==> Field(o.tcr, 16, 3) <= 6 && bits == PhysicalBits(Field(o.tcr, 16, 3))
  {
    SizeOfOutput(t, maxPa, mode, o);
    bits := PhysicalBits(SizeField(o.tcr, RegisterOf(mode)));
  }

  /** The last leaf of a region ends with it, and where it lies decides whether the region ends below the limit. */
  lemma LastLeaf(t: Tree, js: seq<Job>, j: Job) returns (e: Entry, x: nat)
    requires Holds(t, js) && j in js && j.region.size > 0
    ensures Contains(j, x) && x < ADDRESSES && Walk(t, x, 9) == Some(e) && IsPiece(e, j.region, j.attributes.value, 12)
    ensures e.va <= x < e.va + Pow2(e.log2Size) && e.pa + Pow2(e.log2Size) == j.region.phys + (j.End() - j.region.virt)
  {
    InsideRegion(j);
    x := j.End() - 1;
    e := PieceAt(t, js, j, x);
  }

  /** A leaf that is aligned lies below a power of two if and only if it ends at or below it. */
  lemma BelowLimit(e: Entry, bits: nat)
    requires 12 <= e.log2Size <= 30 && bits >= 32 && GoodAttributes(e.upper, e.lower)
    requires Low(e.pa, e.log2Size) == 0 && e.pa < ADDRESSES
    ensures OutputAddress(Descriptor(e, 12), e.log2Size) < Pow2(bits) <==> e.pa + Pow2(e.log2Size) <= Pow2(bits)
    ensures OutputAddress(Descriptor(e, 12), e.log2Size) == e.pa
  {
    OutputExact(e, 12);
    LowOfPow2(bits);
    MultipleDown(Pow2(bits), e.log2Size, bits);
    if e.pa < Pow2(bits) {
      NextMultiple(e.pa, Pow2(bits), e.log2Size);
    }
  }

  /** A leaf of a physically aligned region. */
  lemma AlignedPiece(e: Entry, j: Job, bits: nat)
    requires j.attributes.Success? && GoodAttributes(j.attributes.value.upper, j.attributes.value.lower) && bits >= 32
    requires PageAligned(j.region, 12) && IsPiece(e, j.region, j.attributes.value, 12) && PhysicallyAligned(j)
    ensures OutputAddress(Descriptor(e, 12), e.log2Size) < Pow2(bits) <==> e.pa + Pow2(e.log2Size) <= Pow2(bits)
    ensures OutputAddress(Descriptor(e, 12), e.log2Size) == e.pa
    ensures e.pa + Pow2(e.log2Size) <= j.region.phys + (j.End() - j.region.virt)
  {
    PieceSizes(e, j.region, j.attributes.value);
    PieceAligned(e, j);
    BelowLimit(e, bits);
  }

  /** Hardware does not do with address x what the region map says. */
  predicate Wrong(t: Tree, js: seq<Job>, limit: nat, x: nat)
    requires Shaped(t, 9) && AllUnderstood(js)
  {
    var m := Lookup(js, x);
    m.Some? && m.value.pa >= 0 && Limited(Walk(t, x, 9), limit, x) != MapOutcome(m)
  }

  lemma MisalignedWrong(t: Tree, js: seq<Job>, j: Job, limit: nat) returns (x: nat)
    requires Holds(t, js) && GoodJobs(js) && j in js && j.region.size > 0 && !PhysicallyAligned(j)
    ensures x < ADDRESSES && Wrong(t, js, limit, x)
  {
    RegionExactly(t, js, j);
    x :| Contains(j, x) && LeafOutcome(Walk(t, x, 9), x) !=
      Mapped(j.region.phys + (x - j.region.virt), j.attributes.value.upper, j.attributes.value.lower);
    LookupFinds(js, j, x);
  }

  lemma BeyondWrong(t: Tree, js: seq<Job>, j: Job, bits: nat) returns (x: nat)
    requires Holds(t, js) && GoodJobs(js) && j in js && j.region.size > 0 && bits >= 32
    requires PhysicallyAligned(j) && !EndsBelow(j, Pow2(bits))
    ensures x < ADDRESSES && Wrong(t, js, Pow2(bits), x)
  {
    var e;
    e, x := LastLeaf(t, js, j);
    AlignedPiece(e, j, bits);
    LookupFinds(js, j, x);
  }

  /** What hardware makes of the leaf that a walk finds is what the region map says. */
  lemma OutcomeIsMap(t: Tree, js: seq<Job>, bits: nat, x: nat)
    requires Holds(t, js) && GoodJobs(js) && x < ADDRESSES && bits >= 32
    requires AllAligned(js) && AllBelow(js, Pow2(bits))
    ensures Lookup(js, x).Some? ==> Lookup(js, x).value.pa >= 0
    ensures Limited(Walk(t, x, 9), Pow2(bits), x) == MapOutcome(Lookup(js, x))
  {
    LookupPhysical(js, x);
    assert Translate(t, x) == Lookup(js, x);
    if Lookup(js, x).Some? {
      var j :| j in js && Contains(j, x) && Lookup(js, x).value == RegionMapping(j.region, j.attributes.value, x);
      NotEmpty(j, x);
      OutcomeAt(t, js, j, bits, x);
    }
  }

  lemma OutcomeAt(t: Tree, js: seq<Job>, j: Job, bits: nat, x: nat)
    requires Holds(t, js) && GoodJobs(js) && j in js && Contains(j, x) && bits >= 32
    requires PhysicallyAligned(j) && EndsBelow(j, Pow2(bits))
    ensures Limited(Walk(t, x, 9), Pow2(bits), x) ==
      Mapped(j.region.phys + (x - j.region.virt), j.attributes.value.upper, j.attributes.value.lower)
  {
    AlignedOutcome(t, js, j, x);
    var e := PieceAt(t, js, j, x);
    AlignedPiece(e, j, bits);
  }

  /** For what generate makes of tables that hold the regions. */
  lemma AgreesExactly(t: Tree, js: seq<Job>, maxPa: nat, mode: Option<string>, o: Output, base: nat, bits: nat)
    requires Holds(t, js) && GoodJobs(js) && GenerateOutput(t, maxPa, 12, mode) == Success(o)
    requires o.tcr >= 0 && FitsAt(o, mode, base) && bits >= 32 && PhysicalLimit(o.tcr, RegisterOf(mode)) == Pow2(bits)
    ensures (forall x: nat :: x < ADDRESSES ==> Agrees(js, mode, o, base, x))
        <==> AllAligned(js) && AllBelow(js, Pow2(bits))
  {
    if AllAligned(js) && AllBelow(js, Pow2(bits)) {
      forall x: nat | x < ADDRESSES ensures Agrees(js, mode, o, base, x) {
        SeenIsWalk(t, js, maxPa, mode, o, base, x);
        OutcomeIsMap(t, js, bits, x);
      }
    } else {
      var x := SomeWrong(t, js, bits);
      SeenIsWalk(t, js, maxPa, mode, o, base, x);
      assert !Agrees(js, mode, o, base, x);
    }
  }

  lemma SomeWrong(t: Tree, js: seq<Job>, bits: nat) returns (x: nat)
    requires Holds(t, js) && GoodJobs(js) && bits >= 32 && !(AllAligned(js) && AllBelow(js, Pow2(bits)))
    ensures x < ADDRESSES && Wrong(t, js, Pow2(bits), x)
  {
    if !AllAligned(js) {
      var j :| j in js && j.region.size > 0 && !PhysicallyAligned(j);
      x := MisalignedWrong(t, js, j, Pow2(bits));
    } else {
      var j :| j in js && j.region.size > 0 && !EndsBelow(j, Pow2(bits));
      x := BeyondWrong(t, js, j, bits);
    }
  }

  /** The size that set_tcr chooses is enough for all regions, if they are physically aligned. */
  lemma ChosenIsEnough(t: Tree, js: seq<Job>, ps: nat)
    requires Holds(t, js) && GoodJobs(js) && AllAligned(js) && LeastFor(ps, AllLeaves(js))
    ensures AllBelow(js, Pow2(PhysicalBits(ps)))
  {
    forall j | j in js && j.region.size > 0 ensures EndsBelow(j, Pow2(PhysicalBits(ps))) {
      var e, x := LastLeaf(t, js, j);
      WalkInLeaves(t, x, 9);
      AlignedPiece(e, j, PhysicalBits(ps));
    }
  }

  lemma {:induction false} GoodRegions(rs: seq<Region>, mode: Option<string>, limit: nat)
    ensures AllAligned(Jobs(rs, mode)) <==> forall r :: r in rs && r.size > 0 ==> PhysicallyAligned(JobOf(r, mode))
    ensures AllBelow(Jobs(rs, mode), limit) <==> forall r :: r in rs && r.size > 0 ==> EndsBelow(JobOf(r, mode), limit)
    decreases |rs|
  {
    if rs != [] {
      var rest := rs[1..];
      GoodRegions(rest, mode, limit);
      assert rs == [rs[0]] + rest;
      assert Jobs(rs, mode) == [JobOf(rs[0], mode)] + Jobs(rest, mode);
    }
  }

  /**
   The whole program against the hardware, for every list of regions that it accepts: a page walk over the emitted
   words, started as the emitted register value says, translates every address below 2^48 as the plain region map
   does, with the attributes of the region, and faults where no region is, if and only if every region that is not
   empty has a physical address congruent to its virtual one modulo its largest leaf, and lies below 2^48; or, in
   TCR_EL1, below 2^32, since the program leaves the physical size of that register at 0.
   */
  lemma HardwareSeesRegions(rs: seq<Region>, mode: Option<string>, o: Output, base: nat)
    requires InAddressSpace(rs) && Program(Jobs(rs, mode), mode, 12) == Success(o)
    requires o.tcr >= 0 && FitsAt(o, mode, base)
    ensures AllUnderstood(Jobs(rs, mode)) && Disjoint(Jobs(rs, mode))
    ensures (forall x: nat :: x < ADDRESSES ==> Agrees(Jobs(rs, mode), mode, o, base, x))
        <==> forall r :: r in rs && r.size > 0 ==>
               PhysicallyAligned(JobOf(r, mode)) && (RegisterOf(mode).TcrEl1? ==> EndsBelow(JobOf(r, mode), 0x1_0000_0000))
  {
    var js := Jobs(rs, mode);
    var t := RunHolds(rs, mode, o);
    var bits := LimitOfOutput(t, GrowJobs(0xFFFF_FFFF, js, 12), mode, o);
    AgreesExactly(t, js, GrowJobs(0xFFFF_FFFF, js, 12), mode, o, base, bits);
    GoodRegions(rs, mode, Pow2(bits));
    if RegisterOf(mode).TcrEl1? {
      assert Pow2(32) == 0x1_0000_0000 by { Powers(); }
    } else if AllAligned(js) {
      var t' := ProgramPs(rs, mode, o);
      ChosenIsEnough(t', js, Field(o.tcr, 16, 3));
    }
  }
}
