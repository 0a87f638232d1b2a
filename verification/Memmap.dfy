/** memmap.py as a whole: regions, tables and the register. */
module Memmap {
  import opened Bits
  import opened Wrappers
  import opened PageTree
  import opened Descriptors
  import opened Regions
  import opened RegionMap
  import opened Build
  import opened Hardware
  import opened Tcr
  import opened Generate
  import opened Exact
  import opened Mmu

  /** max_pa after the insertion of all regions. */
  function GrowJobs(maxPa: nat, js: seq<Job>, g: nat): nat
    requires g >= 12
    decreases |js|
  {
    if js == [] then maxPa else GrowJobs(GrowJob(maxPa, js[0], g), js[1..], g)
  }

  function Jobs(rs: seq<Region>, mode: Option<string>): seq<Job> {
    if rs == [] then [] else [JobOf(rs[0], mode)] + Jobs(rs[1..], mode)
  }

  /** The program as a function of its input. */
  function Program(js: seq<Job>, mode: Option<string>, g: nat): Result<Output, MmuError>
    requires g in {12, 14, 16}
  {
    var t :- InsertRegions(NewTable(0, 48 - (g - 3), g - 3), js, g);
    GenerateOutput(t, GrowJobs(0xFFFF_FFFF, js, g), g, mode)
  }

  /** With 16 KB and 64 KB granules no list of regions at all leads to tables. */
  lemma OnlyFourKilobytePages(js: seq<Job>, mode: Option<string>, g: nat)
    requires g in {14, 16}
    ensures Program(js, mode, g).Failure?
  {
    StaysEmpty(js, g);
    EmptyFails(NewTable(0, 48 - (g - 3), g - 3), FirstLevel(g), g - 3, g - 3, mode);
  }

  /** Why the program stops: a granule that is refused, a region off its page, or an error of the builder. */
  datatype ProgramError =
    | BadPageSize
    | NotAligned(field: AddressField, name: string)
    | Stopped(error: MmuError)

  datatype AddressField = Virt | Phys | Size

  /** The test that parse_memmap makes of one region: the first of its numbers that is not a multiple of a page. */
  function Misaligned(r: Region, g: nat): Option<ProgramError> {
    if Low(r.virt, g) != 0 then Some(NotAligned(Virt, r.name))
    else if Low(r.phys, g) != 0 then Some(NotAligned(Phys, r.name))
    else if Low(r.size, g) != 0 then Some(NotAligned(Size, r.name))
    else None
  }

  /** The number that is named, by its remainder modulo the page size. */
  lemma MisalignedExactly(r: Region, g: nat, field: AddressField)
    ensures Misaligned(r, g) == Some(NotAligned(field, r.name)) <==>
      match field
      case Virt => r.virt % Pow2(g) != 0
      case Phys => r.virt % Pow2(g) == 0 && r.phys % Pow2(g) != 0
      case Size => r.virt % Pow2(g) == 0 && r.phys % Pow2(g) == 0 && r.size % Pow2(g) != 0
    ensures Misaligned(r, g) == None <==> r.virt % Pow2(g) == 0 && r.phys % Pow2(g) == 0 && r.size % Pow2(g) == 0
  {
    ShrIsDiv(r.virt, g);
    ShrIsDiv(r.phys, g);
    ShrIsDiv(r.size, g);
  }

  /** parse_memmap: the first misaligned region ends the program, and the error names it. */
  method CheckRegions(g: nat, rs: seq<Region>) returns (err: Option<ProgramError>)
    ensures err == None <==> forall r :: r in rs ==> PageAligned(r, g)
    ensures err.Some? ==>
      exists i :: 0 <= i < |rs| && err == Misaligned(rs[i], g) && forall r :: r in rs[..i] ==> PageAligned(r, g)
  {
    for i := 0 to |rs|
      invariant forall j :: 0 <= j < i ==> PageAligned(rs[j], g)
    {
      err := CheckRegion(g, rs[i]);
      if err.Some? {
        return;
      }
    }
    err := None;
  }

  method CheckRegion(g: nat, r: Region) returns (err: Option<ProgramError>)
    ensures err == Misaligned(r, g) && (err == None <==> PageAligned(r, g))
  {
    MisalignedExactly(r, g, Virt);
    MisalignedExactly(r, g, Phys);
    MisalignedExactly(r, g, Size);
    var pagesize := Pow2(g);
    if r.virt % pagesize != 0 {
      err := Some(NotAligned(Virt, r.name));
    } else if r.phys % pagesize != 0 {
      err := Some(NotAligned(Phys, r.name));
    } else if r.size % pagesize != 0 {
      err := Some(NotAligned(Size, r.name));
    } else {
      err := None;
    }
  }

  /** All that can come out of the program, each way to stop told apart. */
  predicate Ends(mode: Option<string>, pageshift: Option<nat>, rs: seq<Region>, res: Result<Output, ProgramError>) {
    var g := if pageshift == None then 12 else pageshift.value;
    if g !in {12, 14, 16} then res == Failure(BadPageSize)
    else if forall r :: r in rs ==> PageAligned(r, g) then res == Finished(Program(Jobs(rs, mode), mode, g))
    else exists i :: 0 <= i < |rs| && Misaligned(rs[i], g).Some? && res == Failure(Misaligned(rs[i], g).value)
                     && forall r :: r in rs[..i] ==> PageAligned(r, g)
  }

  /** create_mmu_from_xml, parse_memmap, the loop over the regions and generate. */
  method Run(mode: Option<string>, pageshift: Option<nat>, rs: seq<Region>) returns (res: Result<Output, ProgramError>)
    ensures Ends(mode, pageshift, rs, res)
  {
    var g := if pageshift == None then 12 else pageshift.value;
    if g !in {12, 14, 16} {
      return Failure(BadPageSize);
    }
    var err := CheckRegions(g, rs);
    if err.Some? {
      return Failure(err.value);
    }
    res := BuildAll(mode, g, rs);
  }

  function Finished(r: Result<Output, MmuError>): Result<Output, ProgramError> {
    match r
    case Success(o) => Success(o)
    case Failure(e) => Failure(Stopped(e))
  }

  /** The loop over the regions. */
  method InsertRegionsOf(mmu: Aarch64Mmu, rs: seq<Region>) returns (err: Option<MmuError>)
    requires mmu.Valid()
    modifies mmu`maxPa, mmu.tt.Repr
    ensures mmu.tt == old(mmu.tt) && fresh(mmu.tt.Repr - old(mmu.tt.Repr))
    ensures err == None ==> mmu.Valid() && mmu.maxPa == GrowJobs(old(mmu.maxPa), Jobs(rs, mmu.mode), mmu.log2Granule)
    ensures InsertRegions(old(mmu.tt.Contents), Jobs(rs, mmu.mode), mmu.log2Granule) ==
      if err == None then Success(mmu.tt.Contents) else Failure(err.value)
  {
    ghost var goal := InsertRegions(mmu.tt.Contents, Jobs(rs, mmu.mode), mmu.log2Granule);
    ghost var max := GrowJobs(mmu.maxPa, Jobs(rs, mmu.mode), mmu.log2Granule);
    assert rs[0..] == rs;
    for i := 0 to |rs|
      invariant mmu.Valid() && mmu.tt == old(mmu.tt) && fresh(mmu.tt.Repr - old(mmu.tt.Repr))
      invariant InsertRegions(mmu.tt.Contents, Jobs(rs[i..], mmu.mode), mmu.log2Granule) == goal
      invariant GrowJobs(mmu.maxPa, Jobs(rs[i..], mmu.mode), mmu.log2Granule) == max
    {
      err := mmu.InsertJob(JobOf(rs[i], mmu.mode));
      if err.Some? {
        return;
      }
    }
    err := None;
  }

  method BuildAll(mode: Option<string>, g: nat, rs: seq<Region>) returns (res: Result<Output, ProgramError>)
    requires g in {12, 14, 16}
    ensures res == Finished(Program(Jobs(rs, mode), mode, g))
  {
    var mmu := new Aarch64Mmu(mode, g);
    var err := InsertRegionsOf(mmu, rs);
    if err.Some? {
      return Failure(Stopped(err.value));
    }
    var out := mmu.Generate();
    res := Finished(out);
  }

  predicate GoodJobs(js: seq<Job>) {
    forall j :: j in js && j.attributes.Success? ==>
      GoodAttributes(j.attributes.value.upper, j.attributes.value.lower)
  }

  /** All jobs that are not empty are physically aligned. */
  predicate AllAligned(js: seq<Job>) {
    forall j :: j in js && j.region.size > 0 ==> PhysicallyAligned(j)
  }

  lemma LookupPhysical(js: seq<Job>, x: nat)
    requires AllUnderstood(js)
    ensures Lookup(js, x).Some? ==>
      exists j :: j in js && Contains(j, x) && Lookup(js, x).value == RegionMapping(j.region, j.attributes.value, x)
    ensures Lookup(js, x).Some? ==> Lookup(js, x).value.pa >= 0
  {
    if js != [] {
      if Contains(js[0], x) {
        assert js[0] in js;
      } else {
        LookupPhysical(js[1..], x);
      }
    }
  }

  /** Successful insertion leaves tables that hold the regions. */
  lemma InsertedHold(js: seq<Job>, t: Tree)
    requires forall j :: j in js ==> Placeable(j)
    requires InsertRegions(Root(), js, 12) == Success(t)
    ensures Holds(t, js)
  {
    BuildRefinesRegionMap(js);
  }

  lemma GoodLeaves(t: Tree, js: seq<Job>)
    requires Holds(t, js) && GoodJobs(js)
    ensures GoodEntries(Leaves(t))
  {
    AllLeavesAnyOrder(js);
    forall e | e in Leaves(t) ensures GoodEntry(e) {
      var j :| j in js && e in j.Entries();
      StartOnTrack(j.region, 12);
      CutPieces(j.region, j.attributes.value, 12, j.region.virt, e);
      PieceSizes(e, j.region, j.attributes.value);
    }
  }

  /** The jobs of a list of regions have attributes that keep to their bits. */
  lemma {:induction false} JobsOf(rs: seq<Region>, mode: Option<string>)
    ensures GoodJobs(Jobs(rs, mode)) && forall j :: j in Jobs(rs, mode) <==> exists r :: r in rs && j == JobOf(r, mode)
    decreases |rs|
  {
    if rs != [] {
      var rest := rs[1..];
      JobsOf(rest, mode);
      assert rs == [rs[0]] + rest;
      assert Jobs(rs, mode) == [JobOf(rs[0], mode)] + Jobs(rest, mode);
    }
  }

  /** Regions that the program accepts as aligned and that end at or below 2^48. */
  predicate InAddressSpace(rs: seq<Region>) {
    forall r :: r in rs ==> PageAligned(r, 12) && CutEnd(r, 12, r.virt) <= ADDRESSES
  }

  /** What a run that ends with tables has built. */
  lemma RunHolds(rs: seq<Region>, mode: Option<string>, o: Output) returns (t: Tree)
    requires InAddressSpace(rs) && Program(Jobs(rs, mode), mode, 12) == Success(o)
    ensures Holds(t, Jobs(rs, mode)) && GoodJobs(Jobs(rs, mode))
    ensures GenerateOutput(t, GrowJobs(0xFFFF_FFFF, Jobs(rs, mode), 12), 12, mode) == Success(o)
  {
    JobsOf(rs, mode);
    t := InsertRegions(Root(), Jobs(rs, mode), 12).value;
    InsertedHold(Jobs(rs, mode), t);
  }

  /** An empty region contains no address. */
  lemma NotEmpty(j: Job, x: nat)
    requires Contains(j, x)
    ensures j.region.size > 0
  {
  }

  /**
   The register value of a run is usable in every mode except stage 2, and there if and only if some region that is
   not empty ends above 2 MB.
   */
  lemma RegisterUsableExactly(rs: seq<Region>, mode: Option<string>, o: Output)
    requires InAddressSpace(rs) && Program(Jobs(rs, mode), mode, 12) == Success(o)
    ensures o.tcr >= 0
        <==> mode != Some("stage2") || exists r :: r in rs && r.size > 0 && CutEnd(r, 12, r.virt) > Pow2(21)
  {
    var js := Jobs(rs, mode);
    var t := RunHolds(rs, mode, o);
    SuccessIsInhabited(t, GrowJobs(0xFFFF_FFFF, js, 12), mode);
    TcrUsableExactly(t, GrowJobs(0xFFFF_FFFF, js, 12), mode, o);
    MappedAbove(t, rs, mode, Pow2(21));
  }

  /**
   The address size of a usable register, 64 less T0SZ, is the least one from 22 bits on that covers the regions: it is
   at most a number of bits if and only if no region that is not empty ends above that power of two. (T0SZ above 39,
   which needs FEAT_TTST in hardware, is a size of at most 24 bits.)
   */
  lemma AddressSizeExactly(rs: seq<Region>, mode: Option<string>, o: Output, bits: nat)
    requires InAddressSpace(rs) && Program(Jobs(rs, mode), mode, 12) == Success(o) && o.tcr >= 0 && 22 <= bits <= 48
    ensures 64 - Field(o.tcr, 0, 6) <= bits <==> !exists r :: r in rs && r.size > 0 && CutEnd(r, 12, r.virt) > Pow2(bits)
  {
    var js := Jobs(rs, mode);
    var t := RunHolds(rs, mode, o);
    SpaceExactly(t, GrowJobs(0xFFFF_FFFF, js, 12), mode, o, bits);
    MappedAbove(t, rs, mode, Pow2(bits));
  }

  /** The register value consists of T0SZ, the start level in stage 2, and the physical size. */
  lemma RegisterValue(rs: seq<Region>, mode: Option<string>, o: Output)
    requires InAddressSpace(rs) && Program(Jobs(rs, mode), mode, 12) == Success(o) && o.tcr >= 0
    ensures o.tcr == Field(o.tcr, 16, 3) * 0x1_0000 + Field(o.tcr, 6, 2) * 0x40 + Field(o.tcr, 0, 6)
    ensures mode != Some("stage2") ==> Field(o.tcr, 6, 2) == 0
  {
    var t := RunHolds(rs, mode, o);
    OnlyFields(t, GrowJobs(0xFFFF_FFFF, Jobs(rs, mode), 12), mode, o);
  }

  /** Something is mapped at or above a bound if and only if a region that is not empty ends above it. */
  lemma MappedAbove(t: Tree, rs: seq<Region>, mode: Option<string>, bound: nat)
    requires InAddressSpace(rs) && Holds(t, Jobs(rs, mode))
    ensures MapsFrom(t, bound)
        <==> exists r :: r in rs && r.size > 0 && CutEnd(r, 12, r.virt) > bound
  {
    JobsOf(rs, mode);
    if x: nat :| bound <= x < ADDRESSES && Walk(t, x, 9).Some? {
      var j := MappedBy(t, Jobs(rs, mode), x);
      assert exists r :: r in rs && j == JobOf(r, mode);
    }
    if r :| r in rs && r.size > 0 && CutEnd(r, 12, r.virt) > bound {
      var x := LastAddress(t, Jobs(rs, mode), JobOf(r, mode), bound);
    }
  }

  lemma MappedBy(t: Tree, js: seq<Job>, x: nat) returns (j: Job)
    requires Holds(t, js) && x < ADDRESSES && Walk(t, x, 9).Some?
    ensures j in js && Contains(j, x) && j.region.size > 0
  {
    assert Translate(t, x) == Lookup(js, x);
    LookupPhysical(js, x);
    j :| j in js && Contains(j, x);
    NotEmpty(j, x);
  }

  lemma LastAddress(t: Tree, js: seq<Job>, j: Job, bound: nat) returns (x: nat)
    requires Holds(t, js) && j in js && j.region.size > 0 && j.End() > bound
    ensures bound <= x < ADDRESSES && Walk(t, x, 9).Some?
  {
    x := j.End() - 1;
    EndNotBefore(j);
    InsideRegion(j);
    LookupFinds(js, j, x);
    assert Translate(t, x) == Lookup(js, x);
  }

  lemma InsideRegion(j: Job)
    requires PageAligned(j.region, 12) && j.region.size > 0
    ensures j.Start() < j.End()
  {
    RoundUpLeast(j.region.virt + j.region.size, Largest(12, j.region.size));
  }
}
