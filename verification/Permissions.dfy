/** What the descriptors that hardware finds permit, against what the regions say. */
module Permissions {
  import opened Bits
  import opened Wrappers
  import opened PageTree
  import opened Descriptors
  import opened Regions
  import opened Build
  import opened Hardware
  import opened Generate
  import opened Exact
  import opened Memmap
  import opened Agreement

  /** Reading, writing and executing. */
  datatype Rights = Rights(read: bool, write: bool, exec: bool)

  /** What three characters of an access string say. */
  function Says(access: string, from: nat): Rights
    requires from + 3 <= |access|
  {
    Rights(access[from] == 'r', access[from + 1] == 'w', access[from + 2] == 'x')
  }

  /**
   What the attribute bits of a leaf permit to the exception level of the register (Arm DDI 0487, section D8.4). At
   EL1, AP[2:1] is bits 7 and 6, PXN bit 53, and what EL0 may write EL1 does not execute. At EL2, AP[2] is bit 7 and XN
   bit 54. In stage 2, S2AP is bits 7 and 6 and XN bit 54.
   */
  function Privileged(register: Register, upper: nat, lower: nat): Rights {
    var ap := Field(lower, 6, 2);
    match register
    case TcrEl1 => Rights(true, ap / 2 == 0, Field(upper, 53, 1) == 0 && ap != 1)
    case TcrEl2 => Rights(true, ap / 2 == 0, Field(upper, 54, 1) == 0)
    case VtcrEl2 => Rights(ap % 2 == 1, ap / 2 == 1, Field(upper, 54, 1) == 0)
  }

  /** What they permit to EL0 under TCR_EL1: AP[1] opens data to it, and UXN is bit 54. */
  function User(upper: nat, lower: nat): Rights {
    var ap := Field(lower, 6, 2);
    Rights(ap % 2 == 1, ap == 1, Field(upper, 54, 1) == 0)
  }

  /** The effect of loads of capabilities: LC, bits 62 and 61 (Morello supplement, section 2.14.1). */
  predicate LoadsAre(code: nat, capLoad: Option<string>) {
    match code
    case 0 => capLoad in {None, Some("zero_tag")}
    case 1 => capLoad == Some("no_effect")
    case 2 => capLoad == Some("fault_tgen_1")
    case _ => capLoad == Some("fault_tgen_0")
  }

  /** The effect of stores of capabilities: SC and CDBM, bits 60 and 59. */
  predicate StoresAre(code: nat, capStore: Option<string>) {
    match code
    case 0 => capStore in {None, Some("fault")}
    case 1 => capStore == Some("track")
    case 2 => capStore == Some("no_effect")
    case _ => false
  }

  /**
   The rest of a leaf: it is not contiguous, has been accessed, and is outer shareable. In stage 1 it is global and
   not secure, and its memory attribute is MAIR entry 0 for wb and 1 for nc; in stage 2 its memory is write-back
   for wb and device memory for nc.
   */
  predicate MemoryIs(register: Register, upper: nat, lower: nat, cache: string) {
    && cache in {"wb", "nc"}
    && Field(upper, 52, 1) == 0 && Field(lower, 10, 1) == 1 && Field(lower, 8, 2) == 2
    && (if register.VtcrEl2? then Field(lower, 2, 4) == (if cache == "wb" then 15 else 0)
        else && Field(lower, 11, 1) == 0 && Field(lower, 5, 1) == 1
             && Field(lower, 2, 3) == (if cache == "wb" then 0 else 1))
  }

  /** A word with the given fields, each a position and a width, and no other bit. */
  function Only(word: nat, places: seq<(nat, nat)>): int {
    if places == [] then 0
    else
      var (pos, width) := places[|places| - 1];
      Only(word, places[..|places| - 1]) + Shl(Field(word, pos, width), pos)
  }

  /** No attribute bit outside these fields is set. At EL2, PXN is reserved as 0 and AP[1] as 1. */
  predicate NothingElse(register: Register, upper: nat, lower: nat) {
    && upper == Only(upper, if register.VtcrEl2? then [(54, 1), (52, 1)] else [(61, 2), (59, 2), (54, 1), (53, 1), (52, 1)])
    && lower == Only(lower, if register.VtcrEl2? then [(10, 1), (8, 2), (6, 2), (2, 4)]
                            else [(11, 1), (10, 1), (8, 2), (6, 2), (5, 1), (2, 3)])
    && (register.TcrEl2? ==> Field(upper, 53, 1) == 0 && Field(lower, 6, 2) % 2 == 1)
  }

  /** The bits of a leaf say what the region says; user code may execute where the first triple says so, not the second. */
  predicate Means(r: Region, mode: Option<string>, upper: nat, lower: nat) {
    var register := RegisterOf(mode);
    && |r.access| >= 3 && Privileged(register, upper, lower) == Says(r.access, 0)
    && MemoryIs(register, upper, lower, r.cache) && NothingElse(register, upper, lower)
    && (!register.VtcrEl2? ==> LoadsAre(Field(upper, 61, 2), r.capLoad) && StoresAre(Field(upper, 59, 2), r.capStore))
    && (register.TcrEl1? ==>
          |r.access| == 6 && User(upper, lower) == Rights(r.access[3] == 'r', r.access[4] == 'w', r.access[2] == 'x'))
  }

  predicate CapabilitiesKnown(r: Region) {
    && (r.capLoad.Some? ==> r.capLoad.value in {"zero_tag", "no_effect", "fault_tgen_1", "fault_tgen_0"})
    && (r.capStore.Some? ==> r.capStore.value in {"fault", "track", "no_effect"})
  }

  /** The regions that insert accepts, by the strings that describe them. */
  predicate Accepted(r: Region, mode: Option<string>) {
    && r.cache in {"wb", "nc"}
    && (if mode in {None, Some("el1")} then CapabilitiesKnown(r) && r.access in {"rwx---", "r-x---", "rw-rw-"}
        else if mode == Some("el2") then CapabilitiesKnown(r) && |r.access| >= 3 && r.access[..2] in {"rw", "r-"}
        else mode == Some("stage2") && |r.access| >= 3 && r.access[..2] in {"--", "r-", "-w", "rw"})
  }

  lemma AcceptedExactly(r: Region, mode: Option<string>)
    ensures JobOf(r, mode).attributes.Success? <==> Accepted(r, mode)
  {
  }

  /** Why a region is refused: the first of the tests of insert that it does not pass. */
  function Refusal(r: Region, mode: Option<string>): MmuError {
    if mode in {None, Some("el1"), Some("el2")} then
      if r.cache !in {"wb", "nc"} then KeyError
      else if r.capLoad.Some? && r.capLoad.value !in {"zero_tag", "no_effect", "fault_tgen_1", "fault_tgen_0"} then BadCapLoad
      else if r.capStore.Some? && r.capStore.value !in {"fault", "track", "no_effect"} then BadCapStore
      else if mode != Some("el2") then BadAccess
      else if |r.access| < 3 then IndexError else KeyError
    else if mode != Some("stage2") then BadMode
    else if |r.access| < 3 then IndexError else KeyError
  }

  lemma RefusedExactly(r: Region, mode: Option<string>)
    requires !Accepted(r, mode)
    ensures JobOf(r, mode).attributes == Failure(Refusal(r, mode))
  {
  }

  /** The second triple of an el1 access string says what user code may do if and only if nobody may execute. */
  lemma UserAsSaid(r: Region, mode: Option<string>, upper: nat, lower: nat)
    requires Accepted(r, mode) && RegisterOf(mode).TcrEl1? && Means(r, mode, upper, lower)
    ensures User(upper, lower) == Says(r.access, 3) <==> r.access == "rw-rw-"
  {
  }

  /** The bits of the attribute words that the fields make. */
  lemma Stage1Bits(f: Fields)
    requires InRange(f) && f.Stage1?
    ensures var a := AttributesOf(f);
      && Field(a.upper, 61, 2) == f.lc && Field(a.upper, 59, 2) == f.scCdbm && Field(a.upper, 54, 1) == f.uxn
      && Field(a.upper, 53, 1) == f.pxn && Field(a.upper, 52, 1) == 0
      && Field(a.lower, 11, 1) == 0 && Field(a.lower, 10, 1) == 1 && Field(a.lower, 8, 2) == 2
      && Field(a.lower, 6, 2) == f.ap && Field(a.lower, 5, 1) == 1 && Field(a.lower, 2, 3) == f.attrIdx
      && a.upper == Only(a.upper, [(61, 2), (59, 2), (54, 1), (53, 1), (52, 1)])
      && a.lower == Only(a.lower, [(11, 1), (10, 1), (8, 2), (6, 2), (5, 1), (2, 3)])
  {
    UpperBits(f);
    LowerBits(f);
    var u, l := UpperFields(f), LowerFields(f);
    assert u[0].pos == 61 && u[1].pos == 59 && u[2].pos == 54 && u[3].pos == 53 && u[4].pos == 52;
    assert l[0].pos == 11 && l[1].pos == 10 && l[2].pos == 8 && l[3].pos == 6 && l[4].pos == 5 && l[5].pos == 2;
    FieldsDoNotOverlap(f);
    PackedOnly(u, [(61, 2), (59, 2), (54, 1), (53, 1), (52, 1)], 52, AttributesOf(f).upper);
    PackedOnly(l, [(11, 1), (10, 1), (8, 2), (6, 2), (5, 1), (2, 3)], 2, AttributesOf(f).lower);
  }

  lemma Stage2Bits(f: Fields)
    requires InRange(f) && f.Stage2?
    ensures var a := AttributesOf(f);
      && Field(a.upper, 54, 1) == f.xn && Field(a.upper, 52, 1) == 0
      && Field(a.lower, 10, 1) == 1 && Field(a.lower, 8, 2) == 2 && Field(a.lower, 6, 2) == f.s2ap
      && Field(a.lower, 2, 4) == f.memAttr
      && a.upper == Only(a.upper, [(54, 1), (52, 1)]) && a.lower == Only(a.lower, [(10, 1), (8, 2), (6, 2), (2, 4)])
  {
    UpperBits(f);
    LowerBits(f);
    var u, l := UpperFields(f), LowerFields(f);
    assert u[0].pos == 54 && u[1].pos == 52;
    assert l[0].pos == 10 && l[1].pos == 8 && l[2].pos == 6 && l[3].pos == 2;
    FieldsDoNotOverlap(f);
    PackedOnly(u, [(54, 1), (52, 1)], 52, AttributesOf(f).upper);
    PackedOnly(l, [(10, 1), (8, 2), (6, 2), (2, 4)], 2, AttributesOf(f).lower);
  }

  /** A packed word has the bits of its fields and no other. */
  lemma {:induction false} PackedOnly(fs: seq<BitField>, places: seq<(nat, nat)>, low: nat, word: nat)
    requires Layout(fs, low) && |places| == |fs|
    requires forall i :: 0 <= i < |fs| ==> places[i] == (fs[i].pos, fs[i].width) && Field(word, fs[i].pos, fs[i].width) == fs[i].value
    ensures PackOr(fs) == Only(word, places)
  {
    PackStep(fs, low);
    if fs != [] {
      var last := fs[|fs| - 1];
      assert places[|fs| - 1] == (last.pos, last.width) && Field(word, last.pos, last.width) == last.value;
      PackedOnly(fs[..|fs| - 1], places[..|fs| - 1], last.pos + last.width, word);
    }
  }

  lemma UpperBits(f: Fields)
    requires InRange(f)
    ensures forall i :: 0 <= i < |UpperFields(f)| ==>
      Field(AttributesOf(f).upper, UpperFields(f)[i].pos, UpperFields(f)[i].width) == UpperFields(f)[i].value
  {
    FieldsDoNotOverlap(f);
    forall i | 0 <= i < |UpperFields(f)|
      ensures Field(AttributesOf(f).upper, UpperFields(f)[i].pos, UpperFields(f)[i].width) == UpperFields(f)[i].value
    {
      PackReadBack(UpperFields(f), 52, i, 0);
    }
  }

  lemma LowerBits(f: Fields)
    requires InRange(f)
    ensures forall i :: 0 <= i < |LowerFields(f)| ==>
      Field(AttributesOf(f).lower, LowerFields(f)[i].pos, LowerFields(f)[i].width) == LowerFields(f)[i].value
  {
    FieldsDoNotOverlap(f);
    forall i | 0 <= i < |LowerFields(f)|
      ensures Field(AttributesOf(f).lower, LowerFields(f)[i].pos, LowerFields(f)[i].width) == LowerFields(f)[i].value
    {
      PackReadBack(LowerFields(f), 2, i, 0);
    }
  }

  lemma CodesMean(r: Region)
    ensures CapLoadIndex(r.capLoad).Success? ==> LoadsAre(CapLoadIndex(r.capLoad).value, r.capLoad)
    ensures CapStoreIndex(r.capStore).Success? ==> StoresAre(CapStoreIndex(r.capStore).value, r.capStore)
    ensures CacheIndex(r.cache).Success? ==>
      r.cache in {"wb", "nc"} && CacheIndex(r.cache).value == if r.cache == "wb" then 0 else 1
  {
  }

  /** The fields chosen at EL1. */
  lemma El1Chosen(r: Region, mode: Option<string>, f: Fields)
    requires mode in {None, Some("el1")} && ChooseFields(mode, r.cache, r.access, r.capLoad, r.capStore) == Success(f)
    ensures f.Stage1? && InRange(f)
    ensures CapLoadIndex(r.capLoad) == Success(f.lc) && CapStoreIndex(r.capStore) == Success(f.scCdbm)
    ensures CacheIndex(r.cache) == Success(f.attrIdx)
    ensures |r.access| == 6 && Says(r.access, 0) == Rights(true, f.ap / 2 == 0, f.pxn == 0 && f.ap != 1)
    ensures Rights(f.ap % 2 == 1, f.ap == 1, f.uxn == 0) == Rights(r.access[3] == 'r', r.access[4] == 'w', r.access[2] == 'x')
  {
  }

  lemma El2Chosen(r: Region, mode: Option<string>, f: Fields)
    requires mode == Some("el2") && ChooseFields(mode, r.cache, r.access, r.capLoad, r.capStore) == Success(f)
    ensures f.Stage1? && InRange(f)
    ensures CapLoadIndex(r.capLoad) == Success(f.lc) && CapStoreIndex(r.capStore) == Success(f.scCdbm)
    ensures CacheIndex(r.cache) == Success(f.attrIdx)
    ensures |r.access| >= 3 && Says(r.access, 0) == Rights(true, f.ap / 2 == 0, f.uxn == 0)
    ensures f.pxn == 0 && f.ap % 2 == 1
  {
    FirstTwo(r.access);
  }

  lemma Stage2Chosen(r: Region, mode: Option<string>, f: Fields)
    requires mode == Some("stage2") && ChooseFields(mode, r.cache, r.access, r.capLoad, r.capStore) == Success(f)
    ensures f.Stage2? && InRange(f) && r.cache in {"wb", "nc"} && f.memAttr == if r.cache == "wb" then 15 else 0
    ensures |r.access| >= 3 && Says(r.access, 0) == Rights(f.s2ap % 2 == 1, f.s2ap / 2 == 1, f.xn == 0)
  {
    CodesMean(r);
    FirstTwo(r.access);
  }

  lemma FirstTwo(access: string)
    requires |access| >= 2
    ensures access[..2][0] == access[0] && access[..2][1] == access[1]
  {
  }

  /** The attribute words that insert computes for a region mean what the region says. */
  lemma AttributesMean(r: Region, mode: Option<string>, f: Fields)
    requires ChooseFields(mode, r.cache, r.access, r.capLoad, r.capStore) == Success(f)
    ensures InRange(f) && Means(r, mode, AttributesOf(f).upper, AttributesOf(f).lower)
  {
    if mode == Some("stage2") {
      Stage2Means(r, mode, f);
    } else {
      Stage1Means(r, mode, f);
    }
  }

  lemma Stage2Means(r: Region, mode: Option<string>, f: Fields)
    requires mode == Some("stage2") && ChooseFields(mode, r.cache, r.access, r.capLoad, r.capStore) == Success(f)
    ensures InRange(f) && Means(r, mode, AttributesOf(f).upper, AttributesOf(f).lower)
  {
    Stage2Chosen(r, mode, f);
    Stage2Bits(f);
  }

  lemma KnownMode(r: Region, mode: Option<string>, f: Fields)
    requires ChooseFields(mode, r.cache, r.access, r.capLoad, r.capStore) == Success(f) && mode != Some("stage2")
    ensures mode in {None, Some("el1"), Some("el2")}
  {
  }

  lemma Stage1Means(r: Region, mode: Option<string>, f: Fields)
    requires mode != Some("stage2") && ChooseFields(mode, r.cache, r.access, r.capLoad, r.capStore) == Success(f)
    ensures InRange(f) && Means(r, mode, AttributesOf(f).upper, AttributesOf(f).lower)
  {
    KnownMode(r, mode, f);
    CodesMean(r);
    if mode == Some("el2") {
      El2Chosen(r, mode, f);
    } else {
      El1Chosen(r, mode, f);
    }
    Stage1Bits(f);
  }

  /** What hardware finds for an address of a region has the attributes made for that region. */
  lemma FoundAttributes(t: Tree, js: seq<Job>, j: Job, limit: nat, x: nat)
    requires Holds(t, js) && j in js && Contains(j, x) && Limited(Walk(t, x, 9), limit, x).Mapped?
    ensures var found := Limited(Walk(t, x, 9), limit, x);
      found.upper == j.attributes.value.upper && found.lower == j.attributes.value.lower
  {
    var e := PieceAt(t, js, j, x);
  }

  lemma RegionMeans(r: Region, mode: Option<string>)
    requires JobOf(r, mode).attributes.Success?
    ensures var a := JobOf(r, mode).attributes.value; Means(r, mode, a.upper, a.lower)
  {
    AttributesMean(r, mode, ChooseFields(mode, r.cache, r.access, r.capLoad, r.capStore).value);
  }

  /**
   For every list of regions that the program turns into tables with a usable register: what hardware finds in the
   emitted words for an address of a region permits and means what the strings of that region say.
   */
  lemma HardwarePermits(rs: seq<Region>, mode: Option<string>, o: Output, base: nat, r: Region, x: nat)
    requires InAddressSpace(rs) && Program(Jobs(rs, mode), mode, 12) == Success(o)
    requires o.tcr >= 0 && FitsAt(o, mode, base) && r in rs && r.virt <= x < CutEnd(r, 12, r.virt)
    requires Seen(o, mode, base, x).Mapped?
    ensures Means(r, mode, Seen(o, mode, base, x).upper, Seen(o, mode, base, x).lower)
  {
    var js := Jobs(rs, mode);
    var t := RunHolds(rs, mode, o);
    JobsOf(rs, mode);
    SeenIsWalk(t, js, GrowJobs(0xFFFF_FFFF, js, 12), mode, o, base, x);
    FoundAttributes(t, js, JobOf(r, mode), PhysicalLimit(o.tcr, RegisterOf(mode)), x);
    RegionMeans(r, mode);
  }
}
