/** The attribute fields of a leaf descriptor: how the builder packs them into words and what hardware reads back. */
module Descriptors {
  import opened Bits
  import opened Wrappers
  import opened PageTree

  /** The ways in which building the tables can stop. */
  datatype MmuError =
    | BadCapLoad | BadCapStore | BadAccess | BadMode    // a message and exit(1)
    | Overlapping                                       // "overlap at ...", exit(1)
    | KeyError | IndexError | ShiftError                // Python exceptions
    | NotATable                                         // AttributeError: a leaf or None has no table
    | NoPhysicalSize                                    // UnboundLocalError: no PS value was chosen

  /** The fields that vary between descriptors of stage 1 and of stage 2. */
  datatype Fields =
    | Stage1(lc: nat, scCdbm: nat, uxn: nat, pxn: nat, ap: nat, attrIdx: nat)
    | Stage2(xn: nat, s2ap: nat, memAttr: nat)

  predicate InRange(f: Fields) {
    match f
    case Stage1(lc, sc, uxn, pxn, ap, attrIdx) =>
      lc < 4 && sc < 3 && uxn < 2 && pxn < 2 && ap < 4 && attrIdx < 2
    case Stage2(xn, s2ap, memAttr) => xn < 2 && s2ap < 4 && memAttr < 16
  }

  function CacheIndex(cache: string): Result<nat, MmuError> {
    if cache == "wb" then Success(0) else if cache == "nc" then Success(1) else Failure(KeyError)
  }

  function CapLoadIndex(capLoad: Option<string>): Result<nat, MmuError> {
    match capLoad
    case None => Success(0)
    case Some(v) =>
      if v == "zero_tag" then Success(0)
      else if v == "no_effect" then Success(1)
      else if v == "fault_tgen_1" then Success(2)
      else if v == "fault_tgen_0" then Success(3)
      else Failure(BadCapLoad)
  }

  function CapStoreIndex(capStore: Option<string>): Result<nat, MmuError> {
    match capStore
    case None => Success(0)
    case Some(v) =>
      if v == "fault" then Success(0)
      else if v == "track" then Success(1)
      else if v == "no_effect" then Success(2)
      else Failure(BadCapStore)
  }

  /** The character access[2] decides execution; shorter strings raise IndexError. */
  function ExecuteNever(access: string): Result<nat, MmuError> {
    if |access| < 3 then Failure(IndexError) else Success(if access[2] == 'x' then 0 else 1)
  }

  function El2Ap(access: string): Result<nat, MmuError>
    requires |access| >= 3
  {
    if access[..2] == "rw" then Success(1) else if access[..2] == "r-" then Success(3) else Failure(KeyError)
  }

  function Stage2Ap(access: string): Result<nat, MmuError>
    requires |access| >= 3
  {
    if access[..2] == "--" then Success(0)
    else if access[..2] == "r-" then Success(1)
    else if access[..2] == "-w" then Success(2)
    else if access[..2] == "rw" then Success(3)
    else Failure(KeyError)
  }

  /** The part of insert that chooses the descriptor fields, in the order of its checks. */
  function ChooseFields(mode: Option<string>, cache: string, access: string,
                        capLoad: Option<string>, capStore: Option<string>): (r: Result<Fields, MmuError>)
    ensures r.Success? ==> InRange(r.value) && (r.value.Stage2? <==> mode == Some("stage2"))
  {
    if mode == None || mode == Some("el1") || mode == Some("el2") then
      var attrIdx :- CacheIndex(cache);
      var lc :- CapLoadIndex(capLoad);
      var sc :- CapStoreIndex(capStore);
      if mode == Some("el2") then
        var uxn :- ExecuteNever(access);
        var ap :- El2Ap(access);
        Success(Stage1(lc, sc, uxn, 0, ap, attrIdx))
      else if access == "rwx---" then Success(Stage1(lc, sc, 0, 0, 0, attrIdx))
      else if access == "r-x---" then Success(Stage1(lc, sc, 0, 0, 2, attrIdx))
      else if access == "rw-rw-" then Success(Stage1(lc, sc, 1, 1, 1, attrIdx))
      else Failure(BadAccess)
    else if mode == Some("stage2") then
      var xn :- ExecuteNever(access);
      var s2ap :- Stage2Ap(access);
      var memAttr :- CacheIndex(cache);
      Success(Stage2(xn, s2ap, if memAttr == 0 then 15 else 0))
    else Failure(BadMode)
  }

  /** upper: nothing is contiguous, so bit 52 is always 0. */
  function UpperFields(f: Fields): seq<BitField> {
    match f
    case Stage1(lc, sc, uxn, pxn, _, _) =>
      [BitField(lc, 61, 2), BitField(sc, 59, 2), BitField(uxn, 54, 1), BitField(pxn, 53, 1), BitField(0, 52, 1)]
    case Stage2(xn, _, _) => [BitField(xn, 54, 1), BitField(0, 52, 1)]
  }

  /** lower: nG = 0, AF = 1, SH = 2 and, in stage 1, NS = 1. */
  function LowerFields(f: Fields): seq<BitField> {
    match f
    case Stage1(_, _, _, _, ap, attrIdx) =>
      [BitField(0, 11, 1), BitField(1, 10, 1), BitField(2, 8, 2), BitField(ap, 6, 2), BitField(1, 5, 1),
       BitField(attrIdx, 2, 3)]
    case Stage2(_, s2ap, memAttr) =>
      [BitField(1, 10, 1), BitField(2, 8, 2), BitField(s2ap, 6, 2), BitField(memAttr, 2, 4)]
  }

  lemma FieldsDoNotOverlap(f: Fields)
    requires InRange(f)
    ensures Layout(UpperFields(f), 52) && Layout(LowerFields(f), 2)
  {
    assert Pow2(1) == 2 && Pow2(2) == 4 && Pow2(3) == 8 && Pow2(4) == 16;
    match f
    case Stage1(lc, sc, uxn, pxn, ap, attrIdx) =>
      var u, l := UpperFields(f), LowerFields(f);
      assert Layout(u[..1], 61);
      assert u[..2][..1] == u[..1] && Layout(u[..2], 59);
      assert u[..3][..2] == u[..2] && Layout(u[..3], 54);
      assert u[..4][..3] == u[..3] && Layout(u[..4], 53);
      assert l[..1][..0] == [] && Layout(l[..1], 11);
      assert l[..2][..1] == l[..1] && Layout(l[..2], 10);
      assert l[..3][..2] == l[..2] && Layout(l[..3], 8);
      assert l[..4][..3] == l[..3] && Layout(l[..4], 6);
      assert l[..5][..4] == l[..4] && Layout(l[..5], 5);
    case Stage2(xn, s2ap, memAttr) =>
      var u, l := UpperFields(f), LowerFields(f);
      assert Layout(u[..1], 54);
      assert l[..1][..0] == [] && Layout(l[..1], 10);
      assert l[..2][..1] == l[..1] && Layout(l[..2], 8);
      assert l[..3][..2] == l[..2] && Layout(l[..3], 6);
  }

  /** The attribute words of a descriptor, as insert computes them once for a region. */
  datatype Attributes = Attributes(upper: nat, lower: nat)

  /** Upper words start at bit 52 and stay within 64 bits, lower words are bits 11 to 2. */
  predicate GoodAttributes(upper: nat, lower: nat) {
    upper % 0x10_0000_0000_0000 == 0 && lower % 4 == 0 && lower < 0x1000 && upper < 0x1_0000_0000_0000_0000
  }

  function AttributesOf(f: Fields): (a: Attributes)
    requires InRange(f)
    ensures GoodAttributes(a.upper, a.lower)
  {
    FieldsDoNotOverlap(f);
    PackedWordsAreGood(f);
    Attributes(PackOr(UpperFields(f)), PackOr(LowerFields(f)))
  }

  lemma PackedWordsAreGood(f: Fields)
    requires InRange(f) && Layout(UpperFields(f), 52) && Layout(LowerFields(f), 2)
    ensures var u, l := PackOr(UpperFields(f)), PackOr(LowerFields(f));
      u >= 0 && l >= 0 && GoodAttributes(u, l)
  {
    PackStep(UpperFields(f), 52);
    PackStep(LowerFields(f), 2);
    ShrIsDiv(PackOr(UpperFields(f)), 52);
    ShrIsDiv(PackOr(LowerFields(f)), 2);
    PackBound(UpperFields(f), 52, 64);
    PackBound(LowerFields(f), 2, 12);
    Powers();
  }

  /** The two type bits: page descriptors end in 3, block descriptors in 1. */
  function TypeBits(e: Entry, granule: nat): nat {
    if e.log2Size == granule then 3 else 1
  }

  /** The 64-bit word of a leaf (aarch64_pge.val). */
  function Descriptor(e: Entry, granule: nat): nat {
    e.upper + BitAnd(e.pa, 0x0000_FFFF_FFFF_F000) + e.lower + TypeBits(e, granule)
  }

  /** The physical page number that fits into bits 47 to 12 of a descriptor. */
  function PageNumber(e: Entry): (p: nat)
    ensures p < 0x10_0000_0000
    ensures e.pa < 0x1_0000_0000_0000 ==> p == e.pa / 0x1000
  {
    e.pa % 0x1_0000_0000_0000 / 0x1000
  }

  lemma DescriptorSum(e: Entry, granule: nat)
    ensures Descriptor(e, granule) == e.upper + PageNumber(e) * 0x1000 + e.lower + TypeBits(e, granule)
  {
    Powers();
    AndMask(e.pa, 12, 48);
    ShrIsDiv(e.pa, 48);
    ShrIsDiv(e.pa, 12);
    LowOfLow(e.pa, 12, 48);
    ShrIsDiv(e.pa % 0x1_0000_0000_0000, 12);
  }

  /** What hardware sees in a word: type bits, lower attributes, output page number, upper attributes. */
  function LowerOf(d: nat): nat { d % 0x1000 / 4 * 4 }
  function PageNumberOf(d: nat): nat { d / 0x1000 % 0x10_0000_0000 }
  function UpperOf(d: nat): nat { d / 0x10_0000_0000_0000 * 0x10_0000_0000_0000 }

  lemma WordParts(u: nat, p: nat, l: nat, t: nat, d: nat)
    requires p < 0x10_0000_0000 && l < 0x400 && t < 4
    requires d == u * 0x10_0000_0000_0000 + p * 0x1000 + l * 4 + t
    ensures d % 4 == t && LowerOf(d) == l * 4 && PageNumberOf(d) == p
    ensures UpperOf(d) == u * 0x10_0000_0000_0000
  {
    DivUnique(d, 0x10_0000_0000_0000, u, p * 0x1000 + l * 4 + t);
    DivUnique(d, 0x1000, u * 0x100_0000_0000 + p, l * 4 + t);
    DivUnique(u * 0x100_0000_0000 + p, 0x10_0000_0000, u * 16, p);
    DivUnique(d, 4, u * 0x4_0000_0000_0000 + p * 0x400 + l, t);
  }

  /** Every part of a leaf's word reads back as it was packed. */
  lemma DescriptorReadBack(e: Entry, granule: nat)
    requires GoodAttributes(e.upper, e.lower)
    ensures var d := Descriptor(e, granule);
      && d % 4 == TypeBits(e, granule)
      && LowerOf(d) == e.lower && UpperOf(d) == e.upper && PageNumberOf(d) == PageNumber(e)
  {
    DescriptorSum(e, granule);
    WordParts(e.upper / 0x10_0000_0000_0000, PageNumber(e), e.lower / 4, TypeBits(e, granule), Descriptor(e, granule));
  }

  /** Hardware: the address that a leaf of 2^size bytes maps to, bits 47 to size of its word. */
  function OutputAddress(d: nat, size: nat): nat {
    Shr(PageNumberOf(d) * 0x1000, size) * Pow2(size)
  }

  /**
   A leaf maps to its physical address exactly when that address is aligned to the leaf and has 48 bits;
   otherwise hardware drops the bits below the leaf's size and above bit 47.
   */
  lemma OutputExact(e: Entry, granule: nat)
    requires GoodAttributes(e.upper, e.lower) && 12 <= e.log2Size <= 48
    ensures OutputAddress(Descriptor(e, granule), e.log2Size) == e.pa
        <==> Low(e.pa, e.log2Size) == 0 && e.pa < 0x1_0000_0000_0000
    ensures OutputAddress(Descriptor(e, granule), e.log2Size) + Pow2(e.log2Size) <= 0x1_0000_0000_0000
    ensures OutputAddress(Descriptor(e, granule), e.log2Size) <= e.pa
  {
    DescriptorReadBack(e, granule);
    OutputIsFloor(e);
    FloorPlusLow(e.pa, 48);
    assert Pow2(48) == 0x1_0000_0000_0000 by { Powers(); }
    LowBound(e.pa, 48);
    FloorBelow(Low(e.pa, 48), e.log2Size, 48);
    assert Shr(e.pa, 48) >= 1 ==> Shr(e.pa, 48) * 0x1_0000_0000_0000 >= 0x1_0000_0000_0000;
  }

  lemma OutputIsFloor(e: Entry)
    requires 12 <= e.log2Size <= 48
    ensures var pa48 := Low(e.pa, 48);
      && Shr(PageNumber(e) * 0x1000, e.log2Size) == Shr(pa48, e.log2Size)
      && Shr(pa48, e.log2Size) * Pow2(e.log2Size) == pa48 - Low(e.pa, e.log2Size)
  {
    Powers();
    var pa48, size := Low(e.pa, 48), e.log2Size;
    ShrIsDiv(e.pa, 48);
    ShrIsDiv(pa48, 12);
    ShrOfFloor(pa48, 12, size - 12);
    FloorPlusLow(pa48, size);
    LowOfLow(e.pa, size, 48);
  }

  /**
   Hardware reads back every field that insert chose, from the finished 64-bit word: the load and store
   capability controls, execute-never bits, access permissions and memory attributes, at the positions
   that the Arm Architecture Reference Manual gives them (Arm DDI 0487, section D8.3).
   */
  lemma UpperFieldsReadBack(f: Fields, e: Entry, granule: nat, i: nat)
    requires InRange(f) && e.upper == AttributesOf(f).upper && e.lower == AttributesOf(f).lower
    requires i < |UpperFields(f)|
    ensures Field(Descriptor(e, granule), UpperFields(f)[i].pos, UpperFields(f)[i].width) == UpperFields(f)[i].value
  {
    FieldsDoNotOverlap(f);
    BelowUpper(e, granule);
    PackReadBack(UpperFields(f), 52, i, Descriptor(e, granule) - e.upper);
  }

  lemma BelowUpper(e: Entry, granule: nat)
    requires e.lower < 0x1000 - 3
    ensures 0 <= Descriptor(e, granule) - e.upper < Pow2(52)
  {
    DescriptorSum(e, granule);
    assert Pow2(52) == 0x10_0000_0000_0000 by { Powers(); }
  }

  lemma LowerFieldsReadBack(f: Fields, e: Entry, granule: nat, i: nat)
    requires InRange(f) && e.upper == AttributesOf(f).upper && e.lower == AttributesOf(f).lower
    requires i < |LowerFields(f)|
    ensures Field(Descriptor(e, granule) % 0x1000, LowerFields(f)[i].pos, LowerFields(f)[i].width) ==
      LowerFields(f)[i].value
  {
    FieldsDoNotOverlap(f);
    var fs := LowerFields(f);
    assert Descriptor(e, granule) % 0x1000 == PackOr(fs) + TypeBits(e, granule) by {
      LowerWordOf(e, granule);
    }
    assert TypeBits(e, granule) < Pow2(2);
    PackReadBack(fs, 2, i, TypeBits(e, granule));
  }

  lemma LowerWordOf(e: Entry, granule: nat)
    requires GoodAttributes(e.upper, e.lower)
    ensures Descriptor(e, granule) % 0x1000 == e.lower + TypeBits(e, granule)
  {
    DescriptorSum(e, granule);
    var u := e.upper / 0x10_0000_0000_0000;
    DivUnique(Descriptor(e, granule), 0x1000, u * 0x100_0000_0000 + PageNumber(e), e.lower + TypeBits(e, granule));
  }
}
