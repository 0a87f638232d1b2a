/** generate as a function of the tables, and what hardware makes of its output. */
module Generate {
  import opened Bits
  import opened Wrappers
  import opened PageTree
  import opened Descriptors
  import opened RegionMap
  import opened Start
  import opened Image
  import opened Hardware
  import opened Tcr

  /** What generate prints: the tables, the label of the first one and the control register. */
  datatype Output = Output(image: seq<Section>, first: Label, tcr: int)

  /** The chosen table without the slots above the 2^k that are kept. */
  function Truncate(f: First): Tree
    requires Pow2(f.k) <= |f.table.slots|
  {
    f.table.(slots := f.table.slots[..Pow2(f.k)])
  }

  /** Tables from the first level on translate 48 bits, and tables of one level less would not. */
  function FirstLevel(g: nat): (level: nat)
    requires g in {12, 14, 16}
    ensures level <= 3 && g + (4 - level) * (g - 3) >= 48 > g + (3 - level) * (g - 3)
  {
    if g == 16 then 1 else 0
  }

  function Finish(f: First, maxPa: nat, g: nat, mode: Option<string>): Result<Output, MmuError>
    requires g in {12, 14, 16} && Pow2(f.k) <= |f.table.slots|
  {
    match PsOf(maxPa)
    case None => Failure(NoPhysicalSize)
    case Some(ps) =>
      var tcr := TcrValue(g, f.level, f.VaMax(), ps, mode == Some("stage2"));
      Success(Output(Emit(Truncate(f), f.level, g), LabelOf(f.table, f.level, g), tcr))
  }

  function GenerateOutput(t: Tree, maxPa: nat, g: nat, mode: Option<string>): Result<Output, MmuError>
    requires g in {12, 14, 16} && Shaped(t, g - 3)
  {
    var f :- Shrink(t, FirstLevel(g), g - 3, g - 3, mode);
    Pow2Monotone(f.k, g - 3);
    Finish(f, maxPa, g, mode)
  }

  /** The level at which a stage-1 walk starts, for an address space of 2^bits (Arm DDI 0487, section D8.2). */
  function StartLevel(bits: nat): nat {
    if bits > 39 then 0 else if bits > 30 then 1 else if bits > 21 then 2 else 3
  }

  /** The level at which a stage-2 walk starts, from the SL0 field. */
  function Stage2StartLevel(sl0: nat): nat {
    if sl0 <= 2 then 2 - sl0 else 3
  }

  /** The registers that a mode is for: TCR_EL1, TCR_EL2 or VTCR_EL2. insert treats no mode at all as el1. */
  datatype Register = TcrEl1 | TcrEl2 | VtcrEl2

  function RegisterOf(mode: Option<string>): Register {
    if mode == Some("stage2") then VtcrEl2 else if mode == Some("el2") then TcrEl2 else TcrEl1
  }

  /** The physical size field (Arm DDI 0487, register descriptions): IPS in TCR_EL1, PS in TCR_EL2 and VTCR_EL2. */
  function SizeField(tcr: nat, register: Register): nat {
    if register.TcrEl1? then Field(tcr, 32, 3) else Field(tcr, 16, 3)
  }

  /** Physical addresses must lie below this limit. */
  function PhysicalLimit(tcr: nat, register: Register): nat {
    if SizeField(tcr, register) <= 6 then Pow2(PhysicalBits(SizeField(tcr, register))) else 0
  }

  /** Translating address x with nothing but memory, the address of the first table and the register. */
  function HwTranslate(img: seq<Section>, base: nat, table: nat, tcr: int, register: Register, x: nat): Outcome {
    if tcr < 0 || Field(tcr, 14, 2) != 0 then Fault
    else
      var bits := 64 - Field(tcr, 0, 6);
      if bits < 0 || x >= Pow2(bits) then Fault
      else
        HwWalk(img, base, table, FirstWalkLevel(tcr, register), PhysicalLimit(tcr, register), x)
  }

  function FirstWalkLevel(tcr: nat, register: Register): nat
    requires Field(tcr, 0, 6) <= 64
  {
    if register.VtcrEl2? then Stage2StartLevel(Field(tcr, 6, 2)) else StartLevel(64 - Field(tcr, 0, 6))
  }

  /** The emitted image stands for the chosen table, and no label is defined twice. */
  lemma EmittedStands(f: First)
    requires Narrow(f.table, f.level, f.k)
    ensures Pow2(f.k) <= |f.table.slots|
    ensures var img := Emit(Truncate(f), f.level, 12);
      UniqueLabels(img) && Stands(img, f.table, f.level, Pow2(f.k))
  {
    Pow2Monotone(f.k, 9);
    var kept := Pow2(f.k);
    assert f.table.slots[0..kept] == f.table.slots[..kept];
    EmitBelowLabels(f.table, 0, kept, f.level + 1, 9);
    AddOwnLabel(f.table, EmitBelow(f.table.slots[..kept], f.level + 1, 12), 0, kept, f.level, f.table.slots[..kept], 9);
  }

  lemma BelowSpan(shift: nat, k: nat, x: nat)
    requires k <= 9 && x < Pow2(shift + k)
    ensures x < Pow2(shift + 9)
  {
    Pow2Monotone(shift + k, shift + 9);
  }

  lemma WalkBelow(f: First, img: seq<Section>, base: nat, limit: nat, x: nat)
    requires Narrow(f.table, f.level, f.k) && Pow2(f.k) <= |f.table.slots|
    requires Stands(img, f.table, f.level, Pow2(f.k)) && Loaded(img, base, limit) && GoodEntries(Leaves(f.table))
    requires x < Pow2(f.VaMax())
    ensures HwWalk(img, base, AddressOf(img, base, LabelOf(f.table, f.level, 12)), f.level, limit, x) ==
      Limited(Walk(f.table, x, 9), limit, x)
  {
    KeptSlot(f.table, f.k, x);
    HwWalkRefinesWalk(img, base, limit, f.table, f.level, Pow2(f.k), x);
  }

  lemma KeptSlot(t: Tree, k: nat, x: nat)
    requires Span(t, 9) == 0 && k <= 9 && x < Pow2(t.shift + k)
    ensures Index(x, t.shift, 9) < Pow2(k)
  {
    BelowSpan(t.shift, k, x);
    SlotOfAddress(t, x, k);
  }

  /** Hardware reads from the register the address size and the start level of f. */
  predicate RegisterSays(tcr: int, f: First, register: Register) {
    && tcr >= 0 && Field(tcr, 14, 2) == 0 && 64 - Field(tcr, 0, 6) == f.VaMax()
    && f.level == if register.VtcrEl2? then Stage2StartLevel(Field(tcr, 6, 2)) else StartLevel(f.VaMax())
  }

  lemma StartLevelAgrees(f: First, ps: nat, register: Register)
    requires Narrow(f.table, f.level, f.k) && ps <= 6 && f.level <= 2
    ensures RegisterSays(TcrValue(12, f.level, f.VaMax(), ps, register.VtcrEl2?), f, register)
  {
    TcrReadBack(12, f.level, f.VaMax(), ps, register.VtcrEl2?);
  }

  /** The outputs of generate: the image of the chosen table, and a register that describes it unless the level is 3. */
  lemma OutputParts(t: Tree, maxPa: nat, mode: Option<string>, o: Output, f: First)
    requires Narrow(t, 0, 9) && GenerateOutput(t, maxPa, 12, mode) == Success(o)
    requires Shrink(t, 0, 9, 9, mode) == Success(f)
    ensures Narrow(f.table, f.level, f.k) && Pow2(f.k) <= |f.table.slots|
    ensures f.level == 3 ==> mode == Some("stage2")
    ensures UniqueLabels(o.image) && Stands(o.image, f.table, f.level, Pow2(f.k))
    ensures o.first == LabelOf(f.table, f.level, 12)
    ensures if f.level == 3 then o.tcr < 0 else RegisterSays(o.tcr, f, RegisterOf(mode))
  {
    ShrinkResult(t, 0, 9, mode);
    EmittedStands(f);
    if f.level == 3 {
      ShrinkDepth(t, 0, 9, mode);
      NegativeTcr(f.VaMax(), PsOf(maxPa).value);
    } else {
      StartLevelAgrees(f, PsOf(maxPa).value, RegisterOf(mode));
    }
  }

  lemma TranslateStart(f: First, img: seq<Section>, base: nat, table: nat, tcr: int, register: Register, x: nat)
    requires f.level <= 3 && RegisterSays(tcr, f, register)
    ensures HwTranslate(img, base, table, tcr, register, x) ==
      if x < Pow2(f.VaMax()) then HwWalk(img, base, table, f.level, PhysicalLimit(tcr, register), x) else Fault
  {
  }

  /** The walk over the image, started as the register says, finds what the chosen table translates. */
  lemma TranslateBelow(f: First, img: seq<Section>, base: nat, tcr: int, register: Register, limit: nat, x: nat)
    requires Narrow(f.table, f.level, f.k) && Pow2(f.k) <= |f.table.slots|
    requires Stands(img, f.table, f.level, Pow2(f.k)) && Loaded(img, base, limit) && GoodEntries(Leaves(f.table))
    requires RegisterSays(tcr, f, register) && limit == PhysicalLimit(tcr, register)
    ensures HwTranslate(img, base, AddressOf(img, base, LabelOf(f.table, f.level, 12)), tcr, register, x) ==
      if x < Pow2(f.VaMax()) then Limited(Walk(f.table, x, 9), limit, x) else Fault
  {
    TranslateStart(f, img, base, AddressOf(img, base, LabelOf(f.table, f.level, 12)), tcr, register, x);
    if x < Pow2(f.VaMax()) {
      WalkBelow(f, img, base, limit, x);
    }
  }

  lemma RootIsNarrow(t: Tree)
    requires IsRoot(t) && Inhabited(t)
    ensures Narrow(t, 0, 9)
  {
  }

  /**
   The page walk over the emitted image, started as the control register says, translates every address
   below 2^48 as the full tree does, and faults where the tree maps nothing or a leaf lies beyond the physical size.
   */
  lemma GenerateRefinesTree(t: Tree, maxPa: nat, mode: Option<string>, base: nat, o: Output, x: nat)
    requires IsRoot(t) && Inhabited(t) && GoodEntries(Leaves(t)) && x < ADDRESSES
    requires GenerateOutput(t, maxPa, 12, mode) == Success(o) && o.tcr >= 0
    requires Loaded(o.image, base, PhysicalLimit(o.tcr, RegisterOf(mode)))
    ensures HwTranslate(o.image, base, AddressOf(o.image, base, o.first), o.tcr, RegisterOf(mode), x) ==
      Limited(Walk(t, x, 9), PhysicalLimit(o.tcr, RegisterOf(mode)), x)
  {
    RootIsNarrow(t);
    var f := Shrink(t, 0, 9, 9, mode).value;
    OutputParts(t, maxPa, mode, o, f);
    FirstRefinesTree(t, f, mode, base, o, PhysicalLimit(o.tcr, RegisterOf(mode)), x);
  }

  lemma FirstRefinesTree(t: Tree, f: First, mode: Option<string>, base: nat, o: Output, limit: nat, x: nat)
    requires Narrow(t, 0, 9) && GoodEntries(Leaves(t)) && x < ADDRESSES && Shrink(t, 0, 9, 9, mode) == Success(f)
    requires Narrow(f.table, f.level, f.k) && Pow2(f.k) <= |f.table.slots|
    requires Stands(o.image, f.table, f.level, Pow2(f.k)) && Loaded(o.image, base, limit)
    requires o.first == LabelOf(f.table, f.level, 12) && RegisterSays(o.tcr, f, RegisterOf(mode))
    requires limit == PhysicalLimit(o.tcr, RegisterOf(mode))
    ensures HwTranslate(o.image, base, AddressOf(o.image, base, o.first), o.tcr, RegisterOf(mode), x) ==
      Limited(Walk(t, x, 9), limit, x)
  {
    assert x < Pow2(48) by { Powers(); }
    ShrinkKeepsWalk(t, 0, 9, mode, x);
    ShrinkLeaves(t, 0, 9, mode);
    TranslateBelow(f, o.image, base, o.tcr, RegisterOf(mode), limit, x);
  }

  lemma {:induction false} ShrinkDepth(t: Tree, level: nat, k: nat, mode: Option<string>)
    requires Narrow(t, level, k) && Shrink(t, level, k, 9, mode).Success?
    requires DeepestLevel(mode).Some? ==> level <= DeepestLevel(mode).value
    ensures var f := Shrink(t, level, k, 9, mode).value;
      f.level == level || (DeepestLevel(mode).Some? && f.level <= DeepestLevel(mode).value)
    decreases t.shift, k
  {
    if UpperHalfUsed(t.slots, k) || (k == 1 && DeepestLevel(mode) == Some(level)) {
    } else if k > 1 {
      ShrinkDepth(t, level, k - 1, mode);
    } else {
      DescendNarrow(t, level);
      ShrinkDepth(t.slots[0].table, level + 1, 9, mode);
    }
  }

  lemma {:induction false} ShrinkLeaves(t: Tree, level: nat, k: nat, mode: Option<string>)
    requires Narrow(t, level, k) && Shrink(t, level, k, 9, mode).Success?
    ensures Leaves(Shrink(t, level, k, 9, mode).value.table) <= Leaves(t)
    decreases t.shift, k
  {
    if UpperHalfUsed(t.slots, k) || (k == 1 && DeepestLevel(mode) == Some(level)) {
    } else if k > 1 {
      ShrinkLeaves(t, level, k - 1, mode);
    } else {
      DescendNarrow(t, level);
      ShrinkLeaves(t.slots[0].table, level + 1, 9, mode);
      LeafIn(t.slots, 0);
    }
  }

  /** The register value is usable in every mode except stage 2 with nothing mapped at or above 2 MB. */
  lemma TcrUsableExactly(t: Tree, maxPa: nat, mode: Option<string>, o: Output)
    requires IsRoot(t) && Inhabited(t) && GenerateOutput(t, maxPa, 12, mode) == Success(o)
    ensures o.tcr >= 0
        <==> mode != Some("stage2") || MapsFrom(t, Pow2(21))
  {
    RootIsNarrow(t);
    var f := Shrink(t, 0, 9, 9, mode).value;
    OutputParts(t, maxPa, mode, o, f);
    DeepestMapsLittle(t, f, mode);
  }

  /** The first table is at level 3 only for stage 2 with nothing mapped at or above 2 MB. */
  lemma DeepestMapsLittle(t: Tree, f: First, mode: Option<string>)
    requires Narrow(t, 0, 9) && Shrink(t, 0, 9, 9, mode) == Success(f) && Narrow(f.table, f.level, f.k)
    requires f.level == 3 ==> mode == Some("stage2")
    ensures f.level < 3
        <==> mode != Some("stage2") || MapsFrom(t, Pow2(21))
  {
    assert Pow2(48) == ADDRESSES by { Powers(); }
    if f.level == 3 {
      NothingHigh(t, f, mode);
    } else if mode == Some("stage2") {
      var x := HighAddress(t, f, mode);
    }
  }

  lemma NothingHigh(t: Tree, f: First, mode: Option<string>)
    requires Narrow(t, 0, 9) && Shrink(t, 0, 9, 9, mode) == Success(f) && f.level == 3
    ensures forall x: nat :: Pow2(21) <= x < Pow2(48) ==> Walk(t, x, 9) == None
  {
    ShrinkResult(t, 0, 9, mode);
    Pow2Monotone(f.VaMax(), 21);
    forall x: nat | Pow2(21) <= x < Pow2(48) ensures Walk(t, x, 9) == None {
      ShrinkKeepsWalk(t, 0, 9, mode, x);
    }
  }

  /** The register says at most bits address bits if and only if nothing is mapped at or above 2^bits. */
  lemma SpaceExactly(t: Tree, maxPa: nat, mode: Option<string>, o: Output, bits: nat)
    requires IsRoot(t) && GenerateOutput(t, maxPa, 12, mode) == Success(o) && o.tcr >= 0 && 22 <= bits <= 48
    ensures 64 - Field(o.tcr, 0, 6) <= bits <==> !MapsFrom(t, Pow2(bits))
  {
    SuccessIsInhabited(t, maxPa, mode);
    RootIsNarrow(t);
    var f := Shrink(t, 0, 9, 9, mode).value;
    OutputParts(t, maxPa, mode, o, f);
    assert Pow2(48) == ADDRESSES by { Powers(); }
    if f.VaMax() <= bits {
      NothingFrom(t, f, mode, f.VaMax(), bits);
    } else {
      var x := TopAddress(t, f, mode, bits);
    }
  }

  lemma NothingFrom(t: Tree, f: First, mode: Option<string>, vaMax: nat, bits: nat)
    requires Narrow(t, 0, 9) && Shrink(t, 0, 9, 9, mode) == Success(f) && vaMax == f.VaMax() && vaMax <= bits
    ensures forall x: nat :: Pow2(bits) <= x < Pow2(48) ==> Walk(t, x, 9) == None
  {
    Pow2Monotone(vaMax, bits);
    forall x: nat | Pow2(bits) <= x < Pow2(48) ensures Walk(t, x, 9) == None {
      ShrinkKeepsWalk(t, 0, 9, mode, x);
    }
  }

  lemma TopAddress(t: Tree, f: First, mode: Option<string>, bits: nat) returns (x: nat)
    requires Narrow(t, 0, 9) && Shrink(t, 0, 9, 9, mode) == Success(f) && f.VaMax() > bits >= 22 && f.level <= 2
    ensures Pow2(bits) <= x < Pow2(48) && Walk(t, x, 9).Some?
  {
    ShrinkResult(t, 0, 9, mode);
    var vaMax := f.VaMax();
    x := HighInTable(f.table, f.level, f.k, f.k - 1, vaMax, bits);
    FromFirst(t, f, mode, vaMax, x);
  }

  lemma HighInTable(t: Tree, level: nat, k: nat, half: nat, vaMax: nat, bits: nat) returns (x: nat)
    requires Narrow(t, level, k) && level <= 2 && vaMax == t.shift + k > bits >= 22 && half + 1 == k
    requires Pow2(k) <= |t.slots| && (UpperHalfUsed(t.slots, k) || (k == 1 && level == 2))
    ensures Pow2(bits) <= x < Pow2(vaMax) && Walk(t, x, 9).Some?
  {
    x := TopSlotAddress(t, level, k, half);
    Pow2Monotone(bits, t.shift + half);
  }

  /** What the first table translates, the full tree translates. */
  lemma FromFirst(t: Tree, f: First, mode: Option<string>, vaMax: nat, x: nat)
    requires Narrow(t, 0, 9) && Shrink(t, 0, 9, 9, mode) == Success(f) && vaMax == f.VaMax() <= 48
    requires x < Pow2(vaMax) && Walk(f.table, x, 9).Some?
    ensures x < Pow2(48) && Walk(t, x, 9).Some?
  {
    Pow2Monotone(vaMax, 48);
    ShrinkKeepsWalk(t, 0, 9, mode, x);
  }

  lemma TopSlotAddress(t: Tree, level: nat, k: nat, half: nat) returns (x: nat)
    requires Narrow(t, level, k) && Pow2(k) <= |t.slots| && UpperHalfUsed(t.slots, k) && half + 1 == k
    ensures Pow2(t.shift + half) <= x < Pow2(t.shift + k) && Walk(t, x, 9).Some?
  {
    assert half == k - 1;
    var i :| Pow2(half) <= i < Pow2(k) && t.slots[i] != Empty;
    x := UsedSlotTranslates(t, level, k, i);
    BelowTop(t, level, k, x);
    AboveHalf(t, x, half);
  }

  lemma AboveHalf(t: Tree, x: nat, half: nat)
    requires Span(t, 9) == 0 && x < Pow2(t.shift + 9) && half <= 9 && Index(x, t.shift, 9) >= Pow2(half)
    ensures x >= Pow2(t.shift + half)
  {
    SlotOfAddress(t, x, half);
  }

  lemma HighAddress(t: Tree, f: First, mode: Option<string>) returns (x: nat)
    requires Narrow(t, 0, 9) && mode == Some("stage2") && Shrink(t, 0, 9, 9, mode) == Success(f) && f.level <= 2
    ensures Pow2(21) <= x < Pow2(48) && Walk(t, x, 9).Some?
  {
    ShrinkResult(t, 0, 9, mode);
    x := UpperHalfAddress(f);
    Pow2Monotone(21, f.table.shift);
    FromFirst(t, f, mode, f.VaMax(), x);
  }

  lemma UpperHalfAddress(f: First) returns (x: nat)
    requires Narrow(f.table, f.level, f.k) && f.level <= 2
    requires Pow2(f.k) <= |f.table.slots| && UpperHalfUsed(f.table.slots, f.k)
    ensures Pow2(f.table.shift) <= x < Pow2(f.VaMax()) && Walk(f.table, x, 9).Some?
  {
    x := UsedUpperHalf(f.table, f.level, f.k);
  }

  lemma UsedUpperHalf(t: Tree, level: nat, k: nat) returns (x: nat)
    requires Narrow(t, level, k) && level <= 2 && Pow2(k) <= |t.slots| && UpperHalfUsed(t.slots, k)
    ensures Pow2(t.shift) <= x < Pow2(t.shift + k) && Walk(t, x, 9).Some?
  {
    var i :| Pow2(k - 1) <= i < Pow2(k) && t.slots[i] != Empty;
    x := UsedSlotTranslates(t, level, k, i);
    BelowTop(t, level, k, x);
  }

  lemma BelowTop(t: Tree, level: nat, k: nat, x: nat)
    requires Narrow(t, level, k) && x < Pow2(t.shift + 9) && Walk(t, x, 9).Some?
    ensures x < Pow2(t.shift + k)
  {
    if x >= Pow2(t.shift + k) {
      NothingAbove(t, level, k, x);
    }
  }

  lemma {:induction false} EmptyFails(t: Tree, level: nat, k: nat, n: nat, mode: Option<string>)
    requires 1 <= k <= n && Shaped(t, n) && !Inhabited(t) && level < 2
    ensures Shrink(t, level, k, n, mode).Failure?
    decreases k
  {
    Pow2Monotone(k, n);
    if k > 1 {
      EmptyFails(t, level, k - 1, n, mode);
    }
  }

  lemma SuccessIsInhabited(t: Tree, maxPa: nat, mode: Option<string>)
    requires Shaped(t, 9) && GenerateOutput(t, maxPa, 12, mode).Success?
    ensures Inhabited(t)
  {
    if !Inhabited(t) {
      EmptyFails(t, 0, 9, 9, mode);
    }
  }

  /**
   In what generate prints, every label that a word refers to, and the label of the first table, is defined by
   exactly one table, although half of the first table's slots may have been dropped.
   */
  lemma LabelsDefinedOnce(t: Tree, maxPa: nat, mode: Option<string>, o: Output)
    requires IsRoot(t) && GenerateOutput(t, maxPa, 12, mode) == Success(o)
    ensures DefinedOnce(o.first, o.image)
    ensures forall s, w :: s in o.image && w in s.words && w.Pointer? ==> DefinedOnce(w.symbol, o.image)
  {
    SuccessIsInhabited(t, maxPa, mode);
    RootIsNarrow(t);
    var f := Shrink(t, 0, 9, 9, mode).value;
    OutputParts(t, maxPa, mode, o, f);
    LabelsOf(Truncate(f), f.level, o.image);
  }

  lemma LabelsOf(t: Tree, level: nat, img: seq<Section>)
    requires img == Emit(t, level, 12) && UniqueLabels(img)
    ensures DefinedOnce(LabelOf(t, level, 12), img)
    ensures forall s, w :: s in img && w in s.words && w.Pointer? ==> DefinedOnce(w.symbol, img)
  {
    EmitClosed(t, level, 12);
    assert img[|img| - 1].symbol == LabelOf(t, level, 12);
    forall s, w | s in img && w in s.words && w.Pointer? ensures DefinedOnce(w.symbol, img) {
      ReferencesDefinedOnce(img, s, w);
    }
  }

  lemma UniqueInOutput(t: Tree, maxPa: nat, mode: Option<string>, o: Output)
    requires IsRoot(t) && Inhabited(t) && GenerateOutput(t, maxPa, 12, mode) == Success(o)
    ensures UniqueLabels(o.image)
  {
    RootIsNarrow(t);
    OutputParts(t, maxPa, mode, o, Shrink(t, 0, 9, 9, mode).value);
  }

  /** The register value has nothing but T0SZ, SL0 in stage 2, and the size; TG0 is 0. */
  lemma OnlyFields(t: Tree, maxPa: nat, mode: Option<string>, o: Output)
    requires IsRoot(t) && GenerateOutput(t, maxPa, 12, mode) == Success(o) && o.tcr >= 0
    ensures o.tcr == Field(o.tcr, 16, 3) * 0x1_0000 + Field(o.tcr, 6, 2) * 0x40 + Field(o.tcr, 0, 6)
    ensures mode != Some("stage2") ==> Field(o.tcr, 6, 2) == 0
  {
    SuccessIsInhabited(t, maxPa, mode);
    RootIsNarrow(t);
    var f := Shrink(t, 0, 9, 9, mode).value;
    OutputParts(t, maxPa, mode, o, f);
    ValueIsSum(f.level, f.VaMax(), PsOf(maxPa).value, mode == Some("stage2"), o.tcr);
  }

  /** Hardware reads the size chosen for max_pa from TCR_EL2 and VTCR_EL2, and 0 from TCR_EL1. */
  lemma SizeOfOutput(t: Tree, maxPa: nat, mode: Option<string>, o: Output)
    requires IsRoot(t) && GenerateOutput(t, maxPa, 12, mode) == Success(o) && o.tcr >= 0
    ensures PsOf(maxPa) == Some(Field(o.tcr, 16, 3)) && Field(o.tcr, 16, 3) <= 6
    ensures SizeField(o.tcr, RegisterOf(mode)) == if RegisterOf(mode).TcrEl1? then 0 else Field(o.tcr, 16, 3)
  {
    SuccessIsInhabited(t, maxPa, mode);
    RootIsNarrow(t);
    var f := Shrink(t, 0, 9, 9, mode).value;
    OutputParts(t, maxPa, mode, o, f);
    TcrReadBack(12, f.level, f.VaMax(), PsOf(maxPa).value, mode == Some("stage2"));
    if RegisterOf(mode).TcrEl1? {
      El1Fields(f.level, f.VaMax(), PsOf(maxPa).value);
    }
  }

  /** For a mode without a deepest level, a slot other than slot 0 must be in use. */
  lemma {:induction false} UnknownMode(t: Tree, k: nat, mode: Option<string>)
    requires Narrow(t, 0, k) && DeepestLevel(mode) == None
    ensures Shrink(t, 0, k, 9, mode).Success? <==> exists i :: 1 <= i < |t.slots| && t.slots[i] != Empty
    decreases k
  {
    if UpperHalfUsed(t.slots, k) {
      var i :| Pow2(k - 1) <= i < Pow2(k) && t.slots[i] != Empty;
    } else if k > 1 {
      UnknownMode(t, k - 1, mode);
    } else {
      HalveToOne(t, 0);
    }
  }

  lemma SlotsAboveZero(t: Tree)
    requires IsRoot(t) && Inhabited(t)
    ensures (exists i :: 1 <= i < |t.slots| && t.slots[i] != Empty)
        <==> MapsFrom(t, Pow2(39))
  {
    assert Pow2(48) == ADDRESSES by { Powers(); }
    if i :| 1 <= i < |t.slots| && t.slots[i] != Empty {
      var x := UsedSlotTranslates(t, 0, 9, i);
    }
    if x: nat :| Pow2(39) <= x < ADDRESSES && Walk(t, x, 9).Some? {
      HighSlot(t, x);
    }
  }

  lemma HighSlot(t: Tree, x: nat)
    requires IsRoot(t) && Pow2(39) <= x < Pow2(48) && Walk(t, x, 9).Some?
    ensures exists i :: 1 <= i < |t.slots| && t.slots[i] != Empty
  {
    var i := SlotUsed(t, x, t.shift);
  }

  lemma SlotUsed(t: Tree, x: nat, shift: nat) returns (i: nat)
    requires IsRoot(t) && shift == t.shift && Pow2(shift) <= x < Pow2(shift + 9) && Walk(t, x, 9).Some?
    ensures 1 <= i < |t.slots| && t.slots[i] != Empty
  {
    SlotOfAddress(t, x, 0);
    i := Index(x, t.shift, 9);
  }

  /** generate needs a first table and a physical size. */
  lemma NeedsTableAndSize(t: Tree, maxPa: nat, mode: Option<string>)
    requires Shaped(t, 9)
    ensures GenerateOutput(t, maxPa, 12, mode).Success? <==> Shrink(t, 0, 9, 9, mode).Success? && PsOf(maxPa).Some?
  {
  }

  lemma TableWithMode(t: Tree, mode: Option<string>)
    requires IsRoot(t) && DeepestLevel(mode).Some?
    ensures Shrink(t, 0, 9, 9, mode).Success? <==> Inhabited(t) && !LoneBlock(t, 39 - 9 * DeepestLevel(mode).value)
  {
    if Inhabited(t) {
      ShrinkFailsExactly(t, 0, 9, mode);
    } else {
      EmptyFails(t, 0, 9, 9, mode);
    }
  }

  lemma TableWithoutMode(t: Tree, mode: Option<string>)
    requires IsRoot(t) && DeepestLevel(mode) == None
    ensures Shrink(t, 0, 9, 9, mode).Success?
        <==> Inhabited(t) && MapsFrom(t, Pow2(39))
  {
    if Inhabited(t) {
      UnknownMode(t, 9, mode);
      SlotsAboveZero(t);
    } else {
      EmptyFails(t, 0, 9, 9, mode);
    }
  }

  /** The loop that looks for the first table ends at one. */
  ghost predicate CanStart(t: Tree, mode: Option<string>)
    requires Shaped(t, 9)
  {
    match DeepestLevel(mode)
    case Some(deepest) => !LoneBlock(t, 39 - 9 * deepest)
    case None => MapsFrom(t, Pow2(39))
  }

  /** Something is mapped at or above an address. */
  ghost predicate MapsFrom(t: Tree, bound: nat)
    requires Shaped(t, 9)
  {
    exists x: nat :: bound <= x < ADDRESSES && Walk(t, x, 9).Some?
  }

  /**
   generate succeeds exactly if something is mapped, the physical addresses have a size, and
   - for el1, el2 and stage2: the map is not a single block at address 0 larger than the deepest first
     level's slots;
   - for any other mode, and for no mode at all: something is mapped at or above 2^39.
   */
  lemma GenerateSucceedsExactly(t: Tree, maxPa: nat, mode: Option<string>)
    requires IsRoot(t)
    ensures GenerateOutput(t, maxPa, 12, mode).Success?
        <==> Inhabited(t) && PsOf(maxPa).Some? && CanStart(t, mode)
  {
    NeedsTableAndSize(t, maxPa, mode);
    if DeepestLevel(mode).Some? {
      TableWithMode(t, mode);
    } else {
      TableWithoutMode(t, mode);
    }
  }
}
