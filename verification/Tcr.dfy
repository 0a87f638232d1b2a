/** set_tcr and the growth of max_pa: the value of the translation control register and what hardware reads from it. */
module Tcr {
  import opened Bits
  import opened Wrappers
  import opened PageTree
  import opened Descriptors
  import opened Regions
  import opened RegionMap
  import opened Build

  /** max_pa with as many one bits shifted in as it takes to reach pa. */
  function Grow(maxPa: nat, pa: nat): nat
    decreases pa - maxPa
  {
    if pa > maxPa then Grow(2 * maxPa + 1, pa) else maxPa
  }

  function GrowAll(maxPa: nat, es: seq<Entry>): nat
    decreases |es|
  {
    if es == [] then maxPa else GrowAll(Grow(maxPa, es[0].pa), es[1..])
  }

  /** max_pa after the insertion of a region. */
  function GrowJob(maxPa: nat, j: Job, g: nat): nat
    requires g >= 12
  {
    if j.attributes.Success? then GrowAll(maxPa, Cut(j.region, j.attributes.value, g, j.region.virt)) else maxPa
  }

  /** The loop of insert from address va on: the tables and max_pa after it, or its error. */
  function FillFrom(t: Tree, maxPa: nat, r: Region, a: Attributes, g: nat, va: nat): Result<(Tree, nat), InsertError>
    requires g >= 12 && Shaped(t, g - 3) && r.virt <= va
    decreases r.virt + r.size - va
  {
    if va < r.virt + r.size then
      var e := Piece(r, a, g, va);
      var t' :- InsertEntry(t, e, g - 3);
      FillFrom(t', Grow(maxPa, e.pa), r, a, g, va + Pow2(e.log2Size))
    else Success((t, maxPa))
  }

  /** The variables of the loop of insert. */
  datatype LoopState = LoopState(t: Tree, maxPa: nat, va: nat)

  /** One round of the loop. */
  predicate Round(r: Region, a: Attributes, g: nat, s: LoopState, s': LoopState)
    requires g >= 12
  {
    && Shaped(s.t, g - 3) && r.virt <= s.va < r.virt + r.size
    && var e := Piece(r, a, g, s.va);
       InsertEntry(s.t, e, g - 3) == Success(s'.t) && s'.maxPa == Grow(s.maxPa, e.pa)
       && s'.va == s.va + Pow2(e.log2Size)
  }

  /** The loop cannot insert its next leaf. */
  predicate Stuck(r: Region, a: Attributes, g: nat, s: LoopState, error: InsertError)
    requires g >= 12
  {
    && Shaped(s.t, g - 3) && r.virt <= s.va < r.virt + r.size
    && InsertEntry(s.t, Piece(r, a, g, s.va), g - 3) == Failure(error)
  }

  /** A run of the loop, state by state. */
  predicate Rounds(r: Region, a: Attributes, g: nat, trace: seq<LoopState>)
    requires g >= 12
  {
    forall i :: 0 <= i < |trace| - 1 ==> Round(r, a, g, trace[i], trace[i + 1])
  }

  lemma OneMoreRound(r: Region, a: Attributes, g: nat, trace: seq<LoopState>, s: LoopState)
    requires g >= 12 && trace != [] && Rounds(r, a, g, trace) && Round(r, a, g, trace[|trace| - 1], s)
    ensures Rounds(r, a, g, trace + [s])
  {
  }

  lemma {:induction false} RoundsFill(r: Region, a: Attributes, g: nat, trace: seq<LoopState>)
    requires g >= 12 && trace != [] && Shaped(trace[0].t, g - 3) && r.virt <= trace[0].va
    requires Rounds(r, a, g, trace)
    ensures var first, last := trace[0], trace[|trace| - 1];
      && Shaped(last.t, g - 3) && r.virt <= last.va
      && FillFrom(first.t, first.maxPa, r, a, g, first.va) == FillFrom(last.t, last.maxPa, r, a, g, last.va)
  {
    if |trace| > 1 {
      assert Round(r, a, g, trace[0], trace[1]);
      RoundsFill(r, a, g, trace[1..]);
    }
  }

  lemma RoundsToEnd(r: Region, a: Attributes, g: nat, trace: seq<LoopState>)
    requires g >= 12 && trace != [] && Shaped(trace[0].t, g - 3) && r.virt <= trace[0].va
    requires Rounds(r, a, g, trace)
    requires trace[|trace| - 1].va >= r.virt + r.size
    ensures var first, last := trace[0], trace[|trace| - 1];
      FillFrom(first.t, first.maxPa, r, a, g, first.va) == Success((last.t, last.maxPa))
  {
    RoundsFill(r, a, g, trace);
  }

  lemma RoundsThenError(r: Region, a: Attributes, g: nat, trace: seq<LoopState>, error: InsertError)
    requires g >= 12 && trace != [] && Shaped(trace[0].t, g - 3) && r.virt <= trace[0].va
    requires Rounds(r, a, g, trace)
    requires Stuck(r, a, g, trace[|trace| - 1], error)
    ensures FillFrom(trace[0].t, trace[0].maxPa, r, a, g, trace[0].va) == Failure(error)
  {
    RoundsFill(r, a, g, trace);
  }

  /** The loop makes the leaves of the region, one after the other. */
  lemma {:induction false} FillIsInsertAll(t: Tree, maxPa: nat, r: Region, a: Attributes, g: nat, va: nat)
    requires g >= 12 && Shaped(t, g - 3) && r.virt <= va
    ensures FillFrom(t, maxPa, r, a, g, va) ==
      match InsertAll(t, Cut(r, a, g, va), g - 3)
      case Success(t') => Success((t', GrowAll(maxPa, Cut(r, a, g, va))))
      case Failure(e) => Failure(e)
    decreases r.virt + r.size - va
  {
    if va < r.virt + r.size {
      var e := Piece(r, a, g, va);
      var rest := Cut(r, a, g, va + Pow2(e.log2Size));
      assert Cut(r, a, g, va) == [e] + rest;
      assert ([e] + rest)[1..] == rest;
      if InsertEntry(t, e, g - 3).Success? {
        FillIsInsertAll(InsertEntry(t, e, g - 3).value, Grow(maxPa, e.pa), r, a, g, va + Pow2(e.log2Size));
      }
    }
  }

  /** The loop has the effect, or the error, of inserting the region. */
  lemma FillIsInsertRegion(t: Tree, maxPa: nat, j: Job, g: nat)
    requires g >= 12 && Shaped(t, g - 3) && j.attributes.Success?
    ensures var after := FillFrom(t, maxPa, j.region, j.attributes.value, g, j.region.virt);
      if after.Success?
      then InsertRegion(t, j, g) == Success(after.value.0) && GrowJob(maxPa, j, g) == after.value.1
      else InsertRegion(t, j, g) == Failure(ErrorOf(after.error))
  {
    FillIsInsertAll(t, maxPa, j.region, j.attributes.value, g, j.region.virt);
  }

  /** The number of physical address bits: maxPa is 2^k - 1 for the least k >= from that covers every address. */
  ghost predicate Tight(maxPa: nat, k: nat, from: nat, pas: set<nat>) {
    && k >= from && maxPa == Pow2(k) - 1
    && (forall pa :: pa in pas ==> pa <= maxPa)
    && (k > from ==> exists pa :: pa in pas && pa >= Pow2(k - 1))
  }

  lemma {:induction false} GrowTight(maxPa: nat, pa: nat, k: nat, from: nat, pas: set<nat>) returns (k': nat)
    requires Tight(maxPa, k, from, pas)
    ensures Tight(Grow(maxPa, pa), k', from, pas + {pa})
    decreases pa - maxPa
  {
    if pa > maxPa {
      k' := GrowBeyond(maxPa, pa, k, from);
      Pow2Monotone(k, k');
    } else {
      k' := k;
    }
  }

  lemma {:induction false} GrowBeyond(maxPa: nat, pa: nat, k: nat, from: nat) returns (k': nat)
    requires maxPa == Pow2(k) - 1 && pa > maxPa && k >= from
    ensures k' > k && Grow(maxPa, pa) == Pow2(k') - 1 && Pow2(k' - 1) <= pa < Pow2(k')
    decreases pa - maxPa
  {
    if pa > 2 * maxPa + 1 {
      k' := GrowBeyond(2 * maxPa + 1, pa, k + 1, from);
    } else {
      k' := k + 1;
    }
  }

  function Addresses(es: seq<Entry>): set<nat> {
    set e | e in es :: e.pa
  }

  /** max_pa after the insertions es, starting from a tight value. */
  lemma {:induction false} GrowAllTight(maxPa: nat, es: seq<Entry>, k: nat, from: nat, pas: set<nat>) returns (k': nat)
    requires Tight(maxPa, k, from, pas)
    ensures Tight(GrowAll(maxPa, es), k', from, pas + Addresses(es))
    decreases |es|
  {
    if es == [] {
      k' := k;
      assert pas + Addresses(es) == pas;
    } else {
      var k1 := GrowTight(maxPa, es[0].pa, k, from, pas);
      k' := GrowAllTight(Grow(maxPa, es[0].pa), es[1..], k1, from, pas + {es[0].pa});
      assert es == [es[0]] + es[1..];
      assert pas + Addresses(es) == pas + {es[0].pa} + Addresses(es[1..]);
    }
  }

  /** The PS value that set_tcr chooses; beyond the last one Python raises UnboundLocalError. */
  function PsOf(maxPa: nat): Option<nat> {
    if maxPa <= 0xFFFF_FFFF then Some(0)
    else if maxPa <= 0xF_FFFF_FFFF then Some(1)
    else if maxPa <= 0xFF_FFFF_FFFF then Some(2)
    else if maxPa <= 0x3FF_FFFF_FFFF then Some(3)
    else if maxPa <= 0xFFF_FFFF_FFFF then Some(4)
    else if maxPa <= 0xFFFF_FFFF_FFFF then Some(5)
    else if maxPa <= 0xF_FFFF_FFFF_FFFF then Some(6)
    else None
  }

  /** The physical address bits that a PS value stands for (Arm DDI 0487, TCR_EL2.PS, with the same encoding as TCR_EL1.IPS). */
  function PhysicalBits(ps: nat): nat
    requires ps <= 6
  {
    if ps == 0 then 32 else if ps == 1 then 36 else if ps == 2 then 40 else if ps == 3 then 42
    else if ps == 4 then 44 else if ps == 5 then 48 else 52
  }

  /** Some of the addresses needs more than that many bits. */
  ghost predicate SomeBeyond(pas: set<nat>, bits: nat) {
    exists pa :: pa in pas && pa >= Pow2(bits)
  }

  /** For every max_pa, not only those that insert leaves: the least PS whose addresses reach it. */
  lemma PsExactly(maxPa: nat)
    ensures PsOf(maxPa).Some? <==> maxPa < Pow2(52)
    ensures PsOf(maxPa).Some? ==> maxPa < Pow2(PhysicalBits(PsOf(maxPa).value))
    ensures PsOf(maxPa).Some? ==> forall q: nat :: q < PsOf(maxPa).value ==> maxPa >= Pow2(PhysicalBits(q))
  {
    Powers();
  }

  /**
   The chosen PS covers every byte that a leaf maps to, and no smaller PS covers every physical address.
   There is no PS exactly if some address needs more than 52 bits.
   */
  lemma PhysicalSizeExactly(maxPa: nat, k: nat, pas: set<nat>)
    requires Tight(maxPa, k, 32, pas)
    ensures PsOf(maxPa) == None <==> SomeBeyond(pas, 52)
    ensures PsOf(maxPa).Some? ==>
      var ps := PsOf(maxPa).value;
      && (forall pa :: pa in pas ==> pa < Pow2(PhysicalBits(ps)))
      && (forall q: nat :: q < ps ==> SomeBeyond(pas, PhysicalBits(q)))
  {
    Powers();
    BitsOrder(k);
    match PsOf(maxPa) {
      case None =>
        var pa :| pa in pas && pa >= Pow2(k - 1);
        Pow2Monotone(52, k - 1);
      case Some(ps) =>
        Pow2Monotone(k, PhysicalBits(ps));
        forall q: nat | q < ps ensures SomeBeyond(pas, PhysicalBits(q)) {
          var pa :| pa in pas && pa >= Pow2(k - 1);
          Pow2Monotone(PhysicalBits(q), k - 1);
        }
        Pow2Monotone(PhysicalBits(ps), 52);
    }
  }

  /** Comparing 2^k - 1 with the constants of set_tcr is comparing k with the number of bits. */
  lemma BitsOrder(k: nat)
    requires k >= 32
    ensures var ps := PsOf(Pow2(k) - 1);
      if ps == None then k > 52
      else k <= PhysicalBits(ps.value) && (ps.value > 0 ==> k > PhysicalBits(ps.value - 1))
  {
    Compare(k, 32, 0xFFFF_FFFF);
    Compare(k, 36, 0xF_FFFF_FFFF);
    Compare(k, 40, 0xFF_FFFF_FFFF);
    Compare(k, 42, 0x3FF_FFFF_FFFF);
    Compare(k, 44, 0xFFF_FFFF_FFFF);
    Compare(k, 48, 0xFFFF_FFFF_FFFF);
    Compare(k, 52, 0xF_FFFF_FFFF_FFFF);
  }

  lemma Compare(k: nat, bits: nat, limit: nat)
    requires (bits, limit) in {(32, 0xFFFF_FFFF), (36, 0xF_FFFF_FFFF), (40, 0xFF_FFFF_FFFF), (42, 0x3FF_FFFF_FFFF),
                               (44, 0xFFF_FFFF_FFFF), (48, 0xFFFF_FFFF_FFFF), (52, 0xF_FFFF_FFFF_FFFF)}
    ensures Pow2(k) - 1 <= limit <==> k <= bits
  {
    Powers();
    assert limit == Pow2(bits) - 1;
    if k <= bits {
      Pow2Monotone(k, bits);
    } else {
      Pow2Monotone(bits + 1, k);
    }
  }

  /** A leaf's output stays within every physical size that covers its address. */
  lemma OutputBelow(e: Entry, bits: nat)
    requires GoodAttributes(e.upper, e.lower) && 12 <= e.log2Size <= 30 && 32 <= bits && e.pa < Pow2(bits)
    ensures OutputAddress(Descriptor(e, 12), e.log2Size) + Pow2(e.log2Size) <= Pow2(bits)
  {
    DescriptorReadBack(e, 12);
    OutputIsFloor(e);
    LowAtMost(e.pa, 48);
    FloorBelow(Low(e.pa, 48), e.log2Size, bits);
  }

  /** set_tcr */
  function TcrValue(g: nat, level: nat, vaMax: nat, ps: nat, stage2: bool): int
    requires g in {12, 14, 16}
  {
    var tg := if g == 12 then 0 else if g == 16 then 1 else 2;
    var tcr := BitOr(BitOr(64 - vaMax, Shl(ps, 16)), Shl(tg, 14));
    if stage2 then BitOr(tcr, Shl(if g == 12 then 2 - level else 3 - level, 6)) else tcr
  }

  /** SL0 counts from the last level but one for 4 KB pages, and from the last for larger ones. */
  function StartLevelField(g: nat, level: nat, stage2: bool): nat
    requires level <= 2 || (level == 3 && g != 12)
  {
    if !stage2 then 0 else if g == 12 then 2 - level else 3 - level
  }

  /** TG0: 0 stands for 4 KB, 1 for 64 KB and 2 for 16 KB. */
  predicate IsGranule(field: nat, g: nat) {
    match field
    case 0 => g == 12
    case 1 => g == 16
    case _ => field == 2 && g == 14
  }

  lemma TcrSum(g: nat, level: nat, vaMax: nat, ps: nat, stage2: bool) returns (tg: nat, sl: nat)
    requires g in {12, 14, 16} && 13 <= vaMax <= 48 && ps <= 6 && (level <= 2 || (level == 3 && g != 12))
    ensures IsGranule(tg, g) && tg <= 2 && sl == StartLevelField(g, level, stage2) && sl <= 3
    ensures TcrValue(g, level, vaMax, ps, stage2) == Shl(ps, 16) + Shl(tg, 14) + sl * 0x40 + (64 - vaMax)
    ensures Shl(ps, 16) >= 0 && Low(Shl(ps, 16), 16) == 0 && Shl(tg, 14) == tg * 0x4000
  {
    tg, sl := if g == 12 then 0 else if g == 16 then 1 else 2, StartLevelField(g, level, stage2);
    assert Pow2(14) == 0x4000 && Pow2(6) == 0x40 by { Powers(); }
    var one := BitOr(64 - vaMax, Shl(ps, 16));
    WordSum(64 - vaMax, sl, tg, ps, one, BitOr(one, Shl(tg, 14)), 6, 14, 16);
  }

  /** Parts of a word that lie in different bits, from a and b on. */
  lemma TwoAbove(low: nat, mid: nat, high: nat, word: nat, a: nat, b: nat)
    requires a <= b && low < Pow2(a) && mid < Pow2(b) && Low(mid, a) == 0 && Low(high, b) == 0 && word == high + low
    ensures BitOr(word, mid) == high + mid + low && Low(high + mid, a) == 0
  {
    MultipleDown(high, a, b);
    OrAbove(low, high, mid, a);
    OrClear(mid, high, b);
    AddMultiple(high, mid, a);
  }

  lemma AboveBoth(mid: nat, high: nat, a: nat, b: nat, c: nat)
    requires a <= b <= c && Low(mid, b) == 0 && Low(high, c) == 0
    ensures Low(mid, a) == 0 && Low(high + mid, b) == 0 && Low(high, a) == 0
  {
    MultipleDown(mid, a, b);
    MultipleDown(high, b, c);
    MultipleDown(high, a, c);
    AddMultiple(high, mid, b);
  }

  lemma PartsSum(low: nat, mid: nat, tg: nat, high: nat, one: int, two: int, a: nat, b: nat, c: nat)
    requires a <= b <= c && low < Pow2(a) && mid < Pow2(b) && tg < Pow2(c)
    requires Low(mid, a) == 0 && Low(tg, a) == 0 && Low(high, a) == 0 && Low(high + tg, b) == 0 && Low(high, c) == 0
    requires one == BitOr(low, high) && two == BitOr(one, tg)
    ensures two == high + tg + low && BitOr(two, mid) == high + tg + mid + low
  {
    OrClear(low, high, a);
    TwoAbove(low, tg, high, one, a, c);
    TwoAbove(low, mid, high + tg, two, a, b);
  }

  lemma WordSum(low: nat, sl: nat, tg: nat, ps: nat, one: int, two: int, a: nat, b: nat, c: nat)
    requires low < Pow2(a) && sl < 4 && a + 2 <= b && tg < 4 && b + 2 <= c
    requires one == BitOr(low, Shl(ps, c)) && two == BitOr(one, Shl(tg, b))
    ensures two == Shl(ps, c) + Shl(tg, b) + low && BitOr(two, Shl(sl, a)) == Shl(ps, c) + Shl(tg, b) + Shl(sl, a) + low
    ensures Shl(ps, c) >= 0 && Low(Shl(ps, c), c) == 0 && Shl(tg, b) == tg * Pow2(b) && Shl(sl, a) == sl * Pow2(a)
  {
    Shifted(sl, a, b);
    Shifted(tg, b, c);
    ShlShr(ps, c, 0);
    AboveBoth(Shl(tg, b), Shl(ps, c), a, b, c);
    PartsSum(low, Shl(sl, a), Shl(tg, b), Shl(ps, c), one, two, a, b, c);
  }

  lemma Shifted(v: nat, pos: nat, top: nat)
    requires v < 4 && pos + 2 <= top
    ensures 0 <= Shl(v, pos) < Pow2(top) && Low(Shl(v, pos), pos) == 0 && Shl(v, pos) == v * Pow2(pos)
  {
    assert Pow2(2) == 4;
    ShlIsProduct(v, pos);
    ShlShr(v, pos, 0);
    ShlBound(v, pos, 2);
    Pow2Monotone(pos + 2, top);
  }

  /** Hardware reads back from the register what generate decided. */
  lemma TcrReadBack(g: nat, level: nat, vaMax: nat, ps: nat, stage2: bool)
    requires g in {12, 14, 16} && 13 <= vaMax <= 48 && ps <= 6 && (level <= 2 || (level == 3 && g != 12))
    ensures var tcr := TcrValue(g, level, vaMax, ps, stage2);
      && tcr >= 0
      && Field(tcr, 0, 6) == 64 - vaMax && Field(tcr, 6, 2) == StartLevelField(g, level, stage2)
      && IsGranule(Field(tcr, 14, 2), g) && Field(tcr, 16, 3) == ps
  {
    var tg, sl := TcrSum(g, level, vaMax, ps, stage2);
    FieldsOfSum(Shl(ps, 16), tg, sl, 64 - vaMax, TcrValue(g, level, vaMax, ps, stage2));
    TopField(ps, tg, sl, 64 - vaMax, TcrValue(g, level, vaMax, ps, stage2));
  }

  lemma FieldsOfSum(high: nat, tg: nat, sl: nat, low: nat, tcr: int)
    requires Low(high, 16) == 0 && tg <= 2 && sl <= 3 && low < 52 && tcr == high + Shl(tg, 14) + sl * 0x40 + low
    requires Shl(tg, 14) == tg * 0x4000
    ensures tcr >= 0 && Field(tcr, 0, 6) == low && Field(tcr, 6, 2) == sl && Field(tcr, 14, 2) == tg
  {
    assert Pow2(14) == 0x4000 by { Powers(); }
    assert Pow2(2) == 4;
    AboveBoth(Shl(tg, 14), high, 8, 14, 16) by { ShlShr(tg, 14, 0); }
    LowFields(high + Shl(tg, 14), sl, low, tcr);
    FieldAbove(high, BitField(tg, 14, 2), sl * 0x40 + low);
  }

  lemma LowFields(upper: nat, sl: nat, low: nat, tcr: nat)
    requires Low(upper, 14) == 0 && sl <= 3 && low < 52 && tcr == upper + sl * 0x40 + low
    ensures Field(tcr, 0, 6) == low && Field(tcr, 6, 2) == sl
  {
    assert Pow2(6) == 0x40 by { Powers(); }
    assert Pow2(0) == 1 && Pow2(2) == 4;
    MultipleDown(upper, 8, 14);
    MultipleDown(upper, 6, 14);
    ShlShr(sl, 6, 0);
    ShlIsProduct(sl, 6);
    AddMultiple(upper, Shl(sl, 6), 6);
    FieldAbove(upper + Shl(sl, 6), BitField(low, 0, 6), 0);
    FieldAbove(upper, BitField(sl, 6, 2), low);
  }

  lemma TopField(ps: nat, tg: nat, sl: nat, low: nat, tcr: nat)
    requires ps <= 6 && tg <= 2 && sl <= 3 && low < 52 && tcr == Shl(ps, 16) + tg * 0x4000 + sl * 0x40 + low
    ensures Field(tcr, 16, 3) == ps
  {
    assert Pow2(16) == 0x1_0000 by { Powers(); }
    assert Pow2(3) == 8;
    LowOfZero(19);
    FieldAbove(0, BitField(ps, 16, 3), tg * 0x4000 + sl * 0x40 + low);
  }

  lemma ValueIsSum(level: nat, vaMax: nat, ps: nat, stage2: bool, tcr: nat)
    requires 13 <= vaMax <= 48 && ps <= 6 && level <= 2 && tcr == TcrValue(12, level, vaMax, ps, stage2)
    ensures tcr == Field(tcr, 16, 3) * 0x1_0000 + Field(tcr, 6, 2) * 0x40 + Field(tcr, 0, 6)
    ensures !stage2 ==> Field(tcr, 6, 2) == 0
  {
    TcrReadBack(12, level, vaMax, ps, stage2);
    var tg, sl := TcrSum(12, level, vaMax, ps, stage2);
    ShlIsProduct(ps, 16);
    assert Pow2(16) == 0x1_0000 by { Powers(); }
  }

  /** In TCR_EL1 the physical size would be bits 34 to 32; what set_tcr writes at bit 16 is T1SZ there. */
  lemma El1Fields(level: nat, vaMax: nat, ps: nat)
    requires 13 <= vaMax <= 48 && ps <= 6 && level <= 2
    ensures var tcr := TcrValue(12, level, vaMax, ps, false);
      tcr >= 0 && Field(tcr, 32, 3) == 0 && Field(tcr, 16, 6) == ps
  {
    var tg, sl := TcrSum(12, level, vaMax, ps, false);
    SmallWord(ps, 64 - vaMax, TcrValue(12, level, vaMax, ps, false));
  }

  lemma SmallWord(ps: nat, low: nat, tcr: nat)
    requires ps <= 6 && low < 52 && tcr == Shl(ps, 16) + low
    ensures Field(tcr, 32, 3) == 0 && Field(tcr, 16, 6) == ps
  {
    assert Pow2(16) == 0x1_0000 && Pow2(32) == 0x1_0000_0000 && Pow2(6) == 0x40 by { Powers(); }
    ShlIsProduct(ps, 16);
    ClearAbove(tcr, 32, 3);
    LowOfZero(22);
    FieldAbove(0, BitField(ps, 16, 6), low);
  }

  lemma ClearAbove(word: nat, pos: nat, width: nat)
    requires word < Pow2(pos)
    ensures Field(word, pos, width) == 0
  {
    ShrZero(word, pos);
    LowOfZero(width);
  }

  /** At level 3 a stage-2 start level field of -1 makes the register value negative. */
  lemma NegativeTcr(vaMax: nat, ps: nat)
    requires 13 <= vaMax <= 48 && ps <= 6
    ensures TcrValue(12, 3, vaMax, ps, true) < 0
  {
    ShlShr(ps, 16, 0);
    ShlOfZero(14);
    OrClear(64 - vaMax, Shl(ps, 16), 16);
    assert Shl(-1, 6) == -64 by {
      ShlIsProduct(-1, 6);
      assert Pow2(6) == 0x40 by { Powers(); }
    }
    OrNegative(64 - vaMax + Shl(ps, 16), -64);
  }
}
