/** The page walk of hardware over the emitted words, with the descriptor formats of Arm DDI 0487, section D8.3. */
module Hardware {
  import opened Bits
  import opened Wrappers
  import opened PageTree
  import opened Descriptors
  import opened Image

  const PAGE := 0x1000

  /** The position of the section that defines a label, or the number of sections if none does. */
  function Find(img: seq<Section>, l: Label): (i: nat)
    ensures i <= |img|
    ensures i < |img| ==> img[i].symbol == l
    ensures forall j :: 0 <= j < i ==> img[j].symbol != l
  {
    if img == [] then 0
    else if img[0].symbol == l then 0
    else 1 + Find(img[1..], l)
  }

  /** Every table is aligned to a page and none is larger, so the sections lie one page apart. */
  function AddressOf(img: seq<Section>, base: nat, l: Label): nat {
    base + PAGE * Find(img, l)
  }

  function Resolve(img: seq<Section>, base: nat, w: Word): nat {
    match w
    case Zero => 0
    case Value(v) => v
    case Pointer(l) => AddressOf(img, base, l) + 3
  }

  /** The 64-bit word number idx of the table at an address. */
  function Fetch(img: seq<Section>, base: nat, table: nat, idx: nat): Option<nat> {
    if table < base || (table - base) / PAGE >= |img| then None
    else
      var words := img[(table - base) / PAGE].words;
      if idx < |words| then Some(Resolve(img, base, words[idx])) else None
  }

  /** A successful walk yields an output address and the attribute bits of the final descriptor. */
  datatype Outcome = Fault | Mapped(pa: nat, upper: nat, lower: nat)

  /**
   The walk from a table of the given level. An address of a table or of a leaf at or above the limit of physical
   addresses is an address size fault.
   */
  function HwWalk(img: seq<Section>, base: nat, table: nat, level: nat, limit: nat, x: nat): Outcome
    requires level <= 3
    decreases 3 - level
  {
    var shift := 39 - 9 * level;
    if table >= limit then Fault
    else
      match Fetch(img, base, table, Index(x, shift, 9))
      case None => Fault
      case Some(d) =>
        if d % 4 == 3 && level < 3 then HwWalk(img, base, PageNumberOf(d) * PAGE, level + 1, limit, x)
        else if (d % 4 == 3 && level == 3) || (d % 4 == 1 && (level == 1 || level == 2)) then
          if OutputAddress(d, shift) >= limit then Fault
          else Mapped(OutputAddress(d, shift) + Low(x, shift), UpperOf(d), LowerOf(d))
        else Fault
  }

  /** What the leaf found by a walk over the tree means for the hardware. */
  function LeafOutcome(e: Option<Entry>, x: nat): Outcome {
    match e
    case None => Fault
    case Some(e) =>
      Mapped(OutputAddress(Descriptor(e, 12), e.log2Size) + Low(x, e.log2Size), e.upper, e.lower)
  }

  /** The same where physical addresses have a limit. */
  function Limited(e: Option<Entry>, limit: nat, x: nat): Outcome {
    if e.Some? && OutputAddress(Descriptor(e.value, 12), e.value.log2Size) >= limit then Fault else LeafOutcome(e, x)
  }

  /** Leaves that the builder makes: page or block sizes, and attributes that keep to their bits. */
  predicate GoodEntry(e: Entry) {
    e.log2Size in {12, 21, 30} && GoodAttributes(e.upper, e.lower)
  }

  predicate GoodEntries(es: set<Entry>) {
    forall e :: e in es ==> GoodEntry(e)
  }

  /** The image is in physical memory below the limit and below 2^48, page-aligned, and defines no label twice. */
  predicate Loaded(img: seq<Section>, base: nat, limit: nat) {
    && base % PAGE == 0 && base + PAGE * |img| <= 0x1_0000_0000_0000 && base + PAGE * |img| <= limit
    && UniqueLabels(img)
  }

  lemma FindSection(img: seq<Section>, s: Section)
    requires UniqueLabels(img) && s in img
    ensures Find(img, s.symbol) < |img| && img[Find(img, s.symbol)] == s
  {
    var j :| 0 <= j < |img| && img[j] == s;
  }

  /** Fetching from the table of section s gives its words. */
  lemma FetchSection(img: seq<Section>, base: nat, limit: nat, s: Section, idx: nat)
    requires Loaded(img, base, limit) && s in img && idx < |s.words|
    ensures Fetch(img, base, AddressOf(img, base, s.symbol), idx) == Some(Resolve(img, base, s.words[idx]))
  {
    FindSection(img, s);
  }

  /** A resolved label is a table descriptor for the labelled table. */
  lemma PointerDescriptor(img: seq<Section>, base: nat, limit: nat, s: Section)
    requires Loaded(img, base, limit) && s in img
    ensures var d := Resolve(img, base, Pointer(s.symbol));
      d % 4 == 3 && PageNumberOf(d) * PAGE == AddressOf(img, base, s.symbol)
  {
    FindSection(img, s);
    var i := Find(img, s.symbol);
    var p := base / PAGE + i;
    WordParts(0, p, 0, 3, base + PAGE * i + 3);
  }

  lemma LeafIn(slots: seq<Slot>, i: nat)
    requires i < |slots|
    ensures SlotLeaves(slots[i]) <= SlotsLeaves(slots)
  {
    if i > 0 {
      LeafIn(slots[1..], i - 1);
    }
  }

  /** A table of the image with kept slots stands for a tree whose other slots are empty. */
  predicate Stands(img: seq<Section>, t: Tree, level: nat, kept: nat) {
    && level <= 3 && t.shift == 39 - 9 * level && kept <= |t.slots|
    && (forall s :: s in EmitBelow(t.slots[..kept], level + 1, 12) ==> s in img)
    && Section(LabelOf(t, level, 12), Words(t.slots[..kept], level + 1, 12)) in img
  }

  lemma StandsBelow(img: seq<Section>, t: Tree, level: nat, kept: nat, i: nat)
    requires WellFormed(t, 9) && Stands(img, t, level, kept) && i < kept && t.slots[i].Table?
    ensures level < 3 && Stands(img, t.slots[i].table, level + 1, |t.slots[i].table.slots|)
  {
    var c := t.slots[i].table;
    assert InPlace(t, t.slots[i], 9, i) && WellFormed(c, 9);
    assert t.slots[..kept][i] == t.slots[i];
    EmitContains(t.slots[..kept], i, level + 1, 12);
    assert c.slots[..|c.slots|] == c.slots;
  }

  /** The word that the walk fetches for address x. */
  lemma FetchSlot(img: seq<Section>, base: nat, limit: nat, t: Tree, level: nat, kept: nat, idx: nat)
    requires Loaded(img, base, limit) && Stands(img, t, level, kept) && idx < kept
    ensures Fetch(img, base, AddressOf(img, base, LabelOf(t, level, 12)), idx) ==
      Some(Resolve(img, base, WordOf(t.slots[idx], level + 1, 12)))
  {
    FetchSection(img, base, limit, Section(LabelOf(t, level, 12), Words(t.slots[..kept], level + 1, 12)), idx);
  }

  lemma LeafStep(img: seq<Section>, base: nat, limit: nat, table: nat, level: nat, x: nat, e: Entry)
    requires level <= 3 && e.log2Size == 39 - 9 * level && GoodEntry(e) && table < limit
    requires Fetch(img, base, table, Index(x, 39 - 9 * level, 9)) == Some(Descriptor(e, 12))
    ensures HwWalk(img, base, table, level, limit, x) == Limited(Some(e), limit, x)
  {
    DescriptorReadBack(e, 12);
  }

  lemma TableStep(img: seq<Section>, base: nat, limit: nat, table: nat, level: nat, x: nat, s: Section)
    requires Loaded(img, base, limit) && level < 3 && s in img
    requires Fetch(img, base, table, Index(x, 39 - 9 * level, 9)) == Some(Resolve(img, base, Pointer(s.symbol)))
    ensures HwWalk(img, base, table, level, limit, x) == HwWalk(img, base, AddressOf(img, base, s.symbol), level + 1, limit, x)
  {
    PointerDescriptor(img, base, limit, s);
  }

  lemma EmptyStep(img: seq<Section>, base: nat, limit: nat, table: nat, level: nat, x: nat)
    requires level <= 3 && Fetch(img, base, table, Index(x, 39 - 9 * level, 9)) == Some(0)
    ensures HwWalk(img, base, table, level, limit, x) == Fault
  {
  }

  /** The walk from a slot without a lower table ends there. */
  lemma EndOfWalk(img: seq<Section>, base: nat, limit: nat, t: Tree, level: nat, kept: nat, x: nat)
    requires Loaded(img, base, limit) && WellFormed(t, 9) && Shaped(t, 9) && Stands(img, t, level, kept)
    requires Index(x, t.shift, 9) < kept && GoodEntries(Leaves(t)) && !t.slots[Index(x, t.shift, 9)].Table?
    ensures HwWalk(img, base, AddressOf(img, base, LabelOf(t, level, 12)), level, limit, x) == Limited(Walk(t, x, 9), limit, x)
  {
    var idx, here := Index(x, t.shift, 9), AddressOf(img, base, LabelOf(t, level, 12));
    FetchSlot(img, base, limit, t, level, kept, idx);
    if t.slots[idx].Leaf? {
      LeafIn(t.slots, idx);
      var e := t.slots[idx].entry;
      assert e in Leaves(t) && InPlace(t, t.slots[idx], 9, idx);
      LeafStep(img, base, limit, here, level, x, e);
    } else {
      EmptyStep(img, base, limit, here, level, x);
    }
  }

  /** The walk from a slot with a lower table continues there. */
  lemma ContinueWalk(img: seq<Section>, base: nat, limit: nat, t: Tree, level: nat, kept: nat, x: nat)
    requires Loaded(img, base, limit) && WellFormed(t, 9) && Shaped(t, 9) && Stands(img, t, level, kept)
    requires Index(x, t.shift, 9) < kept && t.slots[Index(x, t.shift, 9)].Table?
    ensures var c := t.slots[Index(x, t.shift, 9)].table;
      && level < 3 && Stands(img, c, level + 1, |c.slots|) && Leaves(c) <= Leaves(t)
      && HwWalk(img, base, AddressOf(img, base, LabelOf(t, level, 12)), level, limit, x) ==
         HwWalk(img, base, AddressOf(img, base, LabelOf(c, level + 1, 12)), level + 1, limit, x)
  {
    var idx, here := Index(x, t.shift, 9), AddressOf(img, base, LabelOf(t, level, 12));
    var c := t.slots[idx].table;
    FetchSlot(img, base, limit, t, level, kept, idx);
    StandsBelow(img, t, level, kept, idx);
    TableStep(img, base, limit, here, level, x, Section(LabelOf(c, level + 1, 12), Words(c.slots[..|c.slots|], level + 2, 12)));
    LeafIn(t.slots, idx);
  }

  /** The walk through the words of the image finds what the walk through the tree finds. */
  lemma {:induction false} HwWalkRefinesWalk(img: seq<Section>, base: nat, limit: nat, t: Tree, level: nat, kept: nat, x: nat)
    requires Loaded(img, base, limit) && WellFormed(t, 9) && Shaped(t, 9) && Stands(img, t, level, kept)
    requires Index(x, t.shift, 9) < kept && GoodEntries(Leaves(t))
    ensures HwWalk(img, base, AddressOf(img, base, LabelOf(t, level, 12)), level, limit, x) == Limited(Walk(t, x, 9), limit, x)
    decreases 3 - level
  {
    var idx := Index(x, t.shift, 9);
    if t.slots[idx].Table? {
      var c := t.slots[idx].table;
      ContinueWalk(img, base, limit, t, level, kept, x);
      HwWalkRefinesWalk(img, base, limit, c, level + 1, |c.slots|, x);
    } else {
      EndOfWalk(img, base, limit, t, level, kept, x);
    }
  }
}
