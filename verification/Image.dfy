/** generate_table: the emitted tables, and the labels that tie them together. */
module Image {
  import opened Bits
  import opened PageTree
  import opened Descriptors

  /** "<prefix>_l<level>_<va >> pageshift>" */
  datatype Label = Label(level: nat, page: nat)

  /** An emitted .dword: 0, a descriptor value, or a label plus 3. */
  datatype Word = Zero | Value(v: nat) | Pointer(symbol: Label)

  /** An aligned table: its label and its words. */
  datatype Section = Section(symbol: Label, words: seq<Word>)

  function LabelOf(t: Tree, level: nat, g: nat): Label {
    Label(level, Shr(t.va, g))
  }

  /** generate_entry, for a slot of a table one level up. */
  function WordOf(s: Slot, level: nat, g: nat): Word {
    match s
    case Empty => Zero
    case Leaf(e) => Value(Descriptor(e, g))
    case Table(c) => Pointer(LabelOf(c, level, g))
  }

  function Words(slots: seq<Slot>, level: nat, g: nat): (ws: seq<Word>)
    ensures |ws| == |slots| && forall i :: 0 <= i < |ws| ==> ws[i] == WordOf(slots[i], level, g)
  {
    seq(|slots|, i requires 0 <= i < |slots| => WordOf(slots[i], level, g))
  }

  /** generate_table: the tables below first, then the table itself. */
  function Emit(t: Tree, level: nat, g: nat): seq<Section>
    decreases t
  {
    EmitBelow(t.slots, level + 1, g) + [Section(LabelOf(t, level, g), Words(t.slots, level + 1, g))]
  }

  function EmitBelow(slots: seq<Slot>, level: nat, g: nat): seq<Section>
    decreases slots
  {
    if slots == [] then []
    else EmitSlot(slots[0], level, g) + EmitBelow(slots[1..], level, g)
  }

  function EmitSlot(s: Slot, level: nat, g: nat): seq<Section>
    decreases s
  {
    if s.Table? then Emit(s.table, level, g) else []
  }

  predicate UniqueLabels(img: seq<Section>) {
    forall i, j :: 0 <= i < j < |img| ==> img[i].symbol != img[j].symbol
  }

  /** Every label that a word refers to is defined by one of the sections. */
  predicate Closed(words: seq<Word>, img: seq<Section>) {
    forall w :: w in words && w.Pointer? ==> exists s :: s in img && s.symbol == w.symbol
  }

  /** The label of section s belongs to the addresses of a table with the given shift and span. */
  predicate LabelWithin(s: Section, shift: nat, span: nat, n: nat)
    requires shift + n >= 12
  {
    Shr(s.symbol.page, shift + n - 12) == span
  }

  /** The labels emitted for a table lie in its span; only its own label has its level. */
  ghost predicate GoodLabels(img: seq<Section>, t: Tree, level: nat, n: nat)
    requires t.shift >= 12
  {
    && UniqueLabels(img)
    && (forall i :: 0 <= i < |img| ==> LabelWithin(img[i], t.shift, Span(t, n), n))
    && (forall i :: 0 <= i < |img| - 1 ==> img[i].symbol.level > level)
    && |img| > 0 && img[|img| - 1].symbol.level == level
  }

  /** The same for the tables in slots lo .. hi of t. */
  ghost predicate GoodLabelsBelow(img: seq<Section>, t: Tree, lo: nat, hi: nat, level: nat, n: nat)
    requires t.shift >= 12
  {
    && UniqueLabels(img)
    && forall i :: 0 <= i < |img| ==>
         img[i].symbol.level >= level && LabelInSlots(img[i], t, lo, hi, n)
  }

  ghost predicate LabelInSlots(s: Section, t: Tree, lo: nat, hi: nat, n: nat)
    requires t.shift >= 12
  {
    exists k :: lo <= k < hi <= Pow2(n) && Shr(s.symbol.page, t.shift - 12) == Join(Span(t, n), n, k)
  }

  lemma OwnLabelWithin(t: Tree, level: nat, n: nat)
    requires t.shift >= 12
    ensures Shr(LabelOf(t, level, 12).page, t.shift + n - 12) == Span(t, n)
  {
    ShrShr(t.va, 12, t.shift + n - 12);
  }

  /** Concatenating sections of different slots keeps labels unique. */
  lemma AppendSlots(xs: seq<Section>, ys: seq<Section>, t: Tree, lo: nat, mid: nat, hi: nat, level: nat, n: nat)
    requires t.shift >= 12 && lo <= mid <= hi <= Pow2(n)
    requires GoodLabelsBelow(xs, t, lo, mid, level, n) && GoodLabelsBelow(ys, t, mid, hi, level, n)
    ensures GoodLabelsBelow(xs + ys, t, lo, hi, level, n)
  {
    var zs := xs + ys;
    forall i | 0 <= i < |zs| ensures zs[i].symbol.level >= level && LabelInSlots(zs[i], t, lo, hi, n) {
      if i < |xs| {
        assert LabelInSlots(xs[i], t, lo, mid, n);
      } else {
        assert LabelInSlots(ys[i - |xs|], t, mid, hi, n);
      }
    }
    forall i, j | 0 <= i < j < |zs| ensures zs[i].symbol != zs[j].symbol {
      if i < |xs| <= j {
        DifferentSlots(xs[i], ys[j - |xs|], t, lo, mid, hi, n);
      }
    }
  }

  lemma DifferentSlots(x: Section, y: Section, t: Tree, lo: nat, mid: nat, hi: nat, n: nat)
    requires t.shift >= 12 && LabelInSlots(x, t, lo, mid, n) && LabelInSlots(y, t, mid, hi, n)
    ensures x.symbol != y.symbol
  {
    var a :| lo <= a < mid <= Pow2(n) && Shr(x.symbol.page, t.shift - 12) == Join(Span(t, n), n, a);
    var b :| mid <= b < hi <= Pow2(n) && Shr(y.symbol.page, t.shift - 12) == Join(Span(t, n), n, b);
    SplitJoin(Span(t, n), n, a);
    SplitJoin(Span(t, n), n, b);
  }

  /** All labels emitted for well-formed tables are distinct. */
  lemma {:induction false} EmitLabels(t: Tree, level: nat, n: nat)
    requires n > 0 && WellFormed(t, n)
    ensures GoodLabels(Emit(t, level, 12), t, level, n)
    decreases t, |t.slots| + 1
  {
    EmitBelowLabels(t, 0, |t.slots|, level + 1, n);
    assert t.slots[0..|t.slots|] == t.slots;
    AddOwnLabel(t, EmitBelow(t.slots, level + 1, 12), 0, |t.slots|, level, t.slots, n);
  }

  /** Adding the label of t itself to those of some of its slots. */
  lemma AddOwnLabel(t: Tree, below: seq<Section>, lo: nat, hi: nat, level: nat, kept: seq<Slot>, n: nat)
    requires t.shift >= 12 && GoodLabelsBelow(below, t, lo, hi, level + 1, n)
    ensures GoodLabels(below + [Section(LabelOf(t, level, 12), Words(kept, level + 1, 12))], t, level, n)
  {
    OwnLabelWithin(t, level, n);
    forall i | 0 <= i < |below| ensures LabelWithin(below[i], t.shift, Span(t, n), n) {
      assert LabelInSlots(below[i], t, lo, hi, n);
      var k :| lo <= k < hi <= Pow2(n) && Shr(below[i].symbol.page, t.shift - 12) == Join(Span(t, n), n, k);
      SplitJoin(Span(t, n), n, k);
      ShrShr(below[i].symbol.page, t.shift - 12, n);
    }
  }

  lemma {:induction false} EmitBelowLabels(t: Tree, lo: nat, hi: nat, level: nat, n: nat)
    requires n > 0 && WellFormed(t, n) && lo <= hi <= |t.slots|
    ensures GoodLabelsBelow(EmitBelow(t.slots[lo..hi], level, 12), t, lo, hi, level, n)
    decreases t, hi - lo
  {
    var slots := t.slots[lo..hi];
    if slots != [] {
      assert slots[1..] == t.slots[lo + 1..hi] && slots[0] == t.slots[lo];
      EmitBelowLabels(t, lo + 1, hi, level, n);
      if slots[0].Table? {
        EmitLabels(slots[0].table, level, n);
      }
      AppendSlots(EmitSlot(slots[0], level, 12), EmitBelow(slots[1..], level, 12), t, lo, lo + 1, hi, level, n);
    }
  }

  /** What is emitted for the table in a slot is part of what is emitted for the slots. */
  lemma {:induction false} EmitContains(slots: seq<Slot>, i: nat, level: nat, g: nat)
    requires i < |slots| && slots[i].Table?
    ensures forall s :: s in Emit(slots[i].table, level, g) ==> s in EmitBelow(slots, level, g)
  {
    if i > 0 {
      EmitContains(slots[1..], i - 1, level, g);
    }
  }

  /** Every label that the sections refer to is defined by one of them. */
  predicate AllClosed(some: seq<Section>, img: seq<Section>) {
    forall s :: s in some ==> Closed(s.words, img)
  }

  lemma ClosedInMore(some: seq<Section>, img: seq<Section>, more: seq<Section>)
    requires AllClosed(some, img) && forall s :: s in img ==> s in more
    ensures AllClosed(some, more)
  {
    forall s | s in some ensures Closed(s.words, more) {
      forall w | w in s.words && w.Pointer? ensures exists d :: d in more && d.symbol == w.symbol {
        var d :| d in img && d.symbol == w.symbol;
        assert d in more;
      }
    }
  }

  /** What is emitted for a table defines the table's own label. */
  lemma EmitDefines(t: Tree, level: nat, g: nat)
    ensures exists s :: s in Emit(t, level, g) && s.symbol == LabelOf(t, level, g)
  {
    var own := Section(LabelOf(t, level, g), Words(t.slots, level + 1, g));
    assert own in Emit(t, level, g) && own.symbol == LabelOf(t, level, g);
  }

  /** The words of a table refer to the tables in its slots, which are emitted. */
  lemma OwnWordsClosed(slots: seq<Slot>, level: nat, g: nat)
    ensures Closed(Words(slots, level, g), EmitBelow(slots, level, g))
  {
    var words, below := Words(slots, level, g), EmitBelow(slots, level, g);
    forall w | w in words && w.Pointer? ensures exists s :: s in below && s.symbol == w.symbol {
      var i :| 0 <= i < |words| && words[i] == w;
      EmitContains(slots, i, level, g);
      EmitDefines(slots[i].table, level, g);
      var s :| s in Emit(slots[i].table, level, g) && s.symbol == LabelOf(slots[i].table, level, g);
      assert s in below;
    }
  }

  /** Every label that an emitted word refers to is the label of an emitted table. */
  lemma {:induction false} EmitClosed(t: Tree, level: nat, g: nat)
    ensures AllClosed(Emit(t, level, g), Emit(t, level, g))
    decreases t
  {
    var below := EmitBelow(t.slots, level + 1, g);
    var own := Section(LabelOf(t, level, g), Words(t.slots, level + 1, g));
    EmitBelowClosed(t.slots, level + 1, g);
    OwnWordsClosed(t.slots, level + 1, g);
    assert AllClosed([own], below);
    ClosedInMore(below, below, below + [own]);
    ClosedInMore([own], below, below + [own]);
  }

  lemma {:induction false} EmitBelowClosed(slots: seq<Slot>, level: nat, g: nat)
    ensures AllClosed(EmitBelow(slots, level, g), EmitBelow(slots, level, g))
    decreases slots
  {
    if slots != [] {
      var first, rest := EmitSlot(slots[0], level, g), EmitBelow(slots[1..], level, g);
      EmitBelowClosed(slots[1..], level, g);
      SlotClosed(slots[0], level, g);
      ClosedInMore(first, first, first + rest);
      ClosedInMore(rest, rest, first + rest);
    }
  }

  lemma {:induction false} SlotClosed(s: Slot, level: nat, g: nat)
    ensures AllClosed(EmitSlot(s, level, g), EmitSlot(s, level, g))
    decreases s
  {
    if s.Table? {
      EmitClosed(s.table, level, g);
    }
  }

  /** The label is defined by one section and by no other. */
  predicate DefinedOnce(symbol: Label, img: seq<Section>) {
    exists i :: 0 <= i < |img| && img[i].symbol == symbol && forall j :: 0 <= j < |img| && j != i ==> img[j].symbol != symbol
  }

  /** In an image with unique labels every label that is referred to is defined exactly once. */
  lemma ReferencesDefinedOnce(img: seq<Section>, s: Section, w: Word)
    requires UniqueLabels(img) && AllClosed(img, img) && s in img && w in s.words && w.Pointer?
    ensures DefinedOnce(w.symbol, img)
  {
    var d :| d in img && d.symbol == w.symbol;
    var i :| 0 <= i < |img| && img[i] == d;
  }
}
