/** The loop of generate: choosing the first table, the level it starts at, and how many of its slots are kept. */
module Start {
  // Shrink is the loop; Narrow says what it keeps: all that is mapped lies in the first 2^k slots of the table.
  import opened Bits
  import opened Wrappers
  import opened PageTree
  import opened Descriptors

  /** The first table, its level and log2 of the number of its slots that are kept. */
  datatype First = First(table: Tree, level: nat, k: nat) {
    /** log2 of the number of addresses that the kept slots span. */
    function VaMax(): nat { table.shift + k }
  }

  /** The level below which generate never descends; other modes raise KeyError. */
  function DeepestLevel(mode: Option<string>): Option<nat> {
    if mode == Some("stage2") then Some(3)
    else if mode == Some("el2") || mode == Some("el1") then Some(2)
    else None
  }

  /** Some slot from 2^(k-1) up to 2^k is in use. */
  predicate UpperHalfUsed(slots: seq<Slot>, k: nat)
    requires 1 <= k && Pow2(k) <= |slots|
  {
    exists i :: Pow2(k - 1) <= i < Pow2(k) && slots[i] != Empty
  }

  /** The loop of generate: halve the table while its upper half is unused, then drop to the next level. */
  function Shrink(t: Tree, level: nat, k: nat, n: nat, mode: Option<string>): (r: Result<First, MmuError>)
    requires 1 <= k <= n && Shaped(t, n)
    ensures r.Success? ==> Shaped(r.value.table, n) && 1 <= r.value.k <= n
    decreases t.shift, k
  {
    Pow2Monotone(k, n);
    if UpperHalfUsed(t.slots, k) then Success(First(t, level, k))
    else if k > 1 then Shrink(t, level, k - 1, n, mode)
    else if DeepestLevel(mode) == None then Failure(KeyError)
    else if DeepestLevel(mode) == Some(level) then Success(First(t, level, 1))
    else if t.slots[0].Table? then Shrink(t.slots[0].table, level + 1, n, n, mode)
    else Failure(NotATable)
  }

  /** Table t starts at address 0, belongs to the given level and uses no slot from 2^k on. */
  predicate Narrow(t: Tree, level: nat, k: nat) {
    && 1 <= k <= 9 && level <= 3 && t.shift == 39 - 9 * level
    && WellFormed(t, 9) && Shaped(t, 9) && Span(t, 9) == 0 && Inhabited(t)
    && forall i :: Pow2(k) <= i < |t.slots| ==> t.slots[i] == Empty
  }

  lemma SlotOfAddress(t: Tree, x: nat, k: nat)
    requires Span(t, 9) == 0 && x < Pow2(t.shift + 9) && k <= 9
    ensures Within(t, x, 9)
    ensures Index(x, t.shift, 9) < Pow2(k) <==> x < Pow2(t.shift + k)
    ensures Index(x, t.shift, 9) == Shr(x, t.shift)
  {
    ShrZero(x, t.shift + 9);
    IndexSplits(t, x, 9);
    LowBound(Shr(x, t.shift), 9);
    JoinIsSum(0, 9, Index(x, t.shift, 9));
    ShrZero(x, t.shift + k);
    ShrShr(x, t.shift, k);
    ShrZero(Shr(x, t.shift), k);
  }

  /** Above the slots in use nothing is translated. */
  lemma NothingAbove(t: Tree, level: nat, k: nat, x: nat)
    requires Narrow(t, level, k) && Pow2(t.shift + k) <= x < Pow2(t.shift + 9)
    ensures Walk(t, x, 9) == None
  {
    SlotOfAddress(t, x, k);
  }

  /** Below the span of slot 0 the walk goes through slot 0. */
  lemma ThroughSlotZero(t: Tree, x: nat)
    requires WellFormed(t, 9) && Shaped(t, 9) && Span(t, 9) == 0 && x < Pow2(t.shift)
    requires t.slots[0].Table?
    ensures Walk(t, x, 9) == Walk(t.slots[0].table, x, 9)
  {
    Pow2Monotone(t.shift, t.shift + 9);
    SlotOfAddress(t, x, 0);
  }

  lemma DescendNarrow(t: Tree, level: nat)
    requires Narrow(t, level, 1) && !UpperHalfUsed(t.slots, 1) && t.slots[0].Table?
    ensures level < 3 && Narrow(t.slots[0].table, level + 1, 9)
  {
    var c := t.slots[0].table;
    assert InPlace(t, t.slots[0], 9, 0) && WellFormed(c, 9) && c.shift >= 12;
    JoinIsSum(0, 9, 0);
  }

  /**
   The table that generate starts from translates exactly what the full tree translates: nothing is mapped
   at or above the chosen address size, and below it the walk from the chosen table agrees.
   */
  lemma {:induction false} ShrinkKeepsWalk(t: Tree, level: nat, k: nat, mode: Option<string>, x: nat)
    requires Narrow(t, level, k) && Shrink(t, level, k, 9, mode).Success? && x < Pow2(t.shift + 9)
    ensures var f := Shrink(t, level, k, 9, mode).value;
      Walk(t, x, 9) == if x < Pow2(f.VaMax()) then Walk(f.table, x, 9) else None
    decreases t.shift, k
  {
    var f := Shrink(t, level, k, 9, mode).value;
    if UpperHalfUsed(t.slots, k) || (k == 1 && DeepestLevel(mode) == Some(level)) {
      if x >= Pow2(t.shift + k) {
        NothingAbove(t, level, k, x);
      }
    } else if k > 1 {
      ShrinkKeepsWalk(t, level, k - 1, mode, x);
    } else {
      DescendNarrow(t, level);
      ShrinkResult(t.slots[0].table, level + 1, 9, mode);
      if x < Pow2(t.shift) {
        ShrinkKeepsWalk(t.slots[0].table, level + 1, 9, mode, x);
      }
      KeepsDown(t, level, f, x);
    }
  }

  /** What holds of the table of slot 0 holds of t. */
  lemma KeepsDown(t: Tree, level: nat, f: First, x: nat)
    requires Narrow(t, level, 1) && !UpperHalfUsed(t.slots, 1) && t.slots[0].Table? && Shaped(t.slots[0].table, 9)
    requires f.VaMax() <= t.shift && x < Pow2(t.shift + 9) && Shaped(f.table, 9)
    requires x < Pow2(t.shift) ==>
      Walk(t.slots[0].table, x, 9) == if x < Pow2(f.VaMax()) then Walk(f.table, x, 9) else None
    ensures Walk(t, x, 9) == if x < Pow2(f.VaMax()) then Walk(f.table, x, 9) else None
  {
    Pow2Monotone(f.VaMax(), t.shift);
    if x < Pow2(t.shift) {
      ThroughSlotZero(t, x);
    } else {
      SlotOfAddress(t, x, 0);
    }
  }

  /** The chosen table is narrow, lies within t, and its upper half is in use unless the level is the deepest. */
  lemma {:induction false} ShrinkResult(t: Tree, level: nat, k: nat, mode: Option<string>)
    requires Narrow(t, level, k) && Shrink(t, level, k, 9, mode).Success?
    ensures var f := Shrink(t, level, k, 9, mode).value;
      && Narrow(f.table, f.level, f.k)
      && level <= f.level && f.VaMax() <= t.shift + k
      && (UpperHalfUsed(f.table.slots, f.k) || (f.k == 1 && DeepestLevel(mode) == Some(f.level)))
    decreases t.shift, k
  {
    if UpperHalfUsed(t.slots, k) || (k == 1 && DeepestLevel(mode) == Some(level)) {
    } else if k > 1 {
      ShrinkResult(t, level, k - 1, mode);
    } else {
      DescendNarrow(t, level);
      ShrinkResult(t.slots[0].table, level + 1, 9, mode);
    }
  }

  /** All that t translates is one block at address 0, of more than 2^bound bytes. */
  ghost predicate LoneBlock(t: Tree, bound: int)
    requires Shaped(t, 9)
  {
    exists e: Entry :: OnlyEntry(t, e) && e.log2Size > bound
  }

  ghost predicate OnlyEntry(t: Tree, e: Entry)
    requires Shaped(t, 9)
  {
    forall x: nat :: x < Pow2(t.shift + 9) ==>
      Walk(t, x, 9) == if x < Pow2(e.log2Size) then Some(e) else None
  }

  lemma SlotAddress(t: Tree, x: nat, i: nat)
    requires Span(t, 9) == 0 && i < Pow2(9) && Shr(x, t.shift) == Join(0, 9, i)
    ensures Within(t, x, 9) && Index(x, t.shift, 9) == i && x < Pow2(t.shift + 9)
    ensures i >= 1 ==> x >= Pow2(t.shift)
  {
    SlotOf(t, x, 9, i);
    ShrZero(x, t.shift + 9);
    SlotOfAddress(t, x, 0);
  }

  lemma UsedSlotTranslates(t: Tree, level: nat, k: nat, i: nat) returns (x: nat)
    requires Narrow(t, level, k) && i < |t.slots| && t.slots[i] != Empty
    ensures x < Pow2(t.shift + 9) && Walk(t, x, 9).Some? && Index(x, t.shift, 9) == i
    ensures i >= 1 ==> x >= Pow2(t.shift)
  {
    assert InPlace(t, t.slots[i], 9, i);
    if t.slots[i].Leaf? {
      x := t.slots[i].entry.va;
    } else {
      x := InhabitedTranslates(t.slots[i].table, 9);
    }
    SlotAddress(t, x, i);
  }

  /** A lone block occupies slot 0 only. */
  lemma LoneBlockInSlotZero(t: Tree, level: nat, k: nat, e: Entry)
    requires Narrow(t, level, k) && OnlyEntry(t, e)
    ensures e.log2Size <= t.shift && t.slots[0] != Empty
    ensures forall i :: 1 <= i < |t.slots| ==> t.slots[i] == Empty
  {
    var j :| 0 <= j < |t.slots| && t.slots[j] != Empty;
    var y := UsedSlotTranslates(t, level, k, j);
    SlotOfAddress(t, y, 0);
    WalkFindsHit(t, y, 9);
    Pow2Monotone(e.log2Size, t.shift);
    forall i | 1 <= i < |t.slots| ensures t.slots[i] == Empty {
      if t.slots[i] != Empty {
        var x := UsedSlotTranslates(t, level, k, i);
        assert false;
      }
    }
  }

  /**
   generate fails, for a known mode, exactly when all that is mapped is one block at address 0 that is
   larger than the slots of the deepest level it may start at: it then looks for a table inside the block.
   */
  lemma {:induction false} ShrinkFailsExactly(t: Tree, level: nat, k: nat, mode: Option<string>)
    requires Narrow(t, level, k) && DeepestLevel(mode).Some? && level <= DeepestLevel(mode).value
    ensures Shrink(t, level, k, 9, mode).Failure?
        <==> LoneBlock(t, 39 - 9 * DeepestLevel(mode).value)
    decreases t.shift, k
  {
    var deepest := DeepestLevel(mode).value;
    if UpperHalfUsed(t.slots, k) {
      NoLoneBlock(t, level, k, deepest);
    } else if k > 1 {
      ShrinkFailsExactly(t, level, k - 1, mode);
    } else if level == deepest {
      NoLoneBlock(t, level, k, deepest);
    } else if t.slots[0].Table? {
      DescendNarrow(t, level);
      ShrinkFailsExactly(t.slots[0].table, level + 1, 9, mode);
      LoneBlockBelow(t, level, 39 - 9 * deepest);
    } else {
      LeafIsLoneBlock(t, level, deepest);
    }
  }

  lemma NoLoneBlock(t: Tree, level: nat, k: nat, deepest: nat)
    requires Narrow(t, level, k) && level <= deepest <= 3
    requires UpperHalfUsed(t.slots, k) || level == deepest
    ensures !LoneBlock(t, 39 - 9 * deepest)
  {
    if e: Entry :| OnlyEntry(t, e) && e.log2Size > 39 - 9 * deepest {
      LoneBlockInSlotZero(t, level, k, e);
      assert false;
    }
  }

  lemma LoneBlockBelow(t: Tree, level: nat, bound: int)
    requires Narrow(t, level, 1) && !UpperHalfUsed(t.slots, 1) && t.slots[0].Table?
    requires Narrow(t.slots[0].table, level + 1, 9)
    ensures LoneBlock(t, bound) <==> LoneBlock(t.slots[0].table, bound)
  {
    var c := t.slots[0].table;
    if e: Entry :| OnlyEntry(t, e) && e.log2Size > bound {
      OnlyEntryDown(t, level, e);
    }
    if e: Entry :| OnlyEntry(c, e) && e.log2Size > bound {
      OnlyEntryUp(t, level, e);
    }
  }

  lemma OnlyEntryDown(t: Tree, level: nat, e: Entry)
    requires Narrow(t, level, 1) && t.slots[0].Table? && OnlyEntry(t, e)
    requires Narrow(t.slots[0].table, level + 1, 9)
    ensures OnlyEntry(t.slots[0].table, e)
  {
    var c := t.slots[0].table;
    assert c.shift + 9 == t.shift;
    Pow2Monotone(t.shift, t.shift + 9);
    forall x: nat | x < Pow2(c.shift + 9)
      ensures Walk(c, x, 9) == if x < Pow2(e.log2Size) then Some(e) else None
    {
      ThroughSlotZero(t, x);
    }
  }

  lemma OnlyEntryUp(t: Tree, level: nat, e: Entry)
    requires Narrow(t, level, 1) && !UpperHalfUsed(t.slots, 1) && t.slots[0].Table?
    requires Narrow(t.slots[0].table, level + 1, 9) && OnlyEntry(t.slots[0].table, e)
    ensures OnlyEntry(t, e)
  {
    var c := t.slots[0].table;
    LoneBlockInSlotZero(c, level + 1, 9, e);
    HalveToOne(t, level);
    Pow2Monotone(e.log2Size, t.shift);
    forall x: nat | x < Pow2(t.shift + 9)
      ensures Walk(t, x, 9) == if x < Pow2(e.log2Size) then Some(e) else None
    {
      SlotOfAddress(t, x, 0);
      if x < Pow2(t.shift) {
        ThroughSlotZero(t, x);
      }
    }
  }

  lemma HalveToOne(t: Tree, level: nat)
    requires Narrow(t, level, 1) && !UpperHalfUsed(t.slots, 1)
    ensures forall i :: 1 <= i < |t.slots| ==> t.slots[i] == Empty
  {
    assert Pow2(0) == 1;
  }

  lemma LeafIsLoneBlock(t: Tree, level: nat, deepest: nat)
    requires Narrow(t, level, 1) && !UpperHalfUsed(t.slots, 1) && !t.slots[0].Table? && level < deepest
    ensures LoneBlock(t, 39 - 9 * deepest)
  {
    HalveToOne(t, level);
    var j :| 0 <= j < |t.slots| && t.slots[j] != Empty;
    var e := t.slots[0].entry;
    assert InPlace(t, t.slots[0], 9, 0);
    forall x: nat | x < Pow2(t.shift + 9)
      ensures Walk(t, x, 9) == if x < Pow2(e.log2Size) then Some(e) else None
    {
      SlotOfAddress(t, x, 0);
    }
    assert OnlyEntry(t, e);
  }
}
