/** The AArch64 translation tables as values: insertion and page walk. */
module PageTree {
  // Everything is stated for n address bits per table; the builder uses n = log2_granule - 3.
  import opened Bits
  import opened Wrappers

  /** A leaf descriptor (aarch64_pge). */
  datatype Entry = Entry(name: string, va: nat, pa: nat, upper: nat, lower: nat, log2Size: nat)

  datatype Slot = Empty | Leaf(entry: Entry) | Table(table: Tree)

  /** A table (aarch64_pgd): va is the address that led to its creation. */
  datatype Tree = Tree(va: nat, shift: nat, slots: seq<Slot>)

  datatype InsertError =
    | Overlap        // "overlap at ... in region ...", exit(1)
    | NegativeShift  // ValueError: the table shift would fall below zero

  /** The number shared by all addresses that a table covers: their bits above its index bits. */
  function Span(t: Tree, n: nat): nat {
    Shr(t.va, t.shift + n)
  }

  /** (x >> shift) & (2^n - 1) */
  function Index(x: nat, shift: nat, n: nat): (i: nat)
    ensures i < Pow2(n)
  {
    LowBound(Shr(x, shift), n);
    Low(Shr(x, shift), n)
  }

  predicate Inhabited(t: Tree) {
    exists i :: 0 <= i < |t.slots| && t.slots[i] != Empty
  }

  /** What the recursion of an insertion relies on: full tables, n bits apart. */
  predicate Shaped(t: Tree, n: nat) {
    && |t.slots| == Pow2(n)
    && forall i :: 0 <= i < |t.slots| && t.slots[i].Table? ==>
         t.slots[i].table.shift + n == t.shift && Shaped(t.slots[i].table, n)
  }

  /**
   The invariant of the builder's tables: every leaf has the size of its table's slots and sits in
   the slot of its own address, every lower table covers exactly the addresses of its slot, and no
   lower table is without a leaf.
   */
  predicate WellFormed(t: Tree, n: nat) {
    && |t.slots| == Pow2(n)
    && t.shift >= 12
    && forall i :: 0 <= i < |t.slots| ==>
         && InPlace(t, t.slots[i], n, i)
         && (t.slots[i].Table? ==> Inhabited(t.slots[i].table) && WellFormed(t.slots[i].table, n))
  }

  /** What slot i of table t may hold. */
  predicate InPlace(t: Tree, s: Slot, n: nat, i: nat) {
    match s
    case Empty => true
    case Leaf(e) =>
      e.log2Size == t.shift && Low(e.va, t.shift) == 0 && Shr(e.va, t.shift) == Join(Span(t, n), n, i)
    case Table(c) =>
      c.shift + n == t.shift && Span(c, n) == Join(Span(t, n), n, i)
  }

  function NewTable(va: nat, shift: nat, n: nat): (t: Tree)
    ensures Shaped(t, n) && !Inhabited(t) && t.shift == shift
  {
    Tree(Shr(va, shift) * Pow2(shift), shift, seq(Pow2(n), _ => Empty))
  }

  /** insert_entry */
  function InsertEntry(t: Tree, e: Entry, n: nat): (r: Result<Tree, InsertError>)
    requires n > 0 && Shaped(t, n)
    ensures r.Success? ==> Shaped(r.value, n) && r.value.shift == t.shift && r.value.va == t.va
    decreases t.shift
  {
    var ia := Index(e.va, t.shift, n);
    if t.shift == e.log2Size then
      if t.slots[ia] != Empty then Failure(Overlap)
      else Success(t.(slots := t.slots[ia := Leaf(e)]))
    else
      match t.slots[ia]
      case Leaf(_) => Failure(Overlap)
      case Table(c) =>
        var c' :- InsertEntry(c, e, n);
        Success(t.(slots := t.slots[ia := Table(c')]))
      case Empty =>
        if t.shift < n then Failure(NegativeShift)
        else
          var c' :- InsertEntry(NewTable(e.va, t.shift - n, n), e, n);
          Success(t.(slots := t.slots[ia := Table(c')]))
  }

  /** The page walk: the leaf that translates address x, if any. */
  function Walk(t: Tree, x: nat, n: nat): Option<Entry>
    requires Shaped(t, n)
  {
    match t.slots[Index(x, t.shift, n)]
    case Empty => None
    case Leaf(e) => Some(e)
    case Table(c) => Walk(c, x, n)
  }

  /** Entry e translates address x. */
  predicate Hits(e: Entry, x: nat) {
    Shr(x, e.log2Size) == Shr(e.va, e.log2Size)
  }

  /** Address x belongs to table t. */
  predicate Within(t: Tree, x: nat, n: nat) {
    Shr(x, t.shift + n) == Span(t, n)
  }

  /** A table with slots of 2^shift bytes, or one below it, has slots of 2^size bytes. */
  predicate Reaches(shift: nat, size: nat, n: nat)
    requires n > 0
  {
    shift == size || (shift >= n && Reaches(shift - n, size, n))
  }

  lemma {:induction false} ReachesDown(shift: nat, size: nat, n: nat)
    requires n > 0 && Reaches(shift, size, n)
    ensures size <= shift
  {
    if shift != size {
      ReachesDown(shift - n, size, n);
    }
  }

  /** The size of e is the slot size of t or of a table that insertion can reach below t. */
  predicate Fits(t: Tree, e: Entry, n: nat)
    requires n > 0
  {
    && 12 <= e.log2Size
    && Reaches(t.shift, e.log2Size, n)
    && Low(e.va, e.log2Size) == 0
  }

  /** Within a table, the index bits decide the slot and nothing else does. */
  lemma IndexSplits(t: Tree, x: nat, n: nat)
    requires Within(t, x, n)
    ensures Shr(x, t.shift) == Join(Span(t, n), n, Index(x, t.shift, n))
  {
    ShrShr(x, t.shift, n);
    JoinSplit(Shr(x, t.shift), n);
  }

  lemma NewTableCovers(t: Tree, e: Entry, n: nat)
    requires n > 0 && t.shift >= n && Within(t, e.va, n)
    ensures var c := NewTable(e.va, t.shift - n, n);
      && Within(c, e.va, n)
      && Span(c, n) == Join(Span(t, n), n, Index(e.va, t.shift, n))
      && (t.shift - n >= 12 ==> WellFormed(c, n))
  {
    IndexSplits(t, e.va, n);
    ShrOfFloor(e.va, t.shift - n, n);
  }

  /** The table that insertion enters below slot ia of t: the one there, or a new one. */
  function Below(t: Tree, e: Entry, n: nat): (c: Tree)
    requires n > 0 && Shaped(t, n) && t.shift >= n
    ensures Shaped(c, n) && c.shift == t.shift - n
  {
    var s := t.slots[Index(e.va, t.shift, n)];
    if s.Table? then s.table else NewTable(e.va, t.shift - n, n)
  }

  lemma BelowWellFormed(t: Tree, e: Entry, n: nat)
    requires n > 0 && WellFormed(t, n) && Shaped(t, n)
    requires Fits(t, e, n) && Within(t, e.va, n) && t.shift != e.log2Size
    ensures t.shift - n >= e.log2Size
    ensures var c := Below(t, e, n);
      && Fits(c, e, n) && Within(c, e.va, n) && WellFormed(c, n)
      && Span(c, n) == Join(Span(t, n), n, Index(e.va, t.shift, n))
  {
    ReachesDown(t.shift - n, e.log2Size, n);
    IndexSplits(t, e.va, n);
    NewTableCovers(t, e, n);
  }

  lemma FillSlot(t: Tree, n: nat, i: nat, s: Slot)
    requires WellFormed(t, n) && i < |t.slots| && s != Empty && InPlace(t, s, n, i)
    requires s.Table? ==> Inhabited(s.table) && WellFormed(s.table, n)
    ensures var t' := t.(slots := t.slots[i := s]); WellFormed(t', n) && Inhabited(t')
  {
    var t' := t.(slots := t.slots[i := s]);
    assert t'.slots[i] == s;
    assert Span(t', n) == Span(t, n);
    forall j | 0 <= j < |t'.slots| ensures InPlace(t', t'.slots[j], n, j) {
      assert j != i ==> InPlace(t, t.slots[j], n, j);
    }
  }

  /** Insertion keeps the invariant. */
  lemma {:induction false} InsertKeepsWellFormed(t: Tree, e: Entry, n: nat)
    requires n > 0 && WellFormed(t, n) && Shaped(t, n)
    requires Fits(t, e, n) && Within(t, e.va, n)
    ensures var r := InsertEntry(t, e, n);
      && r != Failure(NegativeShift)
      && (r.Success? ==> WellFormed(r.value, n) && Inhabited(r.value))
    decreases t.shift
  {
    var ia := Index(e.va, t.shift, n);
    var r := InsertEntry(t, e, n);
    if t.shift == e.log2Size {
      IndexSplits(t, e.va, n);
      FillSlot(t, n, ia, Leaf(e));
    } else if !t.slots[ia].Leaf? {
      BelowWellFormed(t, e, n);
      InsertKeepsWellFormed(Below(t, e, n), e, n);
      if r.Success? {
        FillSlot(t, n, ia, Table(InsertEntry(Below(t, e, n), e, n).value));
      }
    }
  }

  /** After a successful insertion the walk finds e on e's addresses and is unchanged elsewhere. */
  lemma {:induction false} InsertWalk(t: Tree, e: Entry, n: nat, x: nat)
    requires n > 0 && WellFormed(t, n) && Shaped(t, n)
    requires Fits(t, e, n) && Within(t, e.va, n) && Within(t, x, n)
    requires InsertEntry(t, e, n).Success?
    ensures Walk(InsertEntry(t, e, n).value, x, n) == if Hits(e, x) then Some(e) else Walk(t, x, n)
    decreases t.shift
  {
    var ia, ix := Index(e.va, t.shift, n), Index(x, t.shift, n);
    IndexSplits(t, e.va, n);
    IndexSplits(t, x, n);
    if t.shift != e.log2Size {
      BelowWellFormed(t, e, n);
      HitsSameSlot(t, e, n, x);
      if ix == ia {
        InsertWalk(Below(t, e, n), e, n, x);
      }
    }
  }

  /** An address that an entry translates shares the entry's index in every table above it. */
  lemma HitsSameSlot(t: Tree, e: Entry, n: nat, x: nat)
    requires e.log2Size <= t.shift
    ensures Hits(e, x) ==> Index(x, t.shift, n) == Index(e.va, t.shift, n)
    ensures Hits(e, x) ==> Shr(x, t.shift) == Shr(e.va, t.shift)
  {
    ShrShr(x, e.log2Size, t.shift - e.log2Size);
    ShrShr(e.va, e.log2Size, t.shift - e.log2Size);
  }

  /** A table with a leaf below it translates some address. */
  lemma {:induction false} InhabitedTranslates(t: Tree, n: nat) returns (x: nat)
    requires n > 0 && WellFormed(t, n) && Shaped(t, n) && Inhabited(t)
    ensures Within(t, x, n) && Walk(t, x, n).Some?
    decreases t
  {
    var i :| 0 <= i < |t.slots| && t.slots[i] != Empty;
    match t.slots[i]
    case Leaf(e) =>
      x := e.va;
      SlotOf(t, x, n, i);
    case Table(c) =>
      x := InhabitedTranslates(c, n);
      SlotOf(t, x, n, i);
  }

  lemma SlotOf(t: Tree, x: nat, n: nat, i: nat)
    requires i < Pow2(n) && Shr(x, t.shift) == Join(Span(t, n), n, i)
    ensures Within(t, x, n) && Index(x, t.shift, n) == i
  {
    ShrShr(x, t.shift, n);
    SplitJoin(Span(t, n), n, i);
  }

  /** An overlap is reported exactly when some address of e is already translated. */
  lemma {:induction false} OverlapExactly(t: Tree, e: Entry, n: nat)
    requires n > 0 && WellFormed(t, n) && Shaped(t, n)
    requires Fits(t, e, n) && Within(t, e.va, n)
    ensures InsertEntry(t, e, n) == Failure(Overlap)
        <==> exists x: nat :: Hits(e, x) && Within(t, x, n) && Walk(t, x, n).Some?
    decreases t.shift
  {
    var ia := Index(e.va, t.shift, n);
    IndexSplits(t, e.va, n);
    InsertKeepsWellFormed(t, e, n);
    if t.shift == e.log2Size {
      if t.slots[ia].Table? {
        var x := InhabitedTranslates(t.slots[ia].table, n);
        SlotOf(t, x, n, ia);
        assert Hits(e, x) && Walk(t, x, n).Some?;
      } else if t.slots[ia].Leaf? {
        assert Hits(e, e.va) && Walk(t, e.va, n).Some?;
      } else {
        forall x: nat | Hits(e, x) ensures Walk(t, x, n) == None {
          HitsSameSlot(t, e, n, x);
        }
      }
    } else {
      BelowWellFormed(t, e, n);
      if t.slots[ia].Leaf? {
        assert Hits(e, e.va) && Walk(t, e.va, n).Some?;
      } else {
        var c := Below(t, e, n);
        OverlapExactly(c, e, n);
        forall x: nat | Hits(e, x)
          ensures Within(t, x, n) && Within(c, x, n) && Walk(t, x, n) == Walk(c, x, n)
        {
          HitsSameSlot(t, e, n, x);
          SlotOf(t, x, n, ia);
        }
      }
    }
  }

  /** The entry a walk finds is well placed: it hits the address walked and is aligned to its size. */
  lemma {:induction false} WalkFindsHit(t: Tree, x: nat, n: nat)
    requires n > 0 && WellFormed(t, n) && Shaped(t, n) && Within(t, x, n)
    ensures match Walk(t, x, n)
      case None => true
      case Some(e) => Hits(e, x) && Low(e.va, e.log2Size) == 0 && 12 <= e.log2Size <= t.shift
    decreases t
  {
    IndexSplits(t, x, n);
    var i := Index(x, t.shift, n);
    if t.slots[i].Table? {
      WalkFindsHit(t.slots[i].table, x, n);
    }
  }

  /** An insertion whose size no table has can only end in an error. */
  lemma {:induction false} MisfitNeverSucceeds(t: Tree, e: Entry, n: nat)
    requires n > 0 && Shaped(t, n)
    requires !Reaches(t.shift, e.log2Size, n)
    ensures InsertEntry(t, e, n).Failure?
    ensures !Inhabited(t) ==> InsertEntry(t, e, n) == Failure(NegativeShift)
    decreases t.shift
  {
    var ia := Index(e.va, t.shift, n);
    if t.slots[ia].Table? || (t.slots[ia].Empty? && t.shift >= n) {
      MisfitNeverSucceeds(Below(t, e, n), e, n);
    }
  }

  /** The set of all leaves of a table and the tables below it. */
  function Leaves(t: Tree): set<Entry> {
    SlotsLeaves(t.slots)
  }

  function SlotsLeaves(slots: seq<Slot>): set<Entry> {
    if slots == [] then {}
    else SlotLeaves(slots[0]) + SlotsLeaves(slots[1..])
  }

  function SlotLeaves(s: Slot): set<Entry> {
    match s
    case Empty => {}
    case Leaf(e) => {e}
    case Table(c) => SlotsLeaves(c.slots)
  }

  /** Replacing a slot by one that also holds e adds e to the leaves. */
  lemma {:induction false} ReplaceLeaves(slots: seq<Slot>, i: nat, s: Slot, e: Entry)
    requires i < |slots| && SlotLeaves(s) == SlotLeaves(slots[i]) + {e}
    ensures SlotsLeaves(slots[i := s]) == SlotsLeaves(slots) + {e}
  {
    if i == 0 {
      assert slots[i := s][1..] == slots[1..];
    } else {
      ReplaceLeaves(slots[1..], i - 1, s, e);
      assert slots[i := s][1..] == slots[1..][i - 1 := s];
    }
  }

  lemma {:induction false} NoLeaves(slots: seq<Slot>)
    requires forall i :: 0 <= i < |slots| ==> slots[i] == Empty
    ensures SlotsLeaves(slots) == {}
  {
    if slots != [] {
      NoLeaves(slots[1..]);
    }
  }

  /** A successful insertion adds exactly its entry to the leaves. */
  lemma {:induction false} InsertLeaves(t: Tree, e: Entry, n: nat)
    requires n > 0 && Shaped(t, n) && InsertEntry(t, e, n).Success?
    ensures Leaves(InsertEntry(t, e, n).value) == Leaves(t) + {e}
    decreases t.shift
  {
    var ia := Index(e.va, t.shift, n);
    if t.shift == e.log2Size {
      ReplaceLeaves(t.slots, ia, Leaf(e), e);
    } else {
      var c := Below(t, e, n);
      InsertLeaves(c, e, n);
      if t.slots[ia].Empty? {
        NoLeaves(c.slots);
      }
      ReplaceLeaves(t.slots, ia, Table(InsertEntry(c, e, n).value), e);
    }
  }
}
