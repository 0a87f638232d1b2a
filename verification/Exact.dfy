/** When hardware maps a region exactly as it was described. */
module Exact {
  import opened Bits
  import opened Wrappers
  import opened PageTree
  import opened Descriptors
  import opened Regions
  import opened RegionMap
  import opened Build
  import opened Hardware

  /** A leaf that the loop of insert makes for region r. */
  predicate IsPiece(e: Entry, r: Region, a: Attributes, g: nat)
    requires g >= 12
  {
    && OnTrack(r, g, e.va) && e.va < r.virt + r.size && Serves(e, r, a)
    && e.log2Size == LeafSize(g, e.va, r.size) && e.va + Pow2(e.log2Size) <= CutEnd(r, g, r.virt)
  }

  lemma PieceIsPiece(r: Region, a: Attributes, g: nat, va: nat)
    requires g >= 12 && PageAligned(r, g) && OnTrack(r, g, va) && va < r.virt + r.size
    requires CutEnd(r, g, va) <= CutEnd(r, g, r.virt)
    ensures IsPiece(Piece(r, a, g, va), r, a, g)
  {
    CutStep(r, g, va);
  }

  lemma {:induction false} CutPieces(r: Region, a: Attributes, g: nat, va: nat, e: Entry)
    requires g >= 12 && PageAligned(r, g) && OnTrack(r, g, va) && CutEnd(r, g, va) <= CutEnd(r, g, r.virt)
    requires e in Cut(r, a, g, va)
    ensures IsPiece(e, r, a, g)
    decreases r.virt + r.size - va
  {
    if va < r.virt + r.size {
      if e == Piece(r, a, g, va) {
        PieceIsPiece(r, a, g, va);
      } else {
        CutStep(r, g, va);
        CutPieces(r, a, g, va + Pow2(LeafSize(g, va, r.size)), e);
      }
    }
  }

  lemma {:induction false} WalkInLeaves(t: Tree, x: nat, n: nat)
    requires n > 0 && Shaped(t, n) && Walk(t, x, n).Some?
    ensures Walk(t, x, n).value in Leaves(t)
    decreases t
  {
    var i := Index(x, t.shift, n);
    LeafIn(t.slots, i);
    if t.slots[i].Table? {
      WalkInLeaves(t.slots[i].table, x, n);
    }
  }

  /** The tables hold exactly the leaves of the disjoint regions js. */
  predicate Holds(t: Tree, js: seq<Job>) {
    && IsRoot(t) && AllUnderstood(js) && Disjoint(js) && (forall j :: j in js ==> Placeable(j))
    && Leaves(t) == AllLeaves(js)
    && (forall x: nat :: x < ADDRESSES ==> Translate(t, x) == Lookup(js, x))
  }

  /** The leaf that translates an address of region j is one of the leaves made for j. */
  lemma PieceAt(t: Tree, js: seq<Job>, j: Job, x: nat) returns (e: Entry)
    requires Holds(t, js) && j in js && Contains(j, x)
    ensures Walk(t, x, 9) == Some(e) && IsPiece(e, j.region, j.attributes.value, 12)
    ensures e.va <= x < e.va + Pow2(e.log2Size)
  {
    LookupFinds(js, j, x);
    e := Walk(t, x, 9).value;
    WalkInLeaves(t, x, 9);
    AllLeavesAnyOrder(js);
    var k :| k in js && e in k.Entries();
    StartOnTrack(k.region, 12);
    CutPieces(k.region, k.attributes.value, 12, k.region.virt, e);
    RootWithin(t, x);
    WalkFindsHit(t, x, 9);
    HitsRange(e, x);
    assert Contains(k, x);
    ApartMeansNoCommonAddress(j, k);
    DisjointAnyOrder(js);
    assert k == j;
  }

  /** Halving and the literal sizes: the low bits that Low counts are remainders. */
  lemma BlockRemainders(x: nat)
    ensures Low(x, 30) == x % 0x4000_0000 && Low(x, 21) == x % 0x20_0000
  {
    ShrIsDiv(x, 30);
    ShrIsDiv(x, 21);
    assert Pow2(30) == 0x4000_0000 && Pow2(21) == 0x20_0000 by { Powers(); }
  }

  /** Where the last block of a region ends: at the first multiple, after its size, of the largest block that divides it. */
  lemma RegionEnds(j: Job)
    requires PageAligned(j.region, 12) && j.region.size > 0
    ensures var r := j.region;
      var b := if r.size % 0x4000_0000 == 0 then 0x4000_0000 else if r.size % 0x20_0000 == 0 then 0x20_0000 else 0x1000;
      j.End() % b == 0 && r.virt + r.size <= j.End() < r.virt + r.size + b
  {
    var r := j.region;
    BlockRemainders(r.size);
    BlockRemainders(j.End());
    RoundUpLeast(r.virt + r.size, Largest(12, r.size));
    ShrIsDiv(j.End(), 12);
    assert Pow2(30) == 0x4000_0000 && Pow2(21) == 0x20_0000 && Pow2(12) == 0x1000 by { Powers(); }
  }

  /** A leaf of a region on the track of the loop, for one block size: it has that size or a larger one once it can. */
  lemma OnBlocks(va: nat, s: nat, x: nat, virt: nat, b: nat)
    requires Low(va, s) == 0 && virt <= va <= x < va + Pow2(s)
    requires Low(va, b) == 0 || (va < RoundUp(virt, b) && s <= b)
    requires Low(va, b) == 0 ==> s >= b
    ensures s >= b <==> x - Low(x, b) >= virt
  {
    LowBound(x, b);
    RoundUpLeast(virt, b);
    FloorAligned(x, b);
    if s >= b {
      MultipleDown(va, b, s);
      FloorNotBelow(va, x, b);
    } else {
      MultipleDown(RoundUp(virt, b), s, b);
      NextMultiple(va, RoundUp(virt, b), s);
    }
  }

  lemma FloorAligned(x: nat, b: nat)
    ensures Low(x, b) <= x && Low(x - Low(x, b), b) == 0
  {
    FloorPlusLow(x, b);
    MulDiv(Shr(x, b), Pow2(b));
    ShrIsDiv(Shr(x, b) * Pow2(b), b);
  }

  /**
   Which leaf translates an address of a region: a 1 GB block if 1 GB divides the region's size and the gigabyte around
   the address starts in the region; otherwise a 2 MB block if 2 MB divides the size and the same holds of the two
   megabytes around it; otherwise a page.
   */
  lemma LeafAt(t: Tree, js: seq<Job>, j: Job, x: nat)
    requires Holds(t, js) && j in js && Contains(j, x)
    ensures Walk(t, x, 9).Some?
    ensures var r := j.region;
      Walk(t, x, 9).value.log2Size ==
        if r.size % 0x4000_0000 == 0 && x / 0x4000_0000 * 0x4000_0000 >= r.virt then 30
        else if r.size % 0x20_0000 == 0 && x / 0x20_0000 * 0x20_0000 >= r.virt then 21
        else 12
  {
    var e := PieceAt(t, js, j, x);
    PieceSizes(e, j.region, j.attributes.value);
    LeafSizeAt(j.region, e.va, e.log2Size, x);
  }

  lemma LeafSizeAt(r: Region, va: nat, s: nat, x: nat)
    requires PageAligned(r, 12) && OnTrack(r, 12, va) && s == LeafSize(12, va, r.size) && va <= x < va + Pow2(s)
    ensures s ==
      if r.size % 0x4000_0000 == 0 && x / 0x4000_0000 * 0x4000_0000 >= r.virt then 30
      else if r.size % 0x20_0000 == 0 && x / 0x20_0000 * 0x20_0000 >= r.virt then 21
      else 12
  {
    BlockRemainders(r.size);
    BlockRemainders(x);
    if Low(r.size, 30) == 0 {
      MultipleDown(r.size, 21, 30);
      OnBlocks(va, s, x, r.virt, 30);
    }
    if Low(r.size, 21) == 0 {
      if Low(va, 30) == 0 {
        MultipleDown(va, 21, 30);
      }
      OnBlocks21(r, va, s, x);
    }
  }

  /** The same for the middle size. */
  lemma OnBlocks21(r: Region, va: nat, s: nat, x: nat)
    requires PageAligned(r, 12) && OnTrack(r, 12, va) && s == LeafSize(12, va, r.size) && va <= x < va + Pow2(s)
    requires Low(r.size, 21) == 0
    ensures s >= 21 <==> x - Low(x, 21) >= r.virt
  {
    if s == 30 {
      MultipleDown(va, 21, 30);
      FloorNotBelow(va, x, 21);
    } else {
      OnBlocks(va, s, x, r.virt, 21);
    }
  }

  lemma FloorNotBelow(va: nat, x: nat, b: nat)
    requires Low(va, b) == 0 && va <= x
    ensures Low(x, b) <= x && x - Low(x, b) >= va
  {
    FloorAligned(x, b);
    LowBound(x, b);
    if x - Low(x, b) < va {
      NextMultiple(x - Low(x, b), va, b);
    }
  }

  /** Hardware maps every address of region j to the region's physical address, with its attributes. */
  ghost predicate MapsAsDescribed(t: Tree, j: Job)
    requires Shaped(t, 9) && j.attributes.Success?
  {
    forall x: nat :: Contains(j, x) ==>
      LeafOutcome(Walk(t, x, 9), x) ==
      Mapped(j.region.phys + (x - j.region.virt), j.attributes.value.upper, j.attributes.value.lower)
  }

  /** The physical address is congruent to the virtual one for the largest leaf used, and stays within 48 bits. */
  predicate PhysicallyAligned(j: Job) {
    var b := Largest(12, j.region.size);
    && Low(j.region.phys, b) == Low(j.region.virt, b)
    && j.region.phys + (j.End() - j.region.virt) <= ADDRESSES
  }

  lemma PieceOutcome(e: Entry, r: Region, a: Attributes, x: nat)
    requires IsPiece(e, r, a, 12) && Low(e.va, e.log2Size) == 0 && e.va <= x < e.va + Pow2(e.log2Size)
    requires GoodAttributes(a.upper, a.lower) && 12 <= e.log2Size <= 48
    ensures LeafOutcome(Some(e), x) == Mapped(r.phys + (x - r.virt), a.upper, a.lower)
        <==> Low(e.pa, e.log2Size) == 0 && e.pa < ADDRESSES
  {
    LowInside(e.va, x, e.log2Size);
    OutputExact(e, 12);
  }

  lemma LowInside(va: nat, x: nat, size: nat)
    requires Low(va, size) == 0 && va <= x < va + Pow2(size)
    ensures Low(x, size) == x - va
  {
    ShrOfSum(va, x - va, size);
  }

  lemma PieceSizes(e: Entry, r: Region, a: Attributes)
    requires IsPiece(e, r, a, 12) && PageAligned(r, 12)
    ensures Low(e.va, e.log2Size) == 0 && 12 <= e.log2Size <= Largest(12, r.size) <= 30
    ensures Low(e.va, Largest(12, r.size)) == 0 ==> e.log2Size == Largest(12, r.size)
  {
  }

  lemma PieceAligned(e: Entry, j: Job)
    requires j.attributes.Success? && IsPiece(e, j.region, j.attributes.value, 12) && PhysicallyAligned(j)
    requires Low(e.va, e.log2Size) == 0 && e.log2Size <= Largest(12, j.region.size)
    ensures Low(e.pa, e.log2Size) == 0 && e.pa < ADDRESSES
  {
    var r := j.region;
    LowOfLow(r.phys, e.log2Size, Largest(12, r.size));
    LowOfLow(r.virt, e.log2Size, Largest(12, r.size));
    Congruent(r.phys, r.virt, e.va, e.log2Size);
  }

  /** A sufficient condition, for each address. */
  lemma AlignedOutcome(t: Tree, js: seq<Job>, j: Job, x: nat)
    requires Holds(t, js) && j in js && Contains(j, x) && PhysicallyAligned(j)
    requires GoodAttributes(j.attributes.value.upper, j.attributes.value.lower)
    ensures LeafOutcome(Walk(t, x, 9), x) ==
      Mapped(j.region.phys + (x - j.region.virt), j.attributes.value.upper, j.attributes.value.lower)
  {
    var r, a := j.region, j.attributes.value;
    var e := PieceAt(t, js, j, x);
    PieceSizes(e, r, a);
    PieceAligned(e, j);
    PieceOutcome(e, r, a, x);
  }

  /** Every multiple of the largest leaf size, from the first one in the region on, has a leaf of that size. */
  lemma BigPieceAt(t: Tree, js: seq<Job>, j: Job, z: nat) returns (e: Entry)
    requires Holds(t, js) && j in js && Contains(j, z)
    requires Low(z, Largest(12, j.region.size)) == 0
    ensures Walk(t, z, 9) == Some(e) && IsPiece(e, j.region, j.attributes.value, 12)
    ensures e.va == z && e.log2Size == Largest(12, j.region.size)
  {
    var r, b := j.region, Largest(12, j.region.size);
    e := PieceAt(t, js, j, z);
    PieceSizes(e, r, j.attributes.value);
    RoundUpLeast(r.virt, b);
    if Low(e.va, b) == 0 {
      if e.va < z {
        NextMultiple(e.va, z, b);
      }
    } else {
      MultipleDown(RoundUp(r.virt, b), e.log2Size, b);
      NextMultiple(e.va, RoundUp(r.virt, b), e.log2Size);
    }
  }

  /** What a leaf of 2^b bytes can be mapped to. */
  predicate CanHold(pa: int, b: nat) {
    0 <= pa < ADDRESSES && Low(pa, b) == 0
  }

  lemma BigPieceAligned(t: Tree, js: seq<Job>, j: Job, z: nat, pa: int, b: nat)
    requires Holds(t, js) && j in js && Contains(j, z) && MapsAsDescribed(t, j)
    requires b == Largest(12, j.region.size) && Low(z, b) == 0 && pa == j.region.phys + (z - j.region.virt)
    requires GoodAttributes(j.attributes.value.upper, j.attributes.value.lower)
    ensures CanHold(pa, b)
  {
    var e := BigPieceAt(t, js, j, z);
    assert e.pa == pa;
    PieceSizes(e, j.region, j.attributes.value);
    PieceOutcome(e, j.region, j.attributes.value, z);
  }

  /** The first and the last multiple of the largest leaf size in a region. */
  lemma BigEnds(j: Job, g: nat, b: nat) returns (first: nat, last: nat)
    requires g >= 12 && PageAligned(j.region, g) && j.region.size > 0 && b == Largest(g, j.region.size)
    ensures Low(first, b) == 0 && Low(last, b) == 0 && j.region.virt <= first <= last
    ensures last + Pow2(b) == CutEnd(j.region, g, j.region.virt)
  {
    first, last := EndsOf(j.region.virt, j.region.size, b);
  }

  lemma EndsOf(virt: nat, size: nat, b: nat) returns (first: nat, last: nat)
    requires size > 0 && Low(size, b) == 0
    ensures Low(first, b) == 0 && Low(last, b) == 0
    ensures virt <= first <= last && last + Pow2(b) == RoundUp(virt + size, b)
  {
    LowOfZero(b);
    NextMultiple(0, size, b);
    RoundUpLeast(virt, b);
    RoundUpLeast(virt + size, b);
    first := RoundUp(virt, b);
    NextMultiple(first, RoundUp(virt + size, b), b);
    last := RoundUp(virt + size, b) - Pow2(b);
    LowOfPow2(b);
    AddMultiple(last, Pow2(b), b);
  }

  /** An aligned leaf that starts below 2^48 ends there. */
  lemma LastFits(pa: nat, b: nat)
    requires b <= 48 && CanHold(pa, b)
    ensures pa + Pow2(b) <= ADDRESSES
  {
    AddressesMultiple(b);
    NextMultiple(pa, ADDRESSES, b);
  }

  /** In a region that is mapped as described, the first and the last of the largest leaves are aligned. */
  lemma EndsMapped(t: Tree, js: seq<Job>, j: Job, b: nat, first: nat, last: nat, low: int, high: int)
    requires Holds(t, js) && j in js && MapsAsDescribed(t, j) && b == Largest(12, j.region.size)
    requires GoodAttributes(j.attributes.value.upper, j.attributes.value.lower)
    requires Contains(j, first) && Contains(j, last) && Low(first, b) == 0 && Low(last, b) == 0
    requires low == j.region.phys + (first - j.region.virt) && high == j.region.phys + (last - j.region.virt)
    ensures CanHold(low, b) && CanHold(high, b)
  {
    BigPieceAligned(t, js, j, first, low, b);
    BigPieceAligned(t, js, j, last, high, b);
  }

  lemma MappedIsAligned(t: Tree, js: seq<Job>, j: Job)
    requires Holds(t, js) && j in js && j.region.size > 0 && MapsAsDescribed(t, j)
    requires GoodAttributes(j.attributes.value.upper, j.attributes.value.lower)
    ensures PhysicallyAligned(j)
  {
    var b := Largest(12, j.region.size);
    var first, last := BigEnds(j, 12, b);
    var low, high := j.region.phys + (first - j.region.virt), j.region.phys + (last - j.region.virt);
    EndsMapped(t, js, j, b, first, last, low, high);
    EndsMeanAligned(j, first, last, low, high, b);
  }

  lemma EndsMeanAligned(j: Job, first: nat, last: nat, low: nat, high: nat, b: nat)
    requires b == Largest(12, j.region.size) && Contains(j, first) && Contains(j, last)
    requires last + Pow2(b) == j.End() && Low(first, b) == 0
    requires low == j.region.phys + (first - j.region.virt) && high == j.region.phys + (last - j.region.virt)
    requires CanHold(low, b) && CanHold(high, b)
    ensures PhysicallyAligned(j)
  {
    EndsAligned(j.region.phys, j.region.virt, first, last, j.End(), low, high, b);
  }

  /** From the first and the last multiple of a leaf size to the whole region. */
  lemma EndsAligned(phys: nat, virt: nat, first: nat, last: nat, stop: nat, low: nat, high: nat, b: nat)
    requires b <= 48 && virt <= first && virt <= last && last + Pow2(b) == stop && Low(first, b) == 0
    requires low == phys + (first - virt) && high == phys + (last - virt) && CanHold(low, b) && CanHold(high, b)
    ensures Low(phys, b) == Low(virt, b) && phys + (stop - virt) <= ADDRESSES
  {
    Congruent(phys, virt, first, b);
    LastFits(high, b);
  }

  /**
   Hardware maps a region as described if and only if its physical address is congruent to its virtual
   address modulo the largest leaf size that divides its size, and all of it lies below 2^48.
   */
  lemma RegionExactly(t: Tree, js: seq<Job>, j: Job)
    requires Holds(t, js) && j in js && j.region.size > 0
    requires GoodAttributes(j.attributes.value.upper, j.attributes.value.lower)
    ensures MapsAsDescribed(t, j) <==> PhysicallyAligned(j)
  {
    if PhysicallyAligned(j) {
      forall x: nat | Contains(j, x)
        ensures LeafOutcome(Walk(t, x, 9), x) ==
          Mapped(j.region.phys + (x - j.region.virt), j.attributes.value.upper, j.attributes.value.lower)
      {
        AlignedOutcome(t, js, j, x);
      }
    } else if MapsAsDescribed(t, j) {
      MappedIsAligned(t, js, j);
    }
  }

  lemma AddressesMultiple(b: nat)
    requires b <= 48
    ensures Low(ADDRESSES, b) == 0
  {
    assert Pow2(48) == ADDRESSES by { Powers(); }
    LowOfPow2(48);
    MultipleDown(Pow2(48), b, 48);
  }
}
