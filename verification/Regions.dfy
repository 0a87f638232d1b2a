/** Cutting regions into leaves, and what a sequence of insertions translates. */
module Regions {
  import opened Bits
  import opened Wrappers
  import opened PageTree
  import opened Descriptors

  /** mmu_region */
  datatype Region = Region(name: string, virt: nat, phys: nat, size: nat, cache: string, access: string,
                           capLoad: Option<string>, capStore: Option<string>)

  /** parse_memmap rejects a region whose address, physical address or size is not a multiple of a page. */
  predicate PageAligned(r: Region, g: nat) {
    Low(r.virt, g) == 0 && Low(r.phys, g) == 0 && Low(r.size, g) == 0
  }

  /** log2 of the block sizes for granule g, with g - 3 address bits per table. */
  function Block2(g: nat): nat requires g >= 12 { 2 * (g - 3) + g }
  function Block1(g: nat): nat requires g >= 12 { (g - 3) + g }

  /** The leaf size that insert picks at address va of a region. */
  function LeafSize(g: nat, va: nat, size: nat): (s: nat)
    requires g >= 12
    ensures Low(va, g) == 0 ==> Low(va, s) == 0
  {
    if Low(va, Block2(g)) == 0 && Low(size, Block2(g)) == 0 then Block2(g)
    else if Low(va, Block1(g)) == 0 && Low(size, Block1(g)) == 0 then Block1(g)
    else g
  }

  /** The largest leaf size that divides a region's size. */
  function Largest(g: nat, size: nat): nat
    requires g >= 12
  {
    if Low(size, Block2(g)) == 0 then Block2(g)
    else if Low(size, Block1(g)) == 0 then Block1(g)
    else g
  }

  /** The leaf that the loop of insert makes when it has reached address va. */
  function Piece(r: Region, a: Attributes, g: nat, va: nat): Entry
    requires g >= 12 && r.virt <= va
  {
    Entry(r.name, va, r.phys + (va - r.virt), a.upper, a.lower, LeafSize(g, va, r.size))
  }

  /** All leaves from address va on. */
  function Cut(r: Region, a: Attributes, g: nat, va: nat): seq<Entry>
    requires g >= 12 && r.virt <= va
    decreases r.virt + r.size - va
  {
    if va < r.virt + r.size then
      var e := Piece(r, a, g, va);
      [e] + Cut(r, a, g, va + Pow2(e.log2Size))
    else []
  }

  /** The address after the last leaf, when the loop of insert has reached va. */
  function CutEnd(r: Region, g: nat, va: nat): nat
    requires g >= 12
  {
    if va < r.virt + r.size then RoundUp(r.virt + r.size, Largest(g, r.size)) else va
  }

  /** Address x is translated on behalf of region r. */
  predicate Covers(r: Region, g: nat, x: nat)
    requires g >= 12
  {
    r.virt <= x < CutEnd(r, g, r.virt)
  }

  /** The loop of insert visits addresses below the first multiple of the largest size, then multiples of it. */
  predicate OnTrack(r: Region, g: nat, va: nat)
    requires g >= 12
  {
    && r.virt <= va && Low(va, g) == 0
    && (Low(va, Largest(g, r.size)) == 0 || va < RoundUp(r.virt, Largest(g, r.size)))
    && (Low(r.size, Block1(g)) == 0 ==> Low(va, Block1(g)) == 0 || va < RoundUp(r.virt, Block1(g)))
  }

  lemma StartOnTrack(r: Region, g: nat)
    requires g >= 12 && PageAligned(r, g)
    ensures OnTrack(r, g, r.virt)
  {
    RoundUpLeast(r.virt, Largest(g, r.size));
    RoundUpLeast(r.virt, Block1(g));
  }

  /** Once the loop has reached a multiple of the middle size it stays on such multiples, if that divides the size. */
  lemma SmallTrack(r: Region, g: nat, va: nat, s: nat)
    requires g >= 12 && PageAligned(r, g) && OnTrack(r, g, va) && s == LeafSize(g, va, r.size)
    ensures Low(r.size, Block1(g)) == 0 ==>
      Low(va + Pow2(s), Block1(g)) == 0 || va + Pow2(s) < RoundUp(r.virt, Block1(g))
  {
    if Low(r.size, Block1(g)) == 0 {
      var m := Block1(g);
      RoundUpLeast(r.virt, m);
      if Low(va, m) == 0 {
        LowOfPow2(s);
        MultipleDown(Pow2(s), m, s);
        AddMultiple(va, Pow2(s), m);
      } else {
        if s == Block2(g) {
          MultipleDown(va, m, s);
        }
        MultipleDown(RoundUp(r.virt, m), s, m);
        NextMultiple(va, RoundUp(r.virt, m), s);
      }
    }
  }

  /** One round of the loop stays on track, and the last round ends exactly at CutEnd. */
  lemma CutStep(r: Region, g: nat, va: nat)
    requires g >= 12 && PageAligned(r, g) && OnTrack(r, g, va) && va < r.virt + r.size
    ensures var next := va + Pow2(LeafSize(g, va, r.size));
      && OnTrack(r, g, next)
      && next <= CutEnd(r, g, va)
      && CutEnd(r, g, next) == CutEnd(r, g, va)
  {
    var b, s, stop := Largest(g, r.size), LeafSize(g, va, r.size), r.virt + r.size;
    var next := va + Pow2(s);
    SmallTrack(r, g, va, s);
    RoundUpLeast(stop, b);
    MultipleDown(RoundUp(stop, b), s, b);
    NextMultiple(va, RoundUp(stop, b), s);
    MultipleDown(next, g, s);
    if Low(va, b) == 0 {
      if next >= stop {
        assert RoundUp(stop, b) <= next;
      }
    } else {
      var v0 := RoundUp(r.virt, b);
      RoundUpLeast(r.virt, b);
      MultipleDown(v0, s, b);
      NextMultiple(va, v0, s);
      LowOfZero(b);
      NextMultiple(0, r.size, b);
    }
  }

  /** Every leaf that insert makes fits the tables of a 4 KB granule. */
  lemma PieceFits(r: Region, a: Attributes, va: nat, t: Tree)
    requires OnTrack(r, 12, va) && t.shift == 39
    ensures Fits(t, Piece(r, a, 12, va), 9)
    ensures Piece(r, a, 12, va).log2Size in {12, 21, 30}
  {
    assert Reaches(30, 30, 9) && Reaches(21, 21, 9) && Reaches(12, 12, 9);
    assert Reaches(30, 21, 9) && Reaches(21, 12, 9);
    assert Reaches(30, 12, 9);
  }
}
