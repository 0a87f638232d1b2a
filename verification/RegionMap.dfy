/**
 What the tables translate after regions were inserted: the plain region map.

 Translate is the page walk seen as a partial function on addresses. Inserting a leaf extends this function on the
 addresses of the leaf and succeeds exactly if it is undefined there; Extends states this for an interval, and
 InsertsExactly for a list of leaves that fill the interval from lo to hi one after the other.
 */
module RegionMap {
  import opened Bits
  import opened Wrappers
  import opened PageTree
  import opened Descriptors
  import opened Regions

  const ADDRESSES := 0x1_0000_0000_0000   // 2^48

  /** The tables of a 4 KB granule: 9 address bits each, the root slots at bit 39. */
  predicate IsRoot(t: Tree) {
    t.shift == 39 && Span(t, 9) == 0 && WellFormed(t, 9) && Shaped(t, 9)
  }

  /** A translation result: the output address, the attributes and the region's name. */
  datatype Mapping = Mapping(name: string, pa: int, upper: nat, lower: nat)

  function Translate(t: Tree, x: nat): Option<Mapping>
    requires Shaped(t, 9)
  {
    match Walk(t, x, 9)
    case None => None
    case Some(e) => Some(Mapping(e.name, e.pa + (x - e.va), e.upper, e.lower))
  }

  /** No address in lo .. hi is translated. */
  ghost predicate Clear(t: Tree, lo: nat, hi: nat)
    requires Shaped(t, 9)
  {
    forall x: nat :: lo <= x < hi ==> Translate(t, x) == None
  }

  /** The insertions that one region causes, first to last. */
  function InsertAll(t: Tree, es: seq<Entry>, n: nat): (r: Result<Tree, InsertError>)
    requires n > 0 && Shaped(t, n)
    ensures r.Success? ==> Shaped(r.value, n)
    decreases |es|
  {
    if es == [] then Success(t)
    else
      var t' :- InsertEntry(t, es[0], n);
      InsertAll(t', es[1..], n)
  }

  lemma EmptyRoot()
    ensures IsRoot(NewTable(0, 39, 9)) && Leaves(NewTable(0, 39, 9)) == {}
    ensures forall x: nat :: Walk(NewTable(0, 39, 9), x, 9) == None
  {
    ShrOfZero(39);
    ShrOfZero(48);
    var t := NewTable(0, 39, 9);
    assert Shr(0, 39) * Pow2(39) == 0;
    NoLeaves(t.slots);
  }

  lemma RootWithin(t: Tree, x: nat)
    requires IsRoot(t)
    ensures Within(t, x, 9) <==> x < ADDRESSES
  {
    ShrZero(x, 48);
    Powers();
  }

  /** t' translates lo .. hi as region r says and every other address as t does. */
  ghost predicate Extends(t: Tree, t': Tree, r: Region, a: Attributes, lo: nat, hi: nat)
    requires Shaped(t, 9) && Shaped(t', 9)
  {
    forall x: nat :: x < ADDRESSES ==>
      Translate(t', x) == if lo <= x < hi then Some(RegionMapping(r, a, x)) else Translate(t, x)
  }

  /** What a region says about address x. */
  function RegionMapping(r: Region, a: Attributes, x: nat): Mapping
  {
    Mapping(r.name, r.phys + (x - r.virt), a.upper, a.lower)
  }

  /** An aligned entry translates the addresses from its own to its end. */
  lemma HitsRange(e: Entry, x: nat)
    requires Low(e.va, e.log2Size) == 0
    ensures Hits(e, x) <==> e.va <= x < e.va + Pow2(e.log2Size)
  {
    SameHighBits(e.va, x, e.log2Size);
  }

  lemma FreeIfInserted(t: Tree, e: Entry, x: nat)
    requires IsRoot(t) && Fits(t, e, 9) && e.va + Pow2(e.log2Size) <= ADDRESSES
    requires InsertEntry(t, e, 9).Success? && e.va <= x < e.va + Pow2(e.log2Size)
    ensures Walk(t, x, 9) == None
  {
    HitsRange(e, x);
    RootWithin(t, x);
    RootWithin(t, e.va);
    OverlapExactly(t, e, 9);
  }

  lemma BusyIfRejected(t: Tree, e: Entry) returns (x: nat)
    requires IsRoot(t) && Fits(t, e, 9) && e.va + Pow2(e.log2Size) <= ADDRESSES
    requires InsertEntry(t, e, 9).Failure?
    ensures InsertEntry(t, e, 9) == Failure(Overlap)
    ensures e.va <= x < e.va + Pow2(e.log2Size) && Walk(t, x, 9).Some?
  {
    RootWithin(t, e.va);
    InsertKeepsWellFormed(t, e, 9);
    var r := InsertEntry(t, e, 9);
    assert r.error == Overlap;
    OverlapExactly(t, e, 9);
    x :| Hits(e, x) && Within(t, x, 9) && Walk(t, x, 9).Some?;
    HitsRange(e, x);
  }

  /** One insertion succeeds exactly if the entry's addresses are free. */
  lemma InsertOneSucceeds(t: Tree, e: Entry)
    requires IsRoot(t) && Fits(t, e, 9) && e.va + Pow2(e.log2Size) <= ADDRESSES
    ensures var r := InsertEntry(t, e, 9);
      && (r.Success? <==> Clear(t, e.va, e.va + Pow2(e.log2Size)))
      && (r.Failure? ==> r.error == Overlap)
  {
    if InsertEntry(t, e, 9).Failure? {
      var x := BusyIfRejected(t, e);
      assert Translate(t, x).Some?;
    } else {
      forall x: nat | e.va <= x < e.va + Pow2(e.log2Size) ensures Translate(t, x) == None {
        FreeIfInserted(t, e, x);
      }
    }
  }

  lemma InsertOneWalk(t: Tree, e: Entry, x: nat)
    requires IsRoot(t) && Fits(t, e, 9) && e.va + Pow2(e.log2Size) <= ADDRESSES
    requires InsertEntry(t, e, 9).Success? && x < ADDRESSES
    ensures Walk(InsertEntry(t, e, 9).value, x, 9) ==
      if e.va <= x < e.va + Pow2(e.log2Size) then Some(e) else Walk(t, x, 9)
  {
    RootWithin(t, e.va);
    RootWithin(t, x);
    HitsRange(e, x);
    InsertWalk(t, e, 9, x);
  }

  /** Entry e maps its addresses as region r says. */
  predicate Serves(e: Entry, r: Region, a: Attributes) {
    && r.virt <= e.va && e.pa == r.phys + (e.va - r.virt)
    && e.name == r.name && e.upper == a.upper && e.lower == a.lower
  }

  /** One insertion, seen from the region it serves. */
  lemma InsertServing(t: Tree, e: Entry, r: Region, a: Attributes)
    requires IsRoot(t) && Fits(t, e, 9) && e.va + Pow2(e.log2Size) <= ADDRESSES
    requires InsertEntry(t, e, 9).Success? && Serves(e, r, a)
    ensures Extends(t, InsertEntry(t, e, 9).value, r, a, e.va, e.va + Pow2(e.log2Size))
  {
    var t' := InsertEntry(t, e, 9).value;
    forall x: nat | x < ADDRESSES
      ensures Translate(t', x) ==
        if e.va <= x < e.va + Pow2(e.log2Size) then Some(RegionMapping(r, a, x)) else Translate(t, x)
    {
      InsertOneWalk(t, e, x);
    }
  }

  lemma InsertStaysRoot(t: Tree, e: Entry)
    requires IsRoot(t) && Fits(t, e, 9) && e.va + Pow2(e.log2Size) <= ADDRESSES
    requires InsertEntry(t, e, 9).Success?
    ensures IsRoot(InsertEntry(t, e, 9).value)
    ensures Inhabited(InsertEntry(t, e, 9).value)
    ensures Leaves(InsertEntry(t, e, 9).value) == Leaves(t) + {e}
  {
    RootWithin(t, e.va);
    InsertKeepsWellFormed(t, e, 9);
    InsertLeaves(t, e, 9);
  }

  function EntrySet(es: seq<Entry>): set<Entry> {
    set e | e in es
  }

  /**
   What inserting leaves es for region r from address lo up to hi comes to: it succeeds exactly if the
   addresses are free, and then translates them as the region says and changes no other translation.
   */
  ghost predicate InsertsExactly(t: Tree, es: seq<Entry>, r: Region, a: Attributes, lo: nat, hi: nat)
    requires Shaped(t, 9)
  {
    var res := InsertAll(t, es, 9);
    && (res.Success? <==> Clear(t, lo, hi))
    && (res.Failure? ==> res.error == Overlap)
    && (res.Success? ==> IsRoot(res.value) && Extends(t, res.value, r, a, lo, hi)
                         && Leaves(res.value) == Leaves(t) + EntrySet(es))
  }

  /** Inserting one more leaf in front. */
  lemma InsertsOneMore(t: Tree, e: Entry, es: seq<Entry>, r: Region, a: Attributes, hi: nat)
    requires IsRoot(t) && Fits(t, e, 9) && e.va + Pow2(e.log2Size) <= hi <= ADDRESSES && Serves(e, r, a)
    requires var res := InsertEntry(t, e, 9);
      res.Success? ==> InsertsExactly(res.value, es, r, a, e.va + Pow2(e.log2Size), hi)
    ensures InsertsExactly(t, [e] + es, r, a, e.va, hi)
  {
    var next := e.va + Pow2(e.log2Size);
    InsertOneSucceeds(t, e);
    assert ([e] + es)[1..] == es;
    assert Clear(t, e.va, hi) <==> Clear(t, e.va, next) && Clear(t, next, hi);
    if InsertEntry(t, e, 9).Success? {
      var t' := InsertEntry(t, e, 9).value;
      InsertServing(t, e, r, a);
      InsertStaysRoot(t, e);
      assert EntrySet([e] + es) == {e} + EntrySet(es);
    }
  }

  /** The leaf that insert makes at va, and where its loop goes next. */
  lemma NextPiece(t: Tree, r: Region, a: Attributes, va: nat) returns (e: Entry, next: nat)
    requires IsRoot(t) && PageAligned(r, 12) && OnTrack(r, 12, va) && va < r.virt + r.size
    ensures next == e.va + Pow2(e.log2Size) && e.va == va && next <= CutEnd(r, 12, va)
    ensures Fits(t, e, 9) && Serves(e, r, a)
    ensures r.virt <= va < next && OnTrack(r, 12, next) && CutEnd(r, 12, next) == CutEnd(r, 12, va)
    ensures Cut(r, a, 12, va) == [e] + Cut(r, a, 12, next)
  {
    e, next := PieceFrom(r, a, 12, va);
    PieceFits(r, a, va, t);
  }

  lemma PieceFrom(r: Region, a: Attributes, g: nat, va: nat) returns (e: Entry, next: nat)
    requires g >= 12 && PageAligned(r, g) && OnTrack(r, g, va) && va < r.virt + r.size
    ensures e == Piece(r, a, g, va) && Serves(e, r, a)
    ensures next == e.va + Pow2(e.log2Size) && e.va == va && next <= CutEnd(r, g, va)
    ensures r.virt <= va < next && OnTrack(r, g, next) && CutEnd(r, g, next) == CutEnd(r, g, va)
    ensures Cut(r, a, g, va) == [e] + Cut(r, a, g, next)
  {
    e := Piece(r, a, g, va);
    next := va + Pow2(e.log2Size);
    CutStep(r, g, va);
  }

  /** The insertions of a region from address va on. */
  lemma {:induction false} InsertCut(t: Tree, r: Region, a: Attributes, va: nat)
    requires IsRoot(t) && PageAligned(r, 12) && OnTrack(r, 12, va)
    requires CutEnd(r, 12, va) <= ADDRESSES
    ensures InsertsExactly(t, Cut(r, a, 12, va), r, a, va, CutEnd(r, 12, va))
    decreases r.virt + r.size - va
  {
    if va < r.virt + r.size {
      var e, next := NextPiece(t, r, a, va);
      if InsertEntry(t, e, 9).Success? {
        InsertStaysRoot(t, e);
        InsertCut(InsertEntry(t, e, 9).value, r, a, next);
      }
      InsertsOneMore(t, e, Cut(r, a, 12, next), r, a, CutEnd(r, 12, va));
    }
  }
}
