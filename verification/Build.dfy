/** Inserting regions: acceptance, translations, order. */
module Build {
  import opened Bits
  import opened Wrappers
  import opened PageTree
  import opened Descriptors
  import opened Regions
  import opened RegionMap

  /** A region with the outcome of choosing its descriptor fields. */
  datatype Job = Job(region: Region, attributes: Result<Attributes, MmuError>) {
    function Start(): nat { region.virt }
    function End(): nat { CutEnd(region, 12, region.virt) }
    function Entries(): seq<Entry>
      requires attributes.Success?
    {
      Cut(region, attributes.value, 12, region.virt)
    }
  }

  /** A region with its fields chosen. */
  function JobOf(r: Region, mode: Option<string>): Job {
    Job(r, match ChooseFields(mode, r.cache, r.access, r.capLoad, r.capStore)
           case Success(f) => Success(AttributesOf(f))
           case Failure(e) => Failure(e))
  }

  function ErrorOf(e: InsertError): MmuError {
    match e
    case Overlap => Overlapping
    case NegativeShift => ShiftError
  }

  /** insert, as a function of the tables: the fields first, then every leaf. */
  function InsertRegion(t: Tree, j: Job, g: nat): (res: Result<Tree, MmuError>)
    requires g >= 12 && Shaped(t, g - 3)
    ensures res.Success? ==> Shaped(res.value, g - 3)
  {
    if j.attributes.Failure? then Failure(j.attributes.error)
    else
      match InsertAll(t, Cut(j.region, j.attributes.value, g, j.region.virt), g - 3)
      case Success(t') => Success(t')
      case Failure(e) => Failure(ErrorOf(e))
  }

  function InsertRegions(t: Tree, js: seq<Job>, g: nat): (res: Result<Tree, MmuError>)
    requires g >= 12 && Shaped(t, g - 3)
    ensures res.Success? ==> Shaped(res.value, g - 3)
    decreases |js|
  {
    if js == [] then Success(t)
    else
      var t' :- InsertRegion(t, js[0], g);
      InsertRegions(t', js[1..], g)
  }

  /** The region is page-aligned, as parse_memmap checks, and ends within 48 address bits. */
  predicate Placeable(j: Job) {
    PageAligned(j.region, 12) && j.End() <= ADDRESSES
  }

  /** No address is covered by both regions. */
  predicate Apart(j: Job, k: Job) {
    || j.End() <= k.Start() || k.End() <= j.Start()
    || j.End() == j.Start() || k.End() == k.Start()
  }

  predicate Disjoint(js: seq<Job>) {
    js == [] || ((forall k :: k in js[1..] ==> Apart(js[0], k)) && Disjoint(js[1..]))
  }

  predicate Contains(j: Job, x: nat) {
    j.Start() <= x < j.End()
  }

  /** The plain region map: what the first region covering x says about it. */
  function Lookup(js: seq<Job>, x: nat): Option<Mapping>
    requires forall j :: j in js ==> j.attributes.Success?
  {
    if js == [] then None
    else if Contains(js[0], x) then Some(RegionMapping(js[0].region, js[0].attributes.value, x))
    else Lookup(js[1..], x)
  }

  lemma ApartMeansNoCommonAddress(j: Job, k: Job)
    requires PageAligned(j.region, 12) && PageAligned(k.region, 12)
    ensures Apart(j, k) <==> forall x: nat :: !(Contains(j, x) && Contains(k, x))
  {
    EndNotBefore(j);
    EndNotBefore(k);
    if !Apart(j, k) {
      var x := if j.Start() <= k.Start() then k.Start() else j.Start();
      assert Contains(j, x) && Contains(k, x);
    }
  }

  lemma EndNotBefore(j: Job)
    requires PageAligned(j.region, 12)
    ensures j.Start() <= j.End()
  {
    RoundUpLeast(j.region.virt + j.region.size, Largest(12, j.region.size));
  }

  /** Inserting one region, in terms of the region map. */
  lemma InsertRegionExactly(t: Tree, j: Job)
    requires IsRoot(t) && Placeable(j) && j.attributes.Success?
    ensures var res := InsertRegion(t, j, 12);
      && (res.Success? <==> Clear(t, j.Start(), j.End()))
      && (res.Failure? ==> res.error == Overlapping)
      && (res.Success? ==> IsRoot(res.value) && Extends(t, res.value, j.region, j.attributes.value, j.Start(), j.End())
                           && Leaves(res.value) == Leaves(t) + EntrySet(j.Entries()))
  {
    StartOnTrack(j.region, 12);
    InsertCut(t, j.region, j.attributes.value, j.region.virt);
  }

  /** All regions are free in t. */
  ghost predicate AllClear(t: Tree, js: seq<Job>)
    requires Shaped(t, 9)
  {
    forall j :: j in js ==> Clear(t, j.Start(), j.End())
  }

  function AllLeaves(js: seq<Job>): set<Entry>
    requires forall j :: j in js ==> j.attributes.Success?
  {
    if js == [] then {} else EntrySet(js[0].Entries()) + AllLeaves(js[1..])
  }

  /** After inserting j, the regions that were free and are apart from j are still free, and only those. */
  lemma StillClear(t: Tree, t': Tree, j: Job, js: seq<Job>)
    requires Shaped(t, 9) && Shaped(t', 9) && j.attributes.Success?
    requires forall k :: k in js ==> Placeable(k)
    requires Placeable(j) && Extends(t, t', j.region, j.attributes.value, j.Start(), j.End())
    ensures AllClear(t', js) <==> AllClear(t, js) && forall k :: k in js ==> Apart(j, k)
  {
    forall k | k in js
      ensures Clear(t', k.Start(), k.End()) <==> Clear(t, k.Start(), k.End()) && Apart(j, k)
    {
      ApartMeansNoCommonAddress(j, k);
      if !Apart(j, k) {
        var x: nat :| Contains(j, x) && Contains(k, x);
        assert Translate(t', x).Some?;
      } else {
        forall x: nat | Contains(k, x) ensures Translate(t', x) == Translate(t, x) {
          assert !Contains(j, x);
        }
      }
    }
  }

  /** What inserting the regions js into t comes to. */
  ghost predicate BuildsExactly(t: Tree, js: seq<Job>)
    requires Shaped(t, 9) && forall j :: j in js ==> j.attributes.Success?
  {
    var res := InsertRegions(t, js, 12);
    && (res.Success? <==> Disjoint(js) && AllClear(t, js))
    && (res.Failure? ==> res.error == Overlapping)
    && (res.Success? ==>
          && IsRoot(res.value)
          && Leaves(res.value) == Leaves(t) + AllLeaves(js)
          && forall x: nat :: x < ADDRESSES ==>
               Translate(res.value, x) == (if Lookup(js, x).Some? then Lookup(js, x) else Translate(t, x)))
  }

  lemma {:induction false} NotCovered(j: Job, js: seq<Job>, x: nat)
    requires forall k :: k in js ==> Apart(j, k) && Placeable(k) && k.attributes.Success?
    requires Placeable(j) && Contains(j, x)
    ensures Lookup(js, x) == None
    decreases |js|
  {
    if js != [] {
      ApartMeansNoCommonAddress(j, js[0]);
      NotCovered(j, js[1..], x);
    }
  }

  /**
   Inserting regions one after the other succeeds exactly if the regions are free in t and no two of
   them share an address. The tables then translate every address as the plain region map says, and as
   before where no region covers it.
   */
  lemma {:induction false} InsertRegionsExactly(t: Tree, js: seq<Job>)
    requires IsRoot(t) && forall j :: j in js ==> Placeable(j)
    requires forall j :: j in js ==> j.attributes.Success?
    ensures BuildsExactly(t, js)
    decreases |js|
  {
    if js != [] {
      var j, rest := js[0], js[1..];
      InsertRegionExactly(t, j);
      assert AllClear(t, js) <==> Clear(t, j.Start(), j.End()) && AllClear(t, rest);
      if InsertRegion(t, j, 12).Success? {
        var t' := InsertRegion(t, j, 12).value;
        StillClear(t, t', j, rest);
        InsertRegionsExactly(t', rest);
        if InsertRegions(t', rest, 12).Success? {
          forall x: nat | x < ADDRESSES && Contains(j, x) ensures Lookup(rest, x) == None {
            NotCovered(j, rest, x);
          }
        }
      }
    }
  }

  /** A region whose fields are not understood stops the build. */
  lemma {:induction false} BadFieldsFail(t: Tree, js: seq<Job>, i: nat, g: nat)
    requires g >= 12 && Shaped(t, g - 3) && i < |js| && js[i].attributes.Failure?
    ensures InsertRegions(t, js, g).Failure?
    decreases |js|
  {
    if i > 0 && InsertRegion(t, js[0], g).Success? {
      assert js[i] == js[1..][i - 1];
      BadFieldsFail(InsertRegion(t, js[0], g).value, js[1..], i - 1, g);
    }
  }

  predicate AllUnderstood(js: seq<Job>) {
    forall j :: j in js ==> j.attributes.Success?
  }

  /** The empty root table of a 4 KB granule, as __init__ makes it. */
  function Root(): (t: Tree)
    ensures Shaped(t, 9)
  {
    NewTable(0, 39, 9)
  }

  /**
   Building tables from scratch: the regions are accepted exactly if their fields are understood and they
   are disjoint; the page walk then refines the plain region map.
   */
  lemma BuildRefinesRegionMap(js: seq<Job>)
    requires forall j :: j in js ==> Placeable(j)
    ensures InsertRegions(Root(), js, 12).Success? <==> AllUnderstood(js) && Disjoint(js)
    ensures InsertRegions(Root(), js, 12).Success? ==>
      var t := InsertRegions(Root(), js, 12).value;
      && IsRoot(t)
      && Leaves(t) == AllLeaves(js)
      && forall x: nat :: x < ADDRESSES ==> Translate(t, x) == Lookup(js, x)
  {
    EmptyRoot();
    if AllUnderstood(js) {
      InsertRegionsExactly(Root(), js);
      assert AllClear(Root(), js);
    } else {
      var j :| j in js && j.attributes.Failure?;
      var i :| 0 <= i < |js| && js[i] == j;
      BadFieldsFail(Root(), js, i, 12);
    }
  }

  /** Disjointness in terms of the regions alone, whatever their order. */
  lemma {:induction false} DisjointAnyOrder(js: seq<Job>)
    ensures Disjoint(js) <==>
      forall j, k :: j in js && k in js && (j != k || multiset(js)[j] >= 2) ==> Apart(j, k)
    decreases |js|
  {
    if js != [] {
      var rest := js[1..];
      DisjointAnyOrder(rest);
      assert js == [js[0]] + rest;
      assert multiset(js) == multiset{js[0]} + multiset(rest);
      forall j, k | Disjoint(js) && j in js && k in js && (j != k || multiset(js)[j] >= 2)
        ensures Apart(j, k)
      {
        if j != js[0] && k != js[0] {
          assert j in rest && k in rest;
        }
      }
    }
  }

  /** In a disjoint list, the region covering an address is the one that is found. */
  lemma {:induction false} LookupFinds(js: seq<Job>, j: Job, x: nat)
    requires AllUnderstood(js) && Disjoint(js) && j in js && Contains(j, x)
    requires forall k :: k in js ==> Placeable(k)
    ensures Lookup(js, x) == Some(RegionMapping(j.region, j.attributes.value, x))
    decreases |js|
  {
    if j != js[0] {
      assert j in js[1..] && Placeable(js[0]) && Placeable(j);
      ApartMeansNoCommonAddress(js[0], j);
      LookupFinds(js[1..], j, x);
    }
  }

  lemma {:induction false} LookupNone(js: seq<Job>, x: nat)
    requires AllUnderstood(js)
    ensures Lookup(js, x) == None <==> forall j :: j in js ==> !Contains(j, x)
    decreases |js|
  {
    if js != [] {
      assert js == [js[0]] + js[1..];
      LookupNone(js[1..], x);
    }
  }

  lemma {:induction false} AllLeavesAnyOrder(js: seq<Job>)
    requires AllUnderstood(js)
    ensures forall e :: e in AllLeaves(js) <==> exists j :: j in js && e in j.Entries()
    decreases |js|
  {
    if js != [] {
      assert js == [js[0]] + js[1..];
      AllLeavesAnyOrder(js[1..]);
    }
  }

  /** The order of the regions changes neither whether they are accepted, nor any translation, nor the leaves. */
  lemma OrderDoesNotMatter(js: seq<Job>, ks: seq<Job>)
    requires multiset(js) == multiset(ks) && forall j :: j in js ==> Placeable(j)
    ensures InsertRegions(Root(), js, 12).Success? <==> InsertRegions(Root(), ks, 12).Success?
    ensures InsertRegions(Root(), js, 12).Success? ==>
      var t, u := InsertRegions(Root(), js, 12).value, InsertRegions(Root(), ks, 12).value;
      && Leaves(t) == Leaves(u)
      && forall x: nat :: x < ADDRESSES ==> Translate(t, x) == Translate(u, x)
  {
    SameMembers(js, ks);
    DisjointAnyOrder(js);
    DisjointAnyOrder(ks);
    BuildRefinesRegionMap(js);
    BuildRefinesRegionMap(ks);
    if AllUnderstood(js) && Disjoint(js) {
      AllLeavesAnyOrder(js);
      AllLeavesAnyOrder(ks);
      forall x: nat | x < ADDRESSES ensures Lookup(js, x) == Lookup(ks, x) {
        LookupNone(js, x);
        LookupNone(ks, x);
        if j :| j in js && Contains(j, x) {
          LookupFinds(js, j, x);
          LookupFinds(ks, j, x);
        }
      }
    }
  }

  lemma SameMembers(js: seq<Job>, ks: seq<Job>)
    requires multiset(js) == multiset(ks)
    ensures forall j :: j in js <==> j in ks
  {
    forall j ensures j in js <==> j in ks {
      assert j in multiset(js) <==> j in multiset(ks);
    }
  }

  /** Each block size that divides the size of the region divides its address. */
  predicate BlocksDivide(r: Region, g: nat)
    requires g >= 12
  {
    && (Low(r.size, Block2(g)) == 0 ==> Low(r.virt, Block2(g)) == 0)
    && (Low(r.size, Block1(g)) == 0 ==> Low(r.virt, Block1(g)) == 0)
  }

  /** It is enough that the largest one does. */
  lemma LargestDecides(r: Region, g: nat)
    requires g >= 12 && PageAligned(r, g)
    ensures Low(r.virt, Largest(g, r.size)) == 0 <==> BlocksDivide(r, g)
  {
    if Low(r.size, Block2(g)) == 0 {
      MultipleDown(r.size, Block1(g), Block2(g));
      if Low(r.virt, Block2(g)) == 0 {
        MultipleDown(r.virt, Block1(g), Block2(g));
      }
    }
  }

  /**
   The addresses covered are exactly those of the region if and only if the region is empty or each block size that
   divides its size divides its address. Otherwise the last block runs past the end.
   */
  lemma CoverageExactly(j: Job)
    requires PageAligned(j.region, 12)
    ensures (forall x: nat :: Contains(j, x) <==> j.region.virt <= x < j.region.virt + j.region.size)
        <==> j.region.size == 0 || BlocksDivide(j.region, 12)
    ensures forall x: nat :: j.region.virt <= x < j.region.virt + j.region.size ==> Contains(j, x)
  {
    var r := j.region;
    var stop, b := r.virt + r.size, Largest(12, r.size);
    LargestDecides(r, 12);
    RoundUpLeast(stop, b);
    AddMultiple(r.virt, r.size, b);
    if r.size > 0 && Low(r.virt, b) != 0 {
      assert Contains(j, stop);
    }
  }

  /** With a 16 KB or 64 KB granule no leaf size meets a table shift: inserting anything raises an exception. */
  lemma NoLeafFits(j: Job, g: nat)
    requires g in {14, 16} && j.attributes.Success? && j.region.size > 0
    ensures InsertRegion(NewTable(0, 48 - (g - 3), g - 3), j, g) == Failure(ShiftError)
  {
    var n := g - 3;
    var t := NewTable(0, 48 - n, n);
    var e := Piece(j.region, j.attributes.value, g, j.region.virt);
    NoSuchShift(g, e.log2Size);
    MisfitNeverSucceeds(t, e, n);
    FirstLeafFails(t, j, g);
  }

  lemma FirstLeafFails(t: Tree, j: Job, g: nat)
    requires g >= 12 && Shaped(t, g - 3) && j.attributes.Success? && j.region.size > 0
    requires InsertEntry(t, Piece(j.region, j.attributes.value, g, j.region.virt), g - 3) == Failure(NegativeShift)
    ensures InsertRegion(t, j, g) == Failure(ShiftError)
  {
    var e := Piece(j.region, j.attributes.value, g, j.region.virt);
    assert Cut(j.region, j.attributes.value, g, j.region.virt)[0] == e;
  }

  /** With such a granule the tables stay empty as long as insertion succeeds. */
  lemma {:induction false} StaysEmpty(js: seq<Job>, g: nat)
    requires g in {14, 16}
    ensures var t := NewTable(0, 48 - (g - 3), g - 3);
      InsertRegions(t, js, g).Failure? || InsertRegions(t, js, g) == Success(t)
    decreases |js|
  {
    if js != [] && js[0].attributes.Success? {
      if js[0].region.size > 0 {
        NoLeafFits(js[0], g);
      } else {
        StaysEmpty(js[1..], g);
      }
    }
  }

  lemma NoSuchShift(g: nat, size: nat)
    requires g in {14, 16} && size in {g, Block1(g), Block2(g)}
    ensures !Reaches(48 - (g - 3), size, g - 3)
  {
    if g == 14 {
      assert !Reaches(4, size, 11);
      assert !Reaches(15, size, 11);
      assert !Reaches(26, size, 11);
    } else {
      assert !Reaches(9, size, 13);
      assert !Reaches(22, size, 13);
    }
  }
}
