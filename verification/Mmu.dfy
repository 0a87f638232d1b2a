/** The AArch64 table builder: tables that are filled in place. */
module Mmu {
  import opened Bits
  import opened Wrappers
  import opened PageTree
  import opened Descriptors
  import opened Regions
  import opened Tcr
  import opened Build
  import opened Image
  import opened Start
  import opened Generate

  /** What a table slot holds: nothing, a leaf descriptor, or a lower table. */
  datatype Cell = NoCell | Page(e: Entry) | Dir(d: Pgd)

  /** aarch64_pgd */
  class Pgd {
    const va: nat
    const shift: nat
    var tt: seq<Cell>

    ghost var Repr: set<Pgd>   // this table and all tables below it
    ghost var Contents: Tree   // the tables as a value

    /** Slot i of this table agrees with its value; a table below it owns its own part of Repr. */
    ghost predicate Holds(i: nat)
      reads this, Repr
      requires i < |tt| && |Contents.slots| == |tt|
      decreases Repr, 0
    {
      match tt[i]
      case NoCell => Contents.slots[i] == Empty
      case Page(e) => Contents.slots[i] == Leaf(e)
      case Dir(d) =>
        && d in Repr && d.Repr < Repr && this !in d.Repr && d.Valid()
        && Contents.slots[i] == Table(d.Contents)
    }

    ghost predicate Apart(i: nat, j: nat)
      reads this, Repr
      requires i < |tt| && j < |tt|
    {
      tt[i].Dir? && tt[j].Dir? && tt[i].d in Repr && tt[j].d in Repr ==> tt[i].d.Repr !! tt[j].d.Repr
    }

    ghost predicate Valid()
      reads this, Repr
      decreases Repr, 1
    {
      && this in Repr
      && Contents.va == va && Contents.shift == shift && |Contents.slots| == |tt|
      && (forall i :: 0 <= i < |tt| ==> Holds(i))
      && (forall i, j :: 0 <= i < j < |tt| ==> Apart(i, j))
    }

    constructor (n: nat, va: nat, shift: nat)
      ensures Valid() && fresh(Repr)
      ensures Contents == Tree(va, shift, seq(Pow2(n), _ => Empty))
    {
      this.va := va;
      this.shift := shift;
      tt := seq(Pow2(n), _ => NoCell);
      Repr := {this};
      Contents := Tree(va, shift, seq(Pow2(n), _ => Empty));
      new;
      forall i, j | 0 <= i < j < |tt| ensures Apart(i, j) {
        assert tt[i] == NoCell;
      }
    }
  }

  /** aarch64_mmu */
  class Aarch64Mmu {
    const log2Granule: nat
    const log2Entries: nat
    const mode: Option<string>
    var tcr: int
    var maxPa: nat
    var tt: Pgd

    ghost predicate Valid()
      reads this, tt, tt.Repr
    {
      && log2Granule in {12, 14, 16} && log2Entries == log2Granule - 3
      && tt.Valid() && Shaped(tt.Contents, log2Entries) && tt.shift == 48 - log2Entries
    }

    /** __init__, after it has accepted the granule. */
    constructor (mode: Option<string>, log2Granule: nat)
      requires log2Granule in {12, 14, 16}
      ensures Valid() && fresh(tt.Repr)
      ensures this.mode == mode && this.log2Granule == log2Granule
      ensures tt.Contents == NewTable(0, 48 - (log2Granule - 3), log2Granule - 3)
      ensures maxPa == 0xFFFF_FFFF && tcr == -1
    {
      this.log2Granule := log2Granule;
      log2Entries := log2Granule - 3;
      this.mode := mode;
      tcr := -1;
      maxPa := 0xFFFF_FFFF;
      tt := new Pgd(log2Granule - 3, 0, 48 - (log2Granule - 3));
      new;
      ShrOfZero(48 - (log2Granule - 3));
      assert Shaped(NewTable(0, 48 - (log2Granule - 3), log2Granule - 3), log2Granule - 3);
    }

    /** Create the missing table of slot ia. */
    method AddTable(t: Pgd, ia: nat, va: nat, nsh: nat)
      requires t.Valid() && ia < |t.tt| && t.tt[ia] == NoCell
      modifies t
      ensures t.Valid() && fresh(t.Repr - old(t.Repr)) && |t.tt| == old(|t.tt|) && t.tt[ia].Dir?
      ensures t.Contents == old(t.Contents).(slots :=
        old(t.Contents.slots)[ia := Table(Tree(va, nsh, seq(Pow2(log2Entries), _ => Empty)))])
    {
      var d := new Pgd(log2Entries, va, nsh);
      t.tt := t.tt[ia := Dir(d)];
      t.Contents := t.Contents.(slots := t.Contents.slots[ia := Table(d.Contents)]);
      t.Repr := t.Repr + d.Repr;
      forall i | 0 <= i < |t.tt| ensures t.Holds(i) {
        if i != ia {
          assert old(t.Holds(i));
        }
      }
      forall i, j | 0 <= i < j < |t.tt| ensures t.Apart(i, j) {
        assert old(t.Holds(i)) && old(t.Holds(j)) && old(t.Apart(i, j));
      }
    }

    /** insert_entry */
    method InsertEntry(t: Pgd, e: Entry) returns (r: Option<InsertError>)
      requires log2Entries > 0 && t.Valid() && Shaped(t.Contents, log2Entries)
      modifies t.Repr
      ensures t.Valid() && fresh(t.Repr - old(t.Repr))
      ensures match PageTree.InsertEntry(old(t.Contents), e, log2Entries)
        case Success(c) => r == None && t.Contents == c
        case Failure(error) => r == Some(error)
      decreases t.shift
    {
      var ia := Index(e.va, t.shift, log2Entries);
      assert t.Holds(ia);
      if t.shift == e.log2Size {
        if t.tt[ia] != NoCell {
          return Some(Overlap);
        }
        t.tt := t.tt[ia := Page(e)];
        t.Contents := t.Contents.(slots := t.Contents.slots[ia := Leaf(e)]);
        forall i | 0 <= i < |t.tt| ensures t.Holds(i) {
          assert old(t.Holds(i));
        }
        forall i, j | 0 <= i < j < |t.tt| ensures t.Apart(i, j) {
          assert old(t.Apart(i, j));
        }
        return None;
      } else if t.tt[ia].Page? {
        return Some(Overlap);
      } else {
        if t.tt[ia] == NoCell {
          if t.shift < log2Entries {
            return Some(NegativeShift);
          }
          var nsh := t.shift - log2Entries;
          AddTable(t, ia, Shr(e.va, nsh) * Pow2(nsh), nsh);
        }
        r := Descend(t, ia, e);
      }
    }

    /** The recursive call of insert_entry on the table of slot ia. */
    method Descend(t: Pgd, ia: nat, e: Entry) returns (r: Option<InsertError>)
      requires log2Entries > 0 && t.Valid() && ia < |t.tt| && t.tt[ia].Dir?
      requires Shaped(t.Contents, log2Entries) && t.Contents.slots[ia].Table?
      modifies t.Repr
      ensures t.Valid() && fresh(t.Repr - old(t.Repr))
      ensures match PageTree.InsertEntry(old(t.Contents).slots[ia].table, e, log2Entries)
        case Success(c) => r == None && t.Contents == old(t.Contents).(slots := old(t.Contents.slots)[ia := Table(c)])
        case Failure(error) => r == Some(error)
      decreases t.shift, 0
    {
      var d := t.tt[ia].d;
      assert t.Holds(ia);
      assert d.Valid();
      assert d.Contents == t.Contents.slots[ia].table;
      assert d.shift == d.Contents.shift;
      r := InsertEntry(d, e);
      t.Contents := t.Contents.(slots := t.Contents.slots[ia := Table(d.Contents)]);
      t.Repr := t.Repr + d.Repr;
      forall i | 0 <= i < |t.tt| && i != ia
        ensures t.Holds(i)
        ensures t.tt[i].Dir? ==> t.tt[i].d.Repr == old(t.tt[i].d.Repr) && t.tt[i].d.Repr !! d.Repr && t.tt[i].d.Repr <= old(t.Repr)
      {
        assert old(t.Holds(i)) && old(if i < ia then t.Apart(i, ia) else t.Apart(ia, i));
        if t.tt[i].Dir? {
          assert old(t.tt[i].d.Valid()) && old(t.tt[i].d in t.tt[i].d.Repr);
        }
      }
      forall i, j | 0 <= i < j < |t.tt| ensures t.Apart(i, j) {
        assert old(t.Holds(i)) && old(t.Holds(j)) && old(t.Apart(i, j));
      }
    }
  
    /** The inner loop of insert: widen max_pa until it covers pa. */
    method CoverAddress(pa: nat)
      modifies this`maxPa
      ensures maxPa == Grow(old(maxPa), pa)
    {
      while pa > maxPa
        invariant Grow(maxPa, pa) == Grow(old(maxPa), pa)
        decreases pa - maxPa
      {
        ShiftInOne(maxPa);
        maxPa := BitOr(Shl(maxPa, 1), 1);
      }
    }

    /** The leaf size for address va of a region. */
    method PickSize(va: nat, size: nat) returns (sz: nat)
      requires log2Granule in {12, 14, 16} && log2Entries == log2Granule - 3
      ensures sz == LeafSize(log2Granule, va, size)
    {
      var block2Log2Size := 2 * log2Entries + log2Granule;
      var block2Size := Pow2(block2Log2Size);
      var block1Log2Size := log2Entries + log2Granule;
      var block1Size := Pow2(block1Log2Size);
      ShrIsDiv(va, block2Log2Size);
      ShrIsDiv(size, block2Log2Size);
      ShrIsDiv(va, block1Log2Size);
      ShrIsDiv(size, block1Log2Size);
      if va % block2Size == 0 && size % block2Size == 0 {
        sz := block2Log2Size;
      } else if va % block1Size == 0 && size % block1Size == 0 {
        sz := block1Log2Size;
      } else {
        sz := log2Granule;
      }
    }

    /** One round of the loop: pick the leaf size at va, widen max_pa and insert the leaf. */
    method InsertLeaf(r: Region, a: Attributes, va: nat, pa: nat) returns (sz: nat, err: Option<InsertError>)
      requires Valid() && r.virt <= va < r.virt + r.size && pa == r.phys + (va - r.virt)
      modifies this`maxPa, tt.Repr
      ensures tt == old(tt) && fresh(tt.Repr - old(tt.Repr))
      ensures var before := LoopState(old(tt.Contents), old(maxPa), va);
        match err
        case None => Valid() && Round(r, a, log2Granule, before, LoopState(tt.Contents, maxPa, va + Pow2(sz)))
        case Some(e) => Stuck(r, a, log2Granule, before, e)
    {
      sz := PickSize(va, r.size);
      var e := Entry(r.name, va, pa, a.upper, a.lower, sz);
      CoverAddress(pa);
      ghost var before := LoopState(tt.Contents, old(maxPa), va);
      err := InsertEntry(tt, e);
      StepOrStuck(r, a, log2Granule, before, e);
    }

    /** insert, for a region of known descriptor attributes: the loop that fills the tables. */
    method Fill(r: Region, a: Attributes) returns (err: Option<InsertError>)
      requires Valid()
      modifies this`maxPa, tt.Repr
      ensures tt == old(tt) && fresh(tt.Repr - old(tt.Repr))
      ensures err == None ==> Valid()
      ensures match FillFrom(old(tt.Contents), old(maxPa), r, a, log2Granule, r.virt)
        case Success(after) => err == None && tt.Contents == after.0 && maxPa == after.1
        case Failure(e) => err == Some(e)
    {
      var pa, va := r.phys, r.virt;
      ghost var trace := [LoopState(tt.Contents, maxPa, va)];
      while va < r.virt + r.size
        invariant Valid() && tt == old(tt) && fresh(tt.Repr - old(tt.Repr))
        invariant r.virt <= va && pa == r.phys + (va - r.virt)
        invariant trace != [] && trace[0] == LoopState(old(tt.Contents), old(maxPa), r.virt)
        invariant trace[|trace| - 1] == LoopState(tt.Contents, maxPa, va)
        invariant Rounds(r, a, log2Granule, trace)
        decreases r.virt + r.size - va
      {
        var sz;
        sz, err := InsertLeaf(r, a, va, pa);
        if err.Some? {
          RoundsThenError(r, a, log2Granule, trace, err.value);
          return;
        }
        pa := pa + Pow2(sz);
        va := va + Pow2(sz);
        OneMoreRound(r, a, log2Granule, trace, LoopState(tt.Contents, maxPa, va));
        trace := trace + [LoopState(tt.Contents, maxPa, va)];
      }
      RoundsToEnd(r, a, log2Granule, trace);
      err := None;
    }

    /** insert: the descriptor fields of a region, then its leaves. */
    method Insert(r: Region) returns (err: Option<MmuError>)
      requires Valid()
      modifies this`maxPa, tt.Repr
      ensures tt == old(tt) && fresh(tt.Repr - old(tt.Repr))
      ensures err == None ==> Valid() && InsertRegion(old(tt.Contents), JobOf(r, mode), log2Granule) == Success(tt.Contents)
                              && maxPa == GrowJob(old(maxPa), JobOf(r, mode), log2Granule)
      ensures err.Some? ==> InsertRegion(old(tt.Contents), JobOf(r, mode), log2Granule) == Failure(err.value)
    {
      err := InsertJob(JobOf(r, mode));
    }

    method InsertJob(j: Job) returns (err: Option<MmuError>)
      requires Valid()
      modifies this`maxPa, tt.Repr
      ensures tt == old(tt) && fresh(tt.Repr - old(tt.Repr))
      ensures err == None ==> Valid() && InsertRegion(old(tt.Contents), j, log2Granule) == Success(tt.Contents)
                              && maxPa == GrowJob(old(maxPa), j, log2Granule)
      ensures err.Some? ==> InsertRegion(old(tt.Contents), j, log2Granule) == Failure(err.value)
    {
      if j.attributes.Failure? {
        return Some(j.attributes.error);
      }
      FillIsInsertRegion(tt.Contents, maxPa, j, log2Granule);
      var e := Fill(j.region, j.attributes.value);
      err := if e.Some? then Some(ErrorOf(e.value)) else None;
    }

    /** generate_table: the sections printed for table t and the tables below it. */
    method GenerateTable(t: Pgd, level: nat) returns (out: seq<Section>)
      requires t.Valid()
      ensures out == Emit(t.Contents, level, log2Granule)
      decreases t.Contents
    {
      out := [];
      ghost var slots := t.Contents.slots;
      for i := 0 to |t.tt|
        invariant out + EmitBelow(slots[i..], level + 1, log2Granule) == EmitBelow(slots, level + 1, log2Granule)
      {
        assert t.Holds(i);
        assert slots[i..][0] == slots[i] && slots[i..][1..] == slots[i + 1..];
        if t.tt[i].Dir? {
          assert slots[i] < t.Contents;
          var below := GenerateTable(t.tt[i].d, level + 1);
          out := out + below;
        }
      }
      assert slots[|t.tt|..] == [];
      var words := TableWords(t, level + 1);
      out := out + [Section(Label(level, Shr(t.va, log2Granule)), words)];
    }

    /** The words of table t: generate_entry for each of its slots. */
    method TableWords(t: Pgd, level: nat) returns (words: seq<Word>)
      requires t.Valid()
      ensures words == Words(t.Contents.slots, level, log2Granule)
    {
      words := [];
      for i := 0 to |t.tt|
        invariant |words| == i
        invariant forall j :: 0 <= j < i ==> words[j] == WordOf(t.Contents.slots[j], level, log2Granule)
      {
        assert t.Holds(i);
        if t.tt[i].Dir? {
          assert t.tt[i].d.Valid();
        }
        var w := match t.tt[i]
          case NoCell => Zero
          case Page(e) => Value(Descriptor(e, log2Granule))
          case Dir(d) => Pointer(Label(level, Shr(d.va, log2Granule)));
        words := words + [w];
      }
    }

    /** Some slot of lo .. hi is in use. */
    method AnyUsed(t: Pgd, lo: nat, hi: nat) returns (used: bool)
      requires t.Valid() && lo <= hi <= |t.tt|
      ensures used <==> exists i :: lo <= i < hi && t.Contents.slots[i] != Empty
    {
      used := false;
      for i := lo to hi
        invariant !used ==> forall j :: lo <= j < i ==> t.Contents.slots[j] == Empty
        invariant used ==> exists j :: lo <= j < i && t.Contents.slots[j] != Empty
      {
        assert t.Holds(i);
        if t.tt[i] != NoCell {
          used := true;
        }
      }
    }

    /** set_tcr; it fails when max_pa is beyond every physical size. */
    method SetTcr(level: nat, vaMax: nat) returns (err: Option<MmuError>)
      requires log2Granule in {12, 14, 16}
      modifies this`tcr
      ensures match PsOf(maxPa)
        case Some(ps) => err == None && tcr == TcrValue(log2Granule, level, vaMax, ps, mode == Some("stage2"))
        case None => err == Some(NoPhysicalSize)
    {
      var tg := if log2Granule == 12 then 0 else if log2Granule == 16 then 1 else 2;
      var ps;
      if maxPa <= 0xFFFF_FFFF {
        ps := 0;
      } else if maxPa <= 0xF_FFFF_FFFF {
        ps := 1;
      } else if maxPa <= 0xFF_FFFF_FFFF {
        ps := 2;
      } else if maxPa <= 0x3FF_FFFF_FFFF {
        ps := 3;
      } else if maxPa <= 0xFFF_FFFF_FFFF {
        ps := 4;
      } else if maxPa <= 0xFFFF_FFFF_FFFF {
        ps := 5;
      } else if maxPa <= 0xF_FFFF_FFFF_FFFF {
        ps := 6;
      } else {
        return Some(NoPhysicalSize);
      }
      tcr := BitOr(BitOr(64 - vaMax, Shl(ps, 16)), Shl(tg, 14));
      if mode == Some("stage2") {
        var sl0 := if log2Granule == 12 then 2 - level else 3 - level;
        tcr := BitOr(tcr, Shl(sl0, 6));
      }
      err := None;
    }

    /** The loop of generate: find the first table, its level and the number of slots to keep. */
    method FindFirst() returns (err: Option<MmuError>, t: Pgd, level: nat, vaMax: nat, sz: nat, ghost k: nat)
      requires Valid()
      ensures t.Valid() && t.Repr <= tt.Repr
      ensures match Shrink(tt.Contents, FirstLevel(log2Granule), log2Entries, log2Entries, mode)
        case Success(f) =>
          && err == None && f == First(t.Contents, level, k) && vaMax == f.VaMax()
          && sz == Pow2(k) && sz <= |t.tt|
        case Failure(e) => err == Some(e)
    {
      level := if log2Granule == 16 then 1 else 0;
      vaMax := 48;
      sz := Pow2(log2Entries);
      k := log2Entries;
      t := tt;
      ghost var goal := Shrink(tt.Contents, level, k, log2Entries, mode);
      err := None;
      while true
        invariant t.Valid() && t.Repr <= tt.Repr && Shaped(t.Contents, log2Entries)
        invariant 1 <= k <= log2Entries && sz == Pow2(k) && vaMax == t.shift + k
        invariant err == None && Shrink(t.Contents, level, k, log2Entries, mode) == goal
        decreases t.shift, k
      {
        Pow2Monotone(k, log2Entries);
        var used := AnyUsed(t, sz / 2, sz);
        if used {
          break;
        }
        if sz == 2 {
          match DeepestLevel(mode) {
            case None =>
              err := Some(KeyError);
              return;
            case Some(deepest) =>
              if level == deepest {
                break;
              }
          }
          assert t.Holds(0);
          if !t.tt[0].Dir? {
            err := Some(NotATable);
            return;
          }
          level := level + 1;
          assert t.tt[0].d.Valid();
          t := t.tt[0].d;
          sz := Pow2(log2Entries);
          k := log2Entries;
        } else {
          sz := sz / 2;
          k := k - 1;
        }
        vaMax := vaMax - 1;
      }
      Pow2Monotone(k, log2Entries);
    }

    /** generate */
    method Generate() returns (res: Result<Output, MmuError>)
      requires Valid()
      modifies this`tcr, tt.Repr
      ensures res == GenerateOutput(old(tt.Contents), maxPa, log2Granule, mode)
      ensures res.Success? ==> tcr == res.value.tcr
    {
      var err, t, level, vaMax, sz, k := FindFirst();
      if err.Some? {
        return Failure(err.value);
      }
      ghost var f := First(t.Contents, level, k);
      err := SetTcr(level, vaMax);
      if err.Some? {
        return Failure(err.value);
      }
      KeepSlots(t, sz);
      var image := GenerateTable(t, level);
      res := Success(Output(image, Label(level, Shr(t.va, log2Granule)), tcr));
    }

    /** Drop the slots of the first table from sz on. */
    method KeepSlots(t: Pgd, sz: nat)
      requires t.Valid() && sz <= |t.tt|
      modifies t
      ensures t.Valid() && t.Contents == old(t.Contents).(slots := old(t.Contents).slots[..sz])
    {
      t.tt := t.tt[..sz];
      t.Contents := t.Contents.(slots := t.Contents.slots[..sz]);
      forall i | 0 <= i < |t.tt| ensures t.Holds(i) {
        assert old(t.Holds(i));
      }
      forall i, j | 0 <= i < j < |t.tt| ensures t.Apart(i, j) {
        assert old(t.Apart(i, j));
      }
    }
  }

  /** Inserting the next leaf is one round of the loop, or its end. */
  lemma StepOrStuck(r: Region, a: Attributes, g: nat, s: LoopState, e: Entry)
    requires g >= 12 && Shaped(s.t, g - 3) && r.virt <= s.va < r.virt + r.size && e == Piece(r, a, g, s.va)
    ensures var res := PageTree.InsertEntry(s.t, e, g - 3);
      if res.Success? then Round(r, a, g, s, LoopState(res.value, Grow(s.maxPa, e.pa), s.va + Pow2(e.log2Size)))
      else Stuck(r, a, g, s, res.error)
  {
  }

  lemma ShiftInOne(m: nat)
    ensures BitOr(Shl(m, 1), 1) == 2 * m + 1
  {
    ShlShr(m, 1, 0);
    OrClear(1, Shl(m, 1), 1);
  }
}
