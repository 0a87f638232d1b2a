/** Grouping the types that unchecked conversions between access types link together. */
module UcGroups {
  import opened Wrappers

  type TypeId = nat

  /** What the front end says about types. */
  datatype Types = Types(base: TypeId -> TypeId, esize: TypeId -> Option<nat>, aggregate: TypeId -> bool) {
    predicate IsBase(t: TypeId) { base(t) == t }

    /** Base_Type_For_Aliasing leads to a type that is its own base. */
    ghost predicate Sound() { forall t :: base(base(t)) == base(t) }
  }

  /** UC_Entry; group 0 is Empty_UC_Group_Idx. */
  datatype Entry = Entry(te: TypeId, group: nat, valid: bool)

  /** The UC table and Last_UC_Group. */
  datatype Table = Table(uc: seq<Entry>, last: nat)

  /** Find_UC_Group: the group of the first entry for a type, or 0. */
  function FindGroup(uc: seq<Entry>, te: TypeId): nat {
    if uc == [] then 0 else if uc[0].te == te then uc[0].group else FindGroup(uc[1..], te)
  }

  /**
   The loop that moves group from into group to. ok is Our_Valid: it makes entries invalid, and an entry
   that is or becomes invalid makes ok false for the entries after it.
   */
  function Relabel(uc: seq<Entry>, from: nat, to: nat, ok: bool): (r: (seq<Entry>, bool))
    ensures |r.0| == |uc|
  {
    if uc == [] then ([], ok)
    else if uc[0].group == from then
      var valid := uc[0].valid && ok;
      var rest := Relabel(uc[1..], from, to, ok && valid);
      ([Entry(uc[0].te, to, valid)] + rest.0, rest.1)
    else
      var rest := Relabel(uc[1..], from, to, ok);
      ([uc[0]] + rest.0, rest.1)
  }

  /** The part of Add_To_UC after the recursive call, with the groups that were read before it. */
  function Enter(t: Table, s: TypeId, d: TypeId, sGrp: nat, dGrp: nat, ok: bool): (Table, bool) {
    if sGrp == 0 && dGrp == 0 then
      (Table(t.uc + [Entry(s, t.last + 1, ok), Entry(d, t.last + 1, ok)], t.last + 1), ok)
    else if sGrp == 0 then (t.(uc := t.uc + [Entry(s, dGrp, ok)]), ok)
    else if dGrp == 0 then (t.(uc := t.uc + [Entry(d, sGrp, ok)]), ok)
    else
      var r := Relabel(t.uc, dGrp, sGrp, ok);
      (t.(uc := r.0), r.1)
  }

  /** Our_Valid: the two types can be treated identically. */
  predicate Fits(ty: Types, s: TypeId, d: TypeId, valid: bool) {
    && valid && ty.esize(s).Some? && ty.esize(d).Some? && ty.esize(s) == ty.esize(d)
    && !ty.aggregate(s) && !ty.aggregate(d) && ty.IsBase(s) == ty.IsBase(d)
  }

  /** Add_To_UC for source s and target d. */
  function AddToUC(ty: Types, t: Table, s: TypeId, d: TypeId, valid: bool): (Table, bool)
    requires ty.Sound()
    decreases !ty.IsBase(s) && !ty.IsBase(d)
  {
    var sGrp, dGrp := FindGroup(t.uc, s), FindGroup(t.uc, d);
    var ok := Fits(ty, s, d, valid);
    var inner := if !ty.IsBase(s) && !ty.IsBase(d) then AddToUC(ty, t, ty.base(s), ty.base(d), ok) else (t, ok);
    var r := Enter(inner.0, s, d, sGrp, dGrp, inner.1);
    (r.0, valid && r.1)
  }

  /** The table is consistent: a type is in one group, and groups are numbered from 1 to last. */
  predicate Consistent(t: Table) {
    && (forall i :: 0 <= i < |t.uc| ==> 1 <= t.uc[i].group <= t.last)
    && (forall i, j :: 0 <= i < |t.uc| && 0 <= j < |t.uc| && t.uc[i].te == t.uc[j].te ==> t.uc[i].group == t.uc[j].group)
  }

  predicate Present(uc: seq<Entry>, te: TypeId) {
    exists i :: 0 <= i < |uc| && uc[i].te == te
  }

  /** The group holds an entry that is not valid, so its types get no tag. */
  predicate Invalid(uc: seq<Entry>, group: nat) {
    exists i :: 0 <= i < |uc| && uc[i].group == group && !uc[i].valid
  }

  /** The types of a group without invalid entries have one size, are no aggregates, and are all base types or none is. */
  predicate Homogeneous(ty: Types, uc: seq<Entry>) {
    forall i, j :: 0 <= i < |uc| && 0 <= j < |uc| && uc[i].group == uc[j].group && !Invalid(uc, uc[i].group) ==>
      Alike(ty, uc[i].te, uc[j].te)
  }

  predicate Alike(ty: Types, a: TypeId, b: TypeId) {
    && ty.esize(a).Some? && ty.esize(a) == ty.esize(b)
    && !ty.aggregate(a) && !ty.aggregate(b) && ty.IsBase(a) == ty.IsBase(b)
  }

  lemma {:induction false} FindGroupOf(uc: seq<Entry>, te: TypeId)
    ensures FindGroup(uc, te) != 0 ==> exists i :: 0 <= i < |uc| && uc[i].te == te && uc[i].group == FindGroup(uc, te)
    ensures !Present(uc, te) ==> FindGroup(uc, te) == 0
  {
    if uc != [] {
      if uc[0].te != te {
        FindGroupOf(uc[1..], te);
        if i :| 0 <= i < |uc[1..]| && uc[1..][i].te == te && uc[1..][i].group == FindGroup(uc[1..], te) {
          assert uc[i + 1].te == te;
        }
        if Present(uc[1..], te) {
          var i :| 0 <= i < |uc[1..]| && uc[1..][i].te == te;
          assert uc[i + 1].te == te;
        }
      } else {
        assert uc[0].te == te;
      }
    }
  }

  /** In a consistent table, the group of a type is that of any of its entries. */
  lemma {:induction false} GroupOfEntry(t: Table, i: nat)
    requires Consistent(t) && i < |t.uc|
    ensures FindGroup(t.uc, t.uc[i].te) == t.uc[i].group
  {
    var te := t.uc[i].te;
    FindFirst(t.uc, te, i);
    FindGroupOf(t.uc, te);
  }

  lemma {:induction false} FindFirst(uc: seq<Entry>, te: TypeId, i: nat)
    requires i < |uc| && uc[i].te == te && forall j :: 0 <= j < |uc| ==> uc[j].group >= 1
    ensures FindGroup(uc, te) >= 1
  {
    if uc[0].te != te {
      FindFirst(uc[1..], te, i - 1);
    }
  }

  /** What the loop does to each entry. */
  lemma {:induction false} RelabelEntries(uc: seq<Entry>, from: nat, to: nat, ok: bool)
    ensures var r := Relabel(uc, from, to, ok);
      && (forall i :: 0 <= i < |uc| ==>
            && r.0[i].te == uc[i].te
            && r.0[i].group == (if uc[i].group == from then to else uc[i].group)
            && (r.0[i].valid ==> uc[i].valid)
            && (uc[i].group != from ==> r.0[i] == uc[i])
            && (uc[i].group == from && !ok ==> !r.0[i].valid)
            && (r.1 && uc[i].group == from ==> r.0[i].valid))
      && (r.1 ==> ok)
      && (r.1 <==> ok && !Invalid(uc, from))
  {
    if uc != [] {
      var ok' := if uc[0].group == from then ok && uc[0].valid else ok;
      RelabelEntries(uc[1..], from, to, ok');
    }
  }

  lemma {:induction false} FindAppend(uc: seq<Entry>, e: Entry, x: TypeId)
    requires forall i :: 0 <= i < |uc| ==> uc[i].group >= 1
    ensures FindGroup(uc + [e], x) ==
      if FindGroup(uc, x) != 0 then FindGroup(uc, x) else if e.te == x then e.group else 0
  {
    if uc == [] {
      assert uc + [e] == [e];
    } else {
      assert (uc + [e])[1..] == uc[1..] + [e];
      FindAppend(uc[1..], e, x);
    }
  }

  lemma {:induction false} FindRelabelled(uc: seq<Entry>, r: seq<Entry>, from: nat, to: nat, x: TypeId)
    requires |r| == |uc| && to >= 1 && from >= 1
    requires forall i :: 0 <= i < |uc| ==> r[i].te == uc[i].te
    requires forall i :: 0 <= i < |uc| ==> r[i].group == if uc[i].group == from then to else uc[i].group
    ensures FindGroup(r, x) == if FindGroup(uc, x) == from then to else FindGroup(uc, x)
  {
    if uc != [] && uc[0].te != x {
      FindRelabelled(uc[1..], r[1..], from, to, x);
    }
  }

  /** The labels that Enter may be given: 0 exactly for types without a group, and never a number still to come. */
  predicate Labels(t: Table, s: TypeId, d: TypeId, sGrp: nat, dGrp: nat) {
    && (sGrp == 0 <==> FindGroup(t.uc, s) == 0) && (dGrp == 0 <==> FindGroup(t.uc, d) == 0)
    && sGrp <= t.last && dGrp <= t.last
  }

  /** The group of x after Enter. */
  function GroupAfter(t: Table, s: TypeId, d: TypeId, sGrp: nat, dGrp: nat, x: TypeId): nat {
    var g := FindGroup(t.uc, x);
    if sGrp == 0 && dGrp == 0 then (if x == s || x == d then t.last + 1 else g)
    else if sGrp == 0 then (if x == s then dGrp else g)
    else if dGrp == 0 then (if x == d then sGrp else g)
    else if g == dGrp then sGrp else g
  }

  lemma EnterGroup(t: Table, s: TypeId, d: TypeId, sGrp: nat, dGrp: nat, ok: bool, x: TypeId)
    requires Consistent(t) && Labels(t, s, d, sGrp, dGrp)
    ensures FindGroup(Enter(t, s, d, sGrp, dGrp, ok).0.uc, x) == GroupAfter(t, s, d, sGrp, dGrp, x)
  {
    if sGrp == 0 && dGrp == 0 {
      var e, e' := Entry(s, t.last + 1, ok), Entry(d, t.last + 1, ok);
      FindAppend(t.uc, e, x);
      FindAppend(t.uc + [e], e', x);
      assert t.uc + [e, e'] == t.uc + [e] + [e'];
    } else if sGrp == 0 {
      FindAppend(t.uc, Entry(s, dGrp, ok), x);
    } else if dGrp == 0 {
      FindAppend(t.uc, Entry(d, sGrp, ok), x);
    } else {
      RelabelEntries(t.uc, dGrp, sGrp, ok);
      FindRelabelled(t.uc, Relabel(t.uc, dGrp, sGrp, ok).0, dGrp, sGrp, x);
    }
  }

  /** Every entry after Enter is one from before, moved and perhaps made invalid, or a new one. */
  lemma EnterEntries(t: Table, s: TypeId, d: TypeId, sGrp: nat, dGrp: nat, ok: bool)
    requires Consistent(t) && Labels(t, s, d, sGrp, dGrp)
    ensures var uc := Enter(t, s, d, sGrp, dGrp, ok).0.uc;
      && |t.uc| <= |uc|
      && (forall i :: 0 <= i < |t.uc| ==>
            && uc[i].te == t.uc[i].te && uc[i].group == GroupAfter(t, s, d, sGrp, dGrp, t.uc[i].te)
            && (uc[i].valid ==> t.uc[i].valid))
      && (forall i :: |t.uc| <= i < |uc| ==>
            && (uc[i].te == s || uc[i].te == d) && FindGroup(t.uc, uc[i].te) == 0
            && uc[i].group == GroupAfter(t, s, d, sGrp, dGrp, uc[i].te) && uc[i].valid == ok)
  {
    forall i | 0 <= i < |t.uc| ensures FindGroup(t.uc, t.uc[i].te) == t.uc[i].group {
      GroupOfEntry(t, i);
    }
    if sGrp != 0 && dGrp != 0 {
      RelabelEntries(t.uc, dGrp, sGrp, ok);
    }
  }

  lemma EnterConsistent(t: Table, s: TypeId, d: TypeId, sGrp: nat, dGrp: nat, ok: bool)
    requires Consistent(t) && Labels(t, s, d, sGrp, dGrp)
    ensures Consistent(Enter(t, s, d, sGrp, dGrp, ok).0)
    ensures Enter(t, s, d, sGrp, dGrp, ok).0.last >= t.last
  {
    EnterEntries(t, s, d, sGrp, dGrp, ok);
    forall i | 0 <= i < |t.uc| ensures 1 <= FindGroup(t.uc, t.uc[i].te) <= t.last {
      GroupOfEntry(t, i);
    }
  }

  /** A group with an invalid entry keeps it, wherever it is moved. */
  lemma InvalidStays(t: Table, s: TypeId, d: TypeId, sGrp: nat, dGrp: nat, ok: bool, x: TypeId)
    requires Consistent(t) && Labels(t, s, d, sGrp, dGrp)
    requires FindGroup(t.uc, x) != 0 && Invalid(t.uc, FindGroup(t.uc, x))
    ensures Invalid(Enter(t, s, d, sGrp, dGrp, ok).0.uc, GroupAfter(t, s, d, sGrp, dGrp, x))
  {
    var i :| 0 <= i < |t.uc| && t.uc[i].group == FindGroup(t.uc, x) && !t.uc[i].valid;
    EnterEntries(t, s, d, sGrp, dGrp, ok);
    GroupOfEntry(t, i);
    FindGroupOf(t.uc, s);
    FindGroupOf(t.uc, d);
    assert Present(t.uc, t.uc[i].te);
    var uc := Enter(t, s, d, sGrp, dGrp, ok).0.uc;
    assert uc[i].group == GroupAfter(t, s, d, sGrp, dGrp, x) && !uc[i].valid;
  }

  /** What is entered without being valid makes its group invalid. */
  lemma EnterInvalid(t: Table, s: TypeId, d: TypeId, sGrp: nat, dGrp: nat, ok: bool, x: TypeId)
    requires Consistent(t) && Labels(t, s, d, sGrp, dGrp) && !ok
    requires (x == s && sGrp == 0) || (x == d && dGrp == 0) || (sGrp != 0 && dGrp != 0 && FindGroup(t.uc, x) == dGrp)
    ensures Invalid(Enter(t, s, d, sGrp, dGrp, ok).0.uc, GroupAfter(t, s, d, sGrp, dGrp, x))
  {
    var uc := Enter(t, s, d, sGrp, dGrp, ok).0.uc;
    if sGrp != 0 && dGrp != 0 {
      FindGroupOf(t.uc, x);
      var i :| 0 <= i < |t.uc| && t.uc[i].te == x && t.uc[i].group == dGrp;
      RelabelEntries(t.uc, dGrp, sGrp, ok);
      assert uc[i].group == sGrp && !uc[i].valid;
    } else {
      assert uc[|t.uc|].te == if sGrp == 0 then s else d;
      assert !uc[|t.uc|].valid;
      if sGrp == 0 && dGrp == 0 {
        assert uc[|t.uc| + 1].te == d && !uc[|t.uc| + 1].valid;
      }
    }
  }

  /** Groups that are not made invalid were valid before. */
  lemma ValidBefore(t: Table, s: TypeId, d: TypeId, sGrp: nat, dGrp: nat, ok: bool, i: nat)
    requires Consistent(t) && Labels(t, s, d, sGrp, dGrp) && i < |t.uc|
    requires !Invalid(Enter(t, s, d, sGrp, dGrp, ok).0.uc, GroupAfter(t, s, d, sGrp, dGrp, t.uc[i].te))
    ensures !Invalid(t.uc, t.uc[i].group)
  {
    GroupOfEntry(t, i);
    if Invalid(t.uc, t.uc[i].group) {
      FindGroupOf(t.uc, t.uc[i].te);
      InvalidStays(t, s, d, sGrp, dGrp, ok, t.uc[i].te);
    }
  }

  /** If the entering is valid, the labels are the current groups and the types are alike. */
  predicate Current(ty: Types, t: Table, s: TypeId, d: TypeId, sGrp: nat, dGrp: nat, ok: bool) {
    ok ==> Alike(ty, s, d) && sGrp == FindGroup(t.uc, s) && dGrp == FindGroup(t.uc, d)
  }

  /** A type of a valid group is alike to every entry of the group. */
  lemma AlikeInGroup(ty: Types, t: Table, x: TypeId, i: nat)
    requires Consistent(t) && Homogeneous(ty, t.uc) && i < |t.uc|
    requires FindGroup(t.uc, x) == t.uc[i].group && !Invalid(t.uc, t.uc[i].group)
    ensures Alike(ty, x, t.uc[i].te)
  {
    FindGroupOf(t.uc, x);
    var k :| 0 <= k < |t.uc| && t.uc[k].te == x && t.uc[k].group == FindGroup(t.uc, x);
  }

  lemma EnterHomogeneous(ty: Types, t: Table, s: TypeId, d: TypeId, sGrp: nat, dGrp: nat, ok: bool)
    requires Consistent(t) && Homogeneous(ty, t.uc) && Labels(t, s, d, sGrp, dGrp) && Current(ty, t, s, d, sGrp, dGrp, ok)
    ensures Homogeneous(ty, Enter(t, s, d, sGrp, dGrp, ok).0.uc)
  {
    var uc := Enter(t, s, d, sGrp, dGrp, ok).0.uc;
    EnterEntries(t, s, d, sGrp, dGrp, ok);
    forall i, j | 0 <= i < |uc| && 0 <= j < |uc| && uc[i].group == uc[j].group && !Invalid(uc, uc[i].group)
      ensures Alike(ty, uc[i].te, uc[j].te)
    {
      if i < |t.uc| {
        GroupOfEntry(t, i);
        ValidBefore(t, s, d, sGrp, dGrp, ok, i);
      }
      if j < |t.uc| {
        GroupOfEntry(t, j);
        ValidBefore(t, s, d, sGrp, dGrp, ok, j);
      }
      if i < |t.uc| && j < |t.uc| {
        BothOld(ty, t, s, d, sGrp, dGrp, ok, i, j);
      } else {
        assert uc[i].valid && uc[j].valid && ok;
        if i < |t.uc| {
          AlikeInGroup(ty, t, if sGrp == 0 then d else s, i);
        } else if j < |t.uc| {
          AlikeInGroup(ty, t, if sGrp == 0 then d else s, j);
        }
      }
    }
  }

  lemma BothOld(ty: Types, t: Table, s: TypeId, d: TypeId, sGrp: nat, dGrp: nat, ok: bool, i: nat, j: nat)
    requires Consistent(t) && Homogeneous(ty, t.uc) && Labels(t, s, d, sGrp, dGrp) && Current(ty, t, s, d, sGrp, dGrp, ok)
    requires i < |t.uc| && j < |t.uc|
    requires var uc := Enter(t, s, d, sGrp, dGrp, ok).0.uc;
      |t.uc| <= |uc| && uc[i].group == uc[j].group && !Invalid(uc, uc[i].group)
    requires !Invalid(t.uc, t.uc[i].group) && !Invalid(t.uc, t.uc[j].group)
    ensures Alike(ty, t.uc[i].te, t.uc[j].te)
  {
    var uc := Enter(t, s, d, sGrp, dGrp, ok).0.uc;
    if t.uc[i].group != t.uc[j].group {
      assert sGrp != 0 && dGrp != 0;
      RelabelEntries(t.uc, dGrp, sGrp, ok);
      assert uc[i].valid && uc[j].valid && ok;
      var a, b := if t.uc[i].group == dGrp then i else j, if t.uc[i].group == dGrp then j else i;
      AlikeInGroup(ty, t, d, a);
      AlikeInGroup(ty, t, s, b);
    }
  }

  /** The groups of s and d before Add_To_UC. */
  predicate Nested(ty: Types, s: TypeId, d: TypeId) {
    !ty.IsBase(s) && !ty.IsBase(d)
  }

  /** The table and the validity when Enter is called for s and d themselves. */
  function Inner(ty: Types, t: Table, s: TypeId, d: TypeId, valid: bool): (Table, bool)
    requires ty.Sound()
  {
    var ok := Fits(ty, s, d, valid);
    if Nested(ty, s, d) then
      var sb, db := ty.base(s), ty.base(d);
      var r := Enter(t, sb, db, FindGroup(t.uc, sb), FindGroup(t.uc, db), Fits(ty, sb, db, ok));
      (r.0, ok && r.1)
    else (t, ok)
  }

  lemma AddIsEnter(ty: Types, t: Table, s: TypeId, d: TypeId, valid: bool)
    requires ty.Sound()
    ensures var inner := Inner(ty, t, s, d, valid);
      var r := Enter(inner.0, s, d, FindGroup(t.uc, s), FindGroup(t.uc, d), inner.1);
      AddToUC(ty, t, s, d, valid) == (r.0, valid && r.1)
  {
    if Nested(ty, s, d) {
      var sb, db := ty.base(s), ty.base(d);
      assert ty.base(sb) == sb && ty.base(db) == db;
    }
  }

  /**
   A group that was read before the recursive call for the base types and has since been moved held both a
   base type and another type, so it was invalid, and the recursive call has reported that.
   */
  lemma StaleGroupIsInvalid(ty: Types, t: Table, s: TypeId, d: TypeId, valid: bool, x: TypeId)
    requires ty.Sound() && Consistent(t) && Homogeneous(ty, t.uc) && Nested(ty, s, d)
    requires !ty.IsBase(x) && FindGroup(t.uc, x) != 0
    requires FindGroup(Inner(ty, t, s, d, valid).0.uc, x) != FindGroup(t.uc, x)
    ensures !Inner(ty, t, s, d, valid).1
    ensures FindGroup(t.uc, x) == FindGroup(t.uc, ty.base(d))
    ensures FindGroup(t.uc, ty.base(s)) != FindGroup(t.uc, x) && FindGroup(t.uc, ty.base(s)) != 0
    ensures Invalid(t.uc, FindGroup(t.uc, x))
  {
    var sb, db := ty.base(s), ty.base(d);
    assert ty.base(sb) == sb && ty.base(db) == db;
    var gs, gd := FindGroup(t.uc, sb), FindGroup(t.uc, db);
    BaseLabels(t, sb, db);
    EnterGroup(t, sb, db, gs, gd, Fits(ty, sb, db, Fits(ty, s, d, valid)), x);
    FindGroupOf(t.uc, x);
    var i :| 0 <= i < |t.uc| && t.uc[i].te == x && t.uc[i].group == gd;
    if !Invalid(t.uc, gd) {
      AlikeInGroup(ty, t, db, i);
    }
    RelabelEntries(t.uc, gd, gs, Fits(ty, sb, db, Fits(ty, s, d, valid)));
  }

  lemma BaseLabels(t: Table, s: TypeId, d: TypeId)
    requires Consistent(t)
    ensures Labels(t, s, d, FindGroup(t.uc, s), FindGroup(t.uc, d))
  {
    FindGroupOf(t.uc, s);
    FindGroupOf(t.uc, d);
  }

  /** The state in which Enter is called for s and d. */
  lemma InnerState(ty: Types, t: Table, s: TypeId, d: TypeId, valid: bool)
    requires ty.Sound() && Consistent(t) && Homogeneous(ty, t.uc)
    ensures var inner := Inner(ty, t, s, d, valid);
      var sGrp, dGrp := FindGroup(t.uc, s), FindGroup(t.uc, d);
      && Consistent(inner.0) && Homogeneous(ty, inner.0.uc)
      && Labels(inner.0, s, d, sGrp, dGrp) && Current(ty, inner.0, s, d, sGrp, dGrp, inner.1)
  {
    BaseLabels(t, s, d);
    if Nested(ty, s, d) {
      var sb, db := ty.base(s), ty.base(d);
      assert ty.base(sb) == sb && ty.base(db) == db;
      var gs, gd, ok := FindGroup(t.uc, sb), FindGroup(t.uc, db), Fits(ty, sb, db, Fits(ty, s, d, valid));
      BaseLabels(t, sb, db);
      EnterConsistent(t, sb, db, gs, gd, ok);
      EnterHomogeneous(ty, t, sb, db, gs, gd, ok);
      EnterGroup(t, sb, db, gs, gd, ok, s);
      EnterGroup(t, sb, db, gs, gd, ok, d);
      if FindGroup(t.uc, s) != 0 && FindGroup(Inner(ty, t, s, d, valid).0.uc, s) != FindGroup(t.uc, s) {
        StaleGroupIsInvalid(ty, t, s, d, valid, s);
      }
      if FindGroup(t.uc, d) != 0 && FindGroup(Inner(ty, t, s, d, valid).0.uc, d) != FindGroup(t.uc, d) {
        StaleGroupIsInvalid(ty, t, s, d, valid, d);
      }
    }
  }

  /** Every Add_To_UC keeps the table consistent and its valid groups homogeneous. */
  lemma AddKeepsHomogeneous(ty: Types, t: Table, s: TypeId, d: TypeId, valid: bool)
    requires ty.Sound() && Consistent(t) && Homogeneous(ty, t.uc)
    ensures Consistent(AddToUC(ty, t, s, d, valid).0)
    ensures Homogeneous(ty, AddToUC(ty, t, s, d, valid).0.uc)
  {
    AddIsEnter(ty, t, s, d, valid);
    InnerState(ty, t, s, d, valid);
    var inner := Inner(ty, t, s, d, valid);
    EnterConsistent(inner.0, s, d, FindGroup(t.uc, s), FindGroup(t.uc, d), inner.1);
    EnterHomogeneous(ty, inner.0, s, d, FindGroup(t.uc, s), FindGroup(t.uc, d), inner.1);
  }

  /** Two linked types are treated alike: they are in one group, or both in groups whose types get no tag. */
  predicate Together(uc: seq<Entry>, a: TypeId, b: TypeId) {
    var ga, gb := FindGroup(uc, a), FindGroup(uc, b);
    ga != 0 && gb != 0 && (ga == gb || (Invalid(uc, ga) && Invalid(uc, gb)))
  }

  lemma EnterKeepsTogether(t: Table, s: TypeId, d: TypeId, sGrp: nat, dGrp: nat, ok: bool, a: TypeId, b: TypeId)
    requires Consistent(t) && Labels(t, s, d, sGrp, dGrp) && Together(t.uc, a, b)
    ensures Together(Enter(t, s, d, sGrp, dGrp, ok).0.uc, a, b)
  {
    EnterGroup(t, s, d, sGrp, dGrp, ok, a);
    EnterGroup(t, s, d, sGrp, dGrp, ok, b);
    if FindGroup(t.uc, a) != FindGroup(t.uc, b) {
      InvalidStays(t, s, d, sGrp, dGrp, ok, a);
      InvalidStays(t, s, d, sGrp, dGrp, ok, b);
    }
  }

  /** Types that are treated alike stay so. */
  lemma AddKeepsTogether(ty: Types, t: Table, s: TypeId, d: TypeId, valid: bool, a: TypeId, b: TypeId)
    requires ty.Sound() && Consistent(t) && Homogeneous(ty, t.uc) && Together(t.uc, a, b)
    ensures Together(AddToUC(ty, t, s, d, valid).0.uc, a, b)
  {
    AddIsEnter(ty, t, s, d, valid);
    InnerState(ty, t, s, d, valid);
    if Nested(ty, s, d) {
      var sb, db := ty.base(s), ty.base(d);
      BaseLabels(t, sb, db);
      EnterKeepsTogether(t, sb, db, FindGroup(t.uc, sb), FindGroup(t.uc, db), Fits(ty, sb, db, Fits(ty, s, d, valid)), a, b);
    }
    var inner := Inner(ty, t, s, d, valid);
    EnterKeepsTogether(inner.0, s, d, FindGroup(t.uc, s), FindGroup(t.uc, d), inner.1, a, b);
  }

  /**
   The guard under which a link is lost. The target's group was read before the recursive call for the base
   types, which then moved that group into the group of the source's base; the final loop looks for the
   old number and finds nothing, although the source is in a third group that is still valid.
   */
  predicate Loses(ty: Types, t: Table, s: TypeId, d: TypeId) {
    Nested(ty, s, d) &&
    var sGrp, dGrp := FindGroup(t.uc, s), FindGroup(t.uc, d);
    var sbGrp, dbGrp := FindGroup(t.uc, ty.base(s)), FindGroup(t.uc, ty.base(d));
    && dGrp != 0 && dGrp == dbGrp && sbGrp != 0 && sbGrp != dbGrp
    && sGrp != 0 && sGrp != sbGrp && sGrp != dbGrp && !Invalid(t.uc, sGrp)
  }

  /** Entering types with current groups puts them into one group. */
  lemma EnterLinks(t: Table, s: TypeId, d: TypeId, ok: bool)
    requires Consistent(t)
    ensures Together(Enter(t, s, d, FindGroup(t.uc, s), FindGroup(t.uc, d), ok).0.uc, s, d)
  {
    BaseLabels(t, s, d);
    EnterGroup(t, s, d, FindGroup(t.uc, s), FindGroup(t.uc, d), ok, s);
    EnterGroup(t, s, d, FindGroup(t.uc, s), FindGroup(t.uc, d), ok, d);
  }

  lemma RelabelOthers(uc: seq<Entry>, from: nat, to: nat, ok: bool, g: nat)
    requires g != from && g != to
    ensures Invalid(Relabel(uc, from, to, ok).0, g) <==> Invalid(uc, g)
  {
    RelabelEntries(uc, from, to, ok);
    var r := Relabel(uc, from, to, ok).0;
    if i :| 0 <= i < |uc| && uc[i].group == g && !uc[i].valid {
      assert r[i].group == g && !r[i].valid;
    }
    if i :| 0 <= i < |r| && r[i].group == g && !r[i].valid {
      assert uc[i].group == g && !uc[i].valid;
    }
  }

  /** The groups after the recursive call, when it has moved the target base's group. */
  lemma MovedGroups(ty: Types, t: Table, s: TypeId, d: TypeId, valid: bool, x: TypeId)
    requires ty.Sound() && Consistent(t) && Nested(ty, s, d)
    requires var gs, gd := FindGroup(t.uc, ty.base(s)), FindGroup(t.uc, ty.base(d)); gs != 0 && gd != 0 && gs != gd
    ensures var gs, gd := FindGroup(t.uc, ty.base(s)), FindGroup(t.uc, ty.base(d));
      var uc := Inner(ty, t, s, d, valid).0.uc;
      && FindGroup(uc, x) == (if FindGroup(t.uc, x) == gd then gs else FindGroup(t.uc, x))
      && FindGroup(uc, x) != gd
      && (forall g :: g != gs && g != gd ==> (Invalid(uc, g) <==> Invalid(t.uc, g)))
      && (FindGroup(t.uc, x) == gd && Invalid(t.uc, gd) ==> Invalid(uc, gs))
  {
    var sb, db := ty.base(s), ty.base(d);
    var gs, gd, ok := FindGroup(t.uc, sb), FindGroup(t.uc, db), Fits(ty, sb, db, Fits(ty, s, d, valid));
    BaseLabels(t, sb, db);
    EnterGroup(t, sb, db, gs, gd, ok, x);
    forall g | g != gs && g != gd ensures Invalid(Inner(ty, t, s, d, valid).0.uc, g) <==> Invalid(t.uc, g) {
      RelabelOthers(t.uc, gd, gs, ok, g);
    }
    if FindGroup(t.uc, x) == gd && Invalid(t.uc, gd) {
      InvalidStays(t, sb, db, gs, gd, ok, x);
    }
  }

  /** The source's group was moved by the recursive call. */
  lemma StaleSource(ty: Types, t: Table, s: TypeId, d: TypeId, valid: bool)
    requires ty.Sound() && Consistent(t) && Homogeneous(ty, t.uc) && Nested(ty, s, d) && FindGroup(t.uc, s) != 0
    requires FindGroup(Inner(ty, t, s, d, valid).0.uc, s) != FindGroup(t.uc, s)
    ensures Together(AddToUC(ty, t, s, d, valid).0.uc, s, d)
  {
    AddIsEnter(ty, t, s, d, valid);
    InnerState(ty, t, s, d, valid);
    StaleGroupIsInvalid(ty, t, s, d, valid, s);
    MovedGroups(ty, t, s, d, valid, s);
    MovedGroups(ty, t, s, d, valid, d);
    var inner, sGrp, dGrp := Inner(ty, t, s, d, valid), FindGroup(t.uc, s), FindGroup(t.uc, d);
    EnterGroup(inner.0, s, d, sGrp, dGrp, inner.1, s);
    EnterGroup(inner.0, s, d, sGrp, dGrp, inner.1, d);
    InvalidStays(inner.0, s, d, sGrp, dGrp, inner.1, s);
    if dGrp == 0 || FindGroup(inner.0.uc, d) == dGrp {
      EnterInvalid(inner.0, s, d, sGrp, dGrp, inner.1, d);
    }
  }

  /** Only the target's group was moved by the recursive call. */
  lemma StaleTarget(ty: Types, t: Table, s: TypeId, d: TypeId, valid: bool)
    requires ty.Sound() && Consistent(t) && Homogeneous(ty, t.uc) && Nested(ty, s, d) && FindGroup(t.uc, d) != 0
    requires FindGroup(Inner(ty, t, s, d, valid).0.uc, d) != FindGroup(t.uc, d)
    requires FindGroup(Inner(ty, t, s, d, valid).0.uc, s) == FindGroup(t.uc, s)
    ensures Together(AddToUC(ty, t, s, d, valid).0.uc, s, d) <==> !Loses(ty, t, s, d)
  {
    AddIsEnter(ty, t, s, d, valid);
    InnerState(ty, t, s, d, valid);
    StaleGroupIsInvalid(ty, t, s, d, valid, d);
    MovedGroups(ty, t, s, d, valid, s);
    MovedGroups(ty, t, s, d, valid, d);
    var inner, sGrp, dGrp := Inner(ty, t, s, d, valid), FindGroup(t.uc, s), FindGroup(t.uc, d);
    EnterGroup(inner.0, s, d, sGrp, dGrp, inner.1, s);
    EnterGroup(inner.0, s, d, sGrp, dGrp, inner.1, d);
    InvalidStays(inner.0, s, d, sGrp, dGrp, inner.1, d);
    if sGrp == 0 {
      EnterInvalid(inner.0, s, d, sGrp, dGrp, inner.1, s);
    } else {
      NothingToMove(ty, t, s, d, valid);
    }
  }

  /** After the recursive call no entry has the old group number of the target. */
  lemma NothingToMove(ty: Types, t: Table, s: TypeId, d: TypeId, valid: bool)
    requires ty.Sound() && Consistent(t) && Nested(ty, s, d) && Consistent(Inner(ty, t, s, d, valid).0)
    requires var gs, gd := FindGroup(t.uc, ty.base(s)), FindGroup(t.uc, ty.base(d));
      gs != 0 && gd != 0 && gs != gd && FindGroup(t.uc, d) == gd && FindGroup(t.uc, s) != 0
    ensures var inner := Inner(ty, t, s, d, valid).0;
      Enter(inner, s, d, FindGroup(t.uc, s), FindGroup(t.uc, d), Inner(ty, t, s, d, valid).1).0.uc == inner.uc
  {
    var inner, ok := Inner(ty, t, s, d, valid).0, Inner(ty, t, s, d, valid).1;
    var gd := FindGroup(t.uc, d);
    forall i | 0 <= i < |inner.uc| ensures inner.uc[i].group != gd {
      GroupOfEntry(inner, i);
      MovedGroups(ty, t, s, d, valid, inner.uc[i].te);
    }
    RelabelEntries(inner.uc, gd, FindGroup(t.uc, s), ok);
  }

  /** Add_To_UC treats its two types alike from then on, unless the guard Loses holds before the call. */
  lemma AddLinksExactly(ty: Types, t: Table, s: TypeId, d: TypeId, valid: bool)
    requires ty.Sound() && Consistent(t) && Homogeneous(ty, t.uc)
    ensures Together(AddToUC(ty, t, s, d, valid).0.uc, s, d) <==> !Loses(ty, t, s, d)
  {
    InnerState(ty, t, s, d, valid);
    var inner := Inner(ty, t, s, d, valid);
    if FindGroup(inner.0.uc, s) != FindGroup(t.uc, s) {
      StaleSource(ty, t, s, d, valid);
      SourceNotLost(ty, t, s, d, valid);
    } else if FindGroup(inner.0.uc, d) != FindGroup(t.uc, d) {
      StaleTarget(ty, t, s, d, valid);
    } else {
      AddIsEnter(ty, t, s, d, valid);
      EnterLinks(inner.0, s, d, inner.1);
      if Loses(ty, t, s, d) {
        MovedGroups(ty, t, s, d, valid, d);
      }
    }
  }

  lemma SourceNotLost(ty: Types, t: Table, s: TypeId, d: TypeId, valid: bool)
    requires ty.Sound() && Consistent(t) && Homogeneous(ty, t.uc) && Nested(ty, s, d) && FindGroup(t.uc, s) != 0
    requires FindGroup(Inner(ty, t, s, d, valid).0.uc, s) != FindGroup(t.uc, s)
    ensures !Loses(ty, t, s, d)
  {
    StaleGroupIsInvalid(ty, t, s, d, valid, s);
  }

  /** The base types of two linked types are treated alike in every case. */
  lemma AddLinksBases(ty: Types, t: Table, s: TypeId, d: TypeId, valid: bool)
    requires ty.Sound() && Consistent(t) && Homogeneous(ty, t.uc) && Nested(ty, s, d)
    ensures Together(AddToUC(ty, t, s, d, valid).0.uc, ty.base(s), ty.base(d))
  {
    AddIsEnter(ty, t, s, d, valid);
    InnerState(ty, t, s, d, valid);
    var inner := Inner(ty, t, s, d, valid);
    EnterLinks(t, ty.base(s), ty.base(d), Fits(ty, ty.base(s), ty.base(d), Fits(ty, s, d, valid)));
    EnterKeepsTogether(inner.0, s, d, FindGroup(t.uc, s), FindGroup(t.uc, d), inner.1, ty.base(s), ty.base(d));
  }

  /** One of two linked types gets no tag, or both are in one group. */
  predicate Covered(uc: seq<Entry>, a: TypeId, b: TypeId) {
    var ga, gb := FindGroup(uc, a), FindGroup(uc, b);
    ga != 0 && gb != 0 && (ga == gb || Invalid(uc, ga) || Invalid(uc, gb))
  }

  lemma EnterKeepsCovered(t: Table, s: TypeId, d: TypeId, sGrp: nat, dGrp: nat, ok: bool, a: TypeId, b: TypeId)
    requires Consistent(t) && Labels(t, s, d, sGrp, dGrp) && Covered(t.uc, a, b)
    ensures Covered(Enter(t, s, d, sGrp, dGrp, ok).0.uc, a, b)
  {
    EnterGroup(t, s, d, sGrp, dGrp, ok, a);
    EnterGroup(t, s, d, sGrp, dGrp, ok, b);
    if Invalid(t.uc, FindGroup(t.uc, a)) {
      InvalidStays(t, s, d, sGrp, dGrp, ok, a);
    } else if Invalid(t.uc, FindGroup(t.uc, b)) {
      InvalidStays(t, s, d, sGrp, dGrp, ok, b);
    }
  }

  lemma AddKeepsCovered(ty: Types, t: Table, s: TypeId, d: TypeId, valid: bool, a: TypeId, b: TypeId)
    requires ty.Sound() && Consistent(t) && Homogeneous(ty, t.uc) && Covered(t.uc, a, b)
    ensures Covered(AddToUC(ty, t, s, d, valid).0.uc, a, b)
  {
    AddIsEnter(ty, t, s, d, valid);
    InnerState(ty, t, s, d, valid);
    if Nested(ty, s, d) {
      var sb, db := ty.base(s), ty.base(d);
      BaseLabels(t, sb, db);
      EnterKeepsCovered(t, sb, db, FindGroup(t.uc, sb), FindGroup(t.uc, db), Fits(ty, sb, db, Fits(ty, s, d, valid)), a, b);
    }
    var inner := Inner(ty, t, s, d, valid);
    EnterKeepsCovered(inner.0, s, d, FindGroup(t.uc, s), FindGroup(t.uc, d), inner.1, a, b);
  }

  /** Even when a link is lost, its target is left without a tag. */
  lemma AddCovers(ty: Types, t: Table, s: TypeId, d: TypeId, valid: bool)
    requires ty.Sound() && Consistent(t) && Homogeneous(ty, t.uc)
    ensures Covered(AddToUC(ty, t, s, d, valid).0.uc, s, d)
  {
    AddLinksExactly(ty, t, s, d, valid);
    if Loses(ty, t, s, d) {
      MovedGroups(ty, t, s, d, valid, d);
      StaleGroupIsInvalid(ty, t, s, d, valid, d);
      AddKeepsCovered(ty, t, s, d, valid, s, d);
    }
  }

  /** The base types of the types of a valid group are treated alike too. */
  predicate BasesLinked(ty: Types, uc: seq<Entry>) {
    forall i, j :: 0 <= i < |uc| && 0 <= j < |uc| && uc[i].group == uc[j].group && !Invalid(uc, uc[i].group) && !ty.IsBase(uc[i].te)
      ==> Together(uc, ty.base(uc[i].te), ty.base(uc[j].te))
  }

  /** The base types of x, of a valid group, and of an entry of the group. */
  lemma BaseInGroup(ty: Types, t: Table, x: TypeId, i: nat)
    requires Consistent(t) && Homogeneous(ty, t.uc) && BasesLinked(ty, t.uc) && i < |t.uc|
    requires FindGroup(t.uc, x) == t.uc[i].group && !Invalid(t.uc, t.uc[i].group) && !ty.IsBase(t.uc[i].te)
    ensures Together(t.uc, ty.base(x), ty.base(t.uc[i].te)) && !ty.IsBase(x)
  {
    AlikeInGroup(ty, t, x, i);
    FindGroupOf(t.uc, x);
    var k :| 0 <= k < |t.uc| && t.uc[k].te == x && t.uc[k].group == FindGroup(t.uc, x);
  }

  /** What Enter is given when it links s and d validly. */
  predicate LinksBases(ty: Types, t: Table, s: TypeId, d: TypeId, ok: bool) {
    ok && !ty.IsBase(s) ==> Together(t.uc, ty.base(s), ty.base(d))
  }

  lemma EnterKeepsBases(ty: Types, t: Table, s: TypeId, d: TypeId, sGrp: nat, dGrp: nat, ok: bool)
    requires Consistent(t) && Homogeneous(ty, t.uc) && Labels(t, s, d, sGrp, dGrp) && Current(ty, t, s, d, sGrp, dGrp, ok)
    requires BasesLinked(ty, t.uc) && LinksBases(ty, t, s, d, ok)
    ensures BasesLinked(ty, Enter(t, s, d, sGrp, dGrp, ok).0.uc)
  {
    var uc := Enter(t, s, d, sGrp, dGrp, ok).0.uc;
    EnterEntries(t, s, d, sGrp, dGrp, ok);
    EnterHomogeneous(ty, t, s, d, sGrp, dGrp, ok);
    forall i, j | 0 <= i < |uc| && 0 <= j < |uc| && uc[i].group == uc[j].group && !Invalid(uc, uc[i].group) && !ty.IsBase(uc[i].te)
      ensures Together(uc, ty.base(uc[i].te), ty.base(uc[j].te))
    {
      assert Alike(ty, uc[i].te, uc[j].te);
      BasesOfPair(ty, t, s, d, sGrp, dGrp, ok, i, j);
      EnterKeepsTogether(t, s, d, sGrp, dGrp, ok, ty.base(uc[i].te), ty.base(uc[j].te));
    }
  }

  lemma BasesOfPair(ty: Types, t: Table, s: TypeId, d: TypeId, sGrp: nat, dGrp: nat, ok: bool, i: nat, j: nat)
    requires Consistent(t) && Homogeneous(ty, t.uc) && Labels(t, s, d, sGrp, dGrp) && Current(ty, t, s, d, sGrp, dGrp, ok)
    requires BasesLinked(ty, t.uc) && LinksBases(ty, t, s, d, ok)
    requires var uc := Enter(t, s, d, sGrp, dGrp, ok).0.uc;
      && i < |uc| && j < |uc| && uc[i].group == uc[j].group && !Invalid(uc, uc[i].group)
      && !ty.IsBase(uc[i].te) && !ty.IsBase(uc[j].te)
    ensures var uc := Enter(t, s, d, sGrp, dGrp, ok).0.uc; Together(t.uc, ty.base(uc[i].te), ty.base(uc[j].te))
  {
    var uc := Enter(t, s, d, sGrp, dGrp, ok).0.uc;
    EnterEntries(t, s, d, sGrp, dGrp, ok);
    if i < |t.uc| && j < |t.uc| {
      GroupOfEntry(t, i);
      GroupOfEntry(t, j);
      ValidBefore(t, s, d, sGrp, dGrp, ok, i);
      ValidBefore(t, s, d, sGrp, dGrp, ok, j);
      if t.uc[i].group != t.uc[j].group {
        RelabelEntries(t.uc, dGrp, sGrp, ok);
        assert uc[i].valid && uc[j].valid && ok;
        var a, b := if t.uc[i].group == dGrp then i else j, if t.uc[i].group == dGrp then j else i;
        BaseInGroup(ty, t, d, a);
        BaseInGroup(ty, t, s, b);
      }
    } else {
      assert uc[i].valid && uc[j].valid && ok;
      NewPairBases(ty, t, s, d, sGrp, dGrp, ok, i, j);
    }
  }

  lemma NewPairBases(ty: Types, t: Table, s: TypeId, d: TypeId, sGrp: nat, dGrp: nat, ok: bool, i: nat, j: nat)
    requires Consistent(t) && Homogeneous(ty, t.uc) && Labels(t, s, d, sGrp, dGrp) && Current(ty, t, s, d, sGrp, dGrp, ok)
    requires BasesLinked(ty, t.uc) && LinksBases(ty, t, s, d, ok) && ok
    requires var uc := Enter(t, s, d, sGrp, dGrp, ok).0.uc;
      && |t.uc| <= |uc| && i < |uc| && j < |uc| && uc[i].group == uc[j].group && !Invalid(uc, uc[i].group)
      && !ty.IsBase(uc[i].te) && !ty.IsBase(uc[j].te) && (i >= |t.uc| || j >= |t.uc|)
    ensures var uc := Enter(t, s, d, sGrp, dGrp, ok).0.uc; Together(t.uc, ty.base(uc[i].te), ty.base(uc[j].te))
  {
    EnterEntries(t, s, d, sGrp, dGrp, ok);
    if i < |t.uc| {
      GroupOfEntry(t, i);
      ValidBefore(t, s, d, sGrp, dGrp, ok, i);
      BaseInGroup(ty, t, if sGrp == 0 then d else s, i);
    } else if j < |t.uc| {
      GroupOfEntry(t, j);
      ValidBefore(t, s, d, sGrp, dGrp, ok, j);
      BaseInGroup(ty, t, if sGrp == 0 then d else s, j);
    }
  }

  /** Every Add_To_UC keeps the base types of valid groups linked. */
  lemma AddKeepsBases(ty: Types, t: Table, s: TypeId, d: TypeId, valid: bool)
    requires ty.Sound() && Consistent(t) && Homogeneous(ty, t.uc) && BasesLinked(ty, t.uc)
    ensures BasesLinked(ty, AddToUC(ty, t, s, d, valid).0.uc)
  {
    AddIsEnter(ty, t, s, d, valid);
    InnerState(ty, t, s, d, valid);
    var inner := Inner(ty, t, s, d, valid);
    if Nested(ty, s, d) {
      var sb, db := ty.base(s), ty.base(d);
      assert ty.base(sb) == sb && ty.base(db) == db;
      var ok := Fits(ty, sb, db, Fits(ty, s, d, valid));
      BaseLabels(t, sb, db);
      EnterKeepsBases(ty, t, sb, db, FindGroup(t.uc, sb), FindGroup(t.uc, db), ok);
      EnterLinks(t, sb, db, ok);
    }
    EnterKeepsBases(ty, inner.0, s, d, FindGroup(t.uc, s), FindGroup(t.uc, d), inner.1);
  }

  /** A conversion between access types, by its designated source and target types. */
  datatype Conversion = Conversion(source: TypeId, target: TypeId)

  /** Search_For_UCs: enter the conversions one after the other. */
  function Search(ty: Types, t: Table, cs: seq<Conversion>): Table
    requires ty.Sound()
    decreases |cs|
  {
    if cs == [] then t else Search(ty, AddToUC(ty, t, cs[0].source, cs[0].target, true).0, cs[1..])
  }

  /** No conversion of the run meets the guard. */
  predicate NoneLost(ty: Types, t: Table, cs: seq<Conversion>)
    requires ty.Sound()
    decreases |cs|
  {
    cs == [] ||
    (!Loses(ty, t, cs[0].source, cs[0].target)
     && NoneLost(ty, AddToUC(ty, t, cs[0].source, cs[0].target, true).0, cs[1..]))
  }

  /** Over every run: the table stays consistent and its valid groups homogeneous, and links are kept. */
  lemma {:induction false} SearchKeeps(ty: Types, t: Table, cs: seq<Conversion>)
    requires ty.Sound() && Consistent(t) && Homogeneous(ty, t.uc)
    ensures Consistent(Search(ty, t, cs)) && Homogeneous(ty, Search(ty, t, cs).uc)
    ensures forall a, b :: Together(t.uc, a, b) ==> Together(Search(ty, t, cs).uc, a, b)
    decreases |cs|
  {
    if cs != [] {
      var s, d := cs[0].source, cs[0].target;
      AddKeepsHomogeneous(ty, t, s, d, true);
      SearchKeeps(ty, AddToUC(ty, t, s, d, true).0, cs[1..]);
      forall a, b | Together(t.uc, a, b) ensures Together(AddToUC(ty, t, s, d, true).0.uc, a, b) {
        AddKeepsTogether(ty, t, s, d, true, a, b);
      }
    }
  }

  lemma {:induction false} SearchLinks(ty: Types, t: Table, cs: seq<Conversion>)
    requires ty.Sound() && Consistent(t) && Homogeneous(ty, t.uc) && NoneLost(ty, t, cs)
    ensures forall c :: c in cs ==> Together(Search(ty, t, cs).uc, c.source, c.target)
    decreases |cs|
  {
    if cs != [] {
      var s, d := cs[0].source, cs[0].target;
      var t' := AddToUC(ty, t, s, d, true).0;
      AddKeepsHomogeneous(ty, t, s, d, true);
      AddLinksExactly(ty, t, s, d, true);
      SearchKeeps(ty, t', cs[1..]);
      SearchLinks(ty, t', cs[1..]);
      assert cs == [cs[0]] + cs[1..];
    }
  }

  /** After a run, the types of each of its conversions are linked. */
  predicate AllLinked(ty: Types, t: Table, cs: seq<Conversion>)
    requires ty.Sound()
  {
    forall c :: c in cs ==> Together(Search(ty, t, cs).uc, c.source, c.target)
  }

  /** After every conversion of the run all links so far hold. */
  predicate LinkedThroughout(ty: Types, t: Table, cs: seq<Conversion>)
    requires ty.Sound()
  {
    forall n :: 0 <= n <= |cs| ==> AllLinked(ty, t, cs[..n])
  }

  /** The guard is met nowhere in a run if and only if after each of its conversions all links so far hold. */
  lemma {:induction false} NoneLostExactly(ty: Types, t: Table, cs: seq<Conversion>)
    requires ty.Sound() && Consistent(t) && Homogeneous(ty, t.uc)
    ensures NoneLost(ty, t, cs) <==> LinkedThroughout(ty, t, cs)
    decreases |cs|
  {
    if NoneLost(ty, t, cs) {
      forall n | 0 <= n <= |cs| ensures AllLinked(ty, t, cs[..n]) {
        NoneLostBefore(ty, t, cs, n);
        SearchLinks(ty, t, cs[..n]);
      }
    } else if LinkedThroughout(ty, t, cs) {
      assert AllLinked(ty, t, cs[..1]);
      FirstLinked(ty, t, cs);
      AddKeepsHomogeneous(ty, t, cs[0].source, cs[0].target, true);
      var t' := AddToUC(ty, t, cs[0].source, cs[0].target, true).0;
      forall n | 0 <= n <= |cs[1..]| ensures AllLinked(ty, t', cs[1..][..n]) {
        assert AllLinked(ty, t, cs[..n + 1]);
        LinkedTail(ty, t, cs, n);
      }
      NoneLostExactly(ty, t', cs[1..]);
    }
  }

  lemma {:induction false} NoneLostBefore(ty: Types, t: Table, cs: seq<Conversion>, n: nat)
    requires ty.Sound() && NoneLost(ty, t, cs) && n <= |cs|
    ensures NoneLost(ty, t, cs[..n])
    decreases n
  {
    if n > 0 {
      assert cs[..n][1..] == cs[1..][..n - 1];
      NoneLostBefore(ty, AddToUC(ty, t, cs[0].source, cs[0].target, true).0, cs[1..], n - 1);
    }
  }

  lemma FirstLinked(ty: Types, t: Table, cs: seq<Conversion>)
    requires ty.Sound() && Consistent(t) && Homogeneous(ty, t.uc) && cs != [] && AllLinked(ty, t, cs[..1])
    ensures !Loses(ty, t, cs[0].source, cs[0].target)
  {
    var first := cs[..1];
    assert first != [] && first[1..] == [] && cs[0] == first[0] && cs[0] in first;
    assert Search(ty, t, first) == AddToUC(ty, t, cs[0].source, cs[0].target, true).0;
    assert Together(Search(ty, t, first).uc, cs[0].source, cs[0].target);
    AddLinksExactly(ty, t, cs[0].source, cs[0].target, true);
  }

  lemma LinkedTail(ty: Types, t: Table, cs: seq<Conversion>, n: nat)
    requires ty.Sound() && n < |cs| && AllLinked(ty, t, cs[..n + 1])
    ensures AllLinked(ty, AddToUC(ty, t, cs[0].source, cs[0].target, true).0, cs[1..][..n])
  {
    assert cs[..n + 1][1..] == cs[1..][..n];
    assert cs[..n + 1] == [cs[0]] + cs[1..][..n];
  }

  /** Over every run, without any condition: of two converted types one gets no tag, or both are in one group. */
  lemma {:induction false} SearchCovers(ty: Types, t: Table, cs: seq<Conversion>)
    requires ty.Sound() && Consistent(t) && Homogeneous(ty, t.uc)
    ensures forall c :: c in cs ==> Covered(Search(ty, t, cs).uc, c.source, c.target)
    ensures forall a, b :: Covered(t.uc, a, b) ==> Covered(Search(ty, t, cs).uc, a, b)
    decreases |cs|
  {
    if cs != [] {
      var s, d := cs[0].source, cs[0].target;
      var t' := AddToUC(ty, t, s, d, true).0;
      AddKeepsHomogeneous(ty, t, s, d, true);
      AddCovers(ty, t, s, d, true);
      SearchCovers(ty, t', cs[1..]);
      forall a, b | Covered(t.uc, a, b) ensures Covered(t'.uc, a, b) {
        AddKeepsCovered(ty, t, s, d, true, a, b);
      }
      assert cs == [cs[0]] + cs[1..];
    }
  }

  lemma {:induction false} SearchKeepsBases(ty: Types, t: Table, cs: seq<Conversion>)
    requires ty.Sound() && Consistent(t) && Homogeneous(ty, t.uc) && BasesLinked(ty, t.uc)
    ensures BasesLinked(ty, Search(ty, t, cs).uc)
    decreases |cs|
  {
    if cs != [] {
      AddKeepsHomogeneous(ty, t, cs[0].source, cs[0].target, true);
      AddKeepsBases(ty, t, cs[0].source, cs[0].target, true);
      SearchKeepsBases(ty, AddToUC(ty, t, cs[0].source, cs[0].target, true).0, cs[1..]);
    }
  }

  /** Each type of the path is linked to the next one by a recorded conversion, in either direction. */
  predicate Chain(cs: seq<Conversion>, path: seq<TypeId>) {
    forall i :: 0 <= i < |path| - 1 ==>
      Conversion(path[i], path[i + 1]) in cs || Conversion(path[i + 1], path[i]) in cs
  }

  /** All types of the path are in one group, or all are in groups with an invalid entry. */
  predicate Settled(uc: seq<Entry>, path: seq<TypeId>) {
    || (forall i, j :: 0 <= i < j < |path| ==> FindGroup(uc, path[i]) == FindGroup(uc, path[j]))
    || (forall i :: 0 <= i < |path| ==> Invalid(uc, FindGroup(uc, path[i])))
  }

  lemma {:induction false} ChainSettles(cs: seq<Conversion>, uc: seq<Entry>, path: seq<TypeId>)
    requires Chain(cs, path) && forall c :: c in cs ==> Together(uc, c.source, c.target)
    ensures Settled(uc, path)
  {
    if |path| > 1 {
      var rest := path[1..];
      assert Chain(cs, rest) by {
        forall i | 0 <= i < |rest| - 1
          ensures Conversion(rest[i], rest[i + 1]) in cs || Conversion(rest[i + 1], rest[i]) in cs
        {
          assert rest[i] == path[i + 1] && rest[i + 1] == path[i + 2];
        }
      }
      ChainSettles(cs, uc, rest);
      assert Together(uc, path[0], path[1]) || Together(uc, path[1], path[0]) by {
        assert 0 <= 0 < |path| - 1;
        assert Conversion(path[0], path[1]) in cs || Conversion(path[1], path[0]) in cs;
      }
      assert rest[0] == path[1];
      assert forall i :: 1 <= i < |path| ==> path[i] == rest[i - 1];
    }
  }

  /**
   From an empty table, over every sequence of conversions in which none meets the guard: types that a chain
   of recorded conversions links end in one group, or all of them in groups that get no tag. In every run,
   the types of a group without an invalid entry have one size, are no aggregates, and are all base types or
   none is.
   */
  lemma LinkedTypesSettle(ty: Types, cs: seq<Conversion>, path: seq<TypeId>)
    requires ty.Sound()
    ensures Homogeneous(ty, Search(ty, Table([], 0), cs).uc)
    ensures NoneLost(ty, Table([], 0), cs) && Chain(cs, path) ==> Settled(Search(ty, Table([], 0), cs).uc, path)
  {
    SearchKeeps(ty, Table([], 0), cs);
    if NoneLost(ty, Table([], 0), cs) && Chain(cs, path) {
      SearchLinks(ty, Table([], 0), cs);
      ChainSettles(cs, Search(ty, Table([], 0), cs).uc, path);
    }
  }

  /** After the run, all types that a chain of its conversions links are treated alike. */
  ghost predicate ChainsSettled(ty: Types, cs: seq<Conversion>)
    requires ty.Sound()
  {
    forall path :: Chain(cs, path) ==> Settled(Search(ty, Table([], 0), cs).uc, path)
  }

  /** Chains settle if and only if every single conversion does. */
  lemma SettledIsLinked(ty: Types, cs: seq<Conversion>)
    requires ty.Sound()
    ensures ChainsSettled(ty, cs) <==> AllLinked(ty, Table([], 0), cs)
  {
    var uc := Search(ty, Table([], 0), cs).uc;
    if AllLinked(ty, Table([], 0), cs) {
      forall path | Chain(cs, path) ensures Settled(uc, path) {
        ChainSettles(cs, uc, path);
      }
    }
    if ChainsSettled(ty, cs) {
      SearchCovers(ty, Table([], 0), cs);
      forall c | c in cs ensures Together(uc, c.source, c.target) {
        PairSettled(ty, cs, c);
      }
    }
  }

  lemma PairSettled(ty: Types, cs: seq<Conversion>, c: Conversion)
    requires ty.Sound() && ChainsSettled(ty, cs) && c in cs
    requires Covered(Search(ty, Table([], 0), cs).uc, c.source, c.target)
    ensures Together(Search(ty, Table([], 0), cs).uc, c.source, c.target)
  {
    var pair := [c.source, c.target];
    assert pair[0] == c.source && pair[1] == c.target;
    assert Chain(cs, pair);
  }

  /**
   Over every sequence of conversions: types that a chain of recorded conversions links are in one group, or all of
   them in groups that get no tag, at every moment of the run, if and only if no conversion meets the guard Loses.
   */
  lemma ChainsSettleExactly(ty: Types, cs: seq<Conversion>)
    requires ty.Sound()
    ensures NoneLost(ty, Table([], 0), cs) <==> forall n :: 0 <= n <= |cs| ==> ChainsSettled(ty, cs[..n])
  {
    NoneLostExactly(ty, Table([], 0), cs);
    forall n | 0 <= n <= |cs| ensures ChainsSettled(ty, cs[..n]) <==> AllLinked(ty, Table([], 0), cs[..n]) {
      SettledIsLinked(ty, cs[..n]);
    }
  }

  /** Types 1, 2, 4, 5 are base types, 3, 6, 7 derive from 2, 4, 5; all are scalars of one size. */
  function SevenTypes(): Types {
    Types(t => if t == 3 then 2 else if t == 6 then 4 else if t == 7 then 5 else t, t => Some(8), t => false)
  }

  function LosingRun(): seq<Conversion> {
    [Conversion(1, 2), Conversion(1, 3), Conversion(6, 7), Conversion(6, 3)]
  }

  /**
   A run whose last conversion meets the guard: source 6 and target 3 do not end in one group, nor both in
   groups without a tag.
   */
  lemma LinkCanBeLost()
    ensures SevenTypes().Sound() && Chain(LosingRun(), [6, 3])
    ensures !Settled(Search(SevenTypes(), Table([], 0), LosingRun()).uc, [6, 3])
  {
    var ty := SevenTypes();
    var first := [Conversion(1, 2), Conversion(1, 3), Conversion(6, 7)];
    LostAfter(ty, Search(ty, Table([], 0), first), first);
    assert LosingRun() == first + [Conversion(6, 3)];
    SearchSplit(ty, Table([], 0), first, Conversion(6, 3));
    assert LosingRun()[3] == Conversion(6, 3);
  }

  lemma LostAfter(ty: Types, t: Table, first: seq<Conversion>)
    requires ty == SevenTypes() && ty.Sound() && t == Search(ty, Table([], 0), first)
    requires first == [Conversion(1, 2), Conversion(1, 3), Conversion(6, 7)]
    ensures !Settled(AddToUC(ty, t, 6, 3, true).0.uc, [6, 3])
  {
    SearchKeeps(ty, Table([], 0), first);
    FirstThree(ty);
    LosingGuard(ty, t);
    LostLink(ty, t, 6, 3);
  }

  lemma LostLink(ty: Types, t: Table, s: TypeId, d: TypeId)
    requires ty.Sound() && Consistent(t) && Homogeneous(ty, t.uc) && Loses(ty, t, s, d)
    ensures !Settled(AddToUC(ty, t, s, d, true).0.uc, [s, d])
  {
    AddLinksExactly(ty, t, s, d, true);
    AddKeepsTogether(ty, t, s, d, true, s, s);
    AddKeepsTogether(ty, t, s, d, true, d, d);
    assert [s, d][0] == s && [s, d][1] == d;
  }

  lemma {:induction false} SearchSplit(ty: Types, t: Table, cs: seq<Conversion>, c: Conversion)
    requires ty.Sound()
    ensures Search(ty, t, cs + [c]) == AddToUC(ty, Search(ty, t, cs), c.source, c.target, true).0
    decreases |cs|
  {
    if cs == [] {
      assert cs + [c] == [c];
    } else {
      assert (cs + [c])[1..] == cs[1..] + [c];
      SearchSplit(ty, AddToUC(ty, t, cs[0].source, cs[0].target, true).0, cs[1..], c);
    }
  }

  lemma FirstThree(ty: Types)
    requires ty == SevenTypes() && ty.Sound()
    ensures Search(ty, Table([], 0), [Conversion(1, 2), Conversion(1, 3), Conversion(6, 7)]) ==
      Table([Entry(1, 1, true), Entry(2, 1, true), Entry(3, 1, false), Entry(4, 2, true), Entry(5, 2, true),
             Entry(6, 3, true), Entry(7, 3, true)], 3)
  {
    FirstTwo(ty);
    var t := Table([Entry(1, 1, true), Entry(2, 1, true), Entry(3, 1, false)], 1);
    SixAndSeven(ty, t);
    assert [Conversion(1, 2), Conversion(1, 3), Conversion(6, 7)] == [Conversion(1, 2), Conversion(1, 3)] + [Conversion(6, 7)];
    SearchSplit(ty, Table([], 0), [Conversion(1, 2), Conversion(1, 3)], Conversion(6, 7));
  }

  lemma SixAndSeven(ty: Types, t: Table)
    requires ty == SevenTypes() && ty.Sound()
    requires t == Table([Entry(1, 1, true), Entry(2, 1, true), Entry(3, 1, false)], 1)
    ensures AddToUC(ty, t, 6, 7, true).0 ==
      Table([Entry(1, 1, true), Entry(2, 1, true), Entry(3, 1, false), Entry(4, 2, true), Entry(5, 2, true),
             Entry(6, 3, true), Entry(7, 3, true)], 3)
  {
    OneToThree(t);
    NewPair(ty, t, 6, 7);
  }

  lemma OneToThree(t: Table)
    requires t == Table([Entry(1, 1, true), Entry(2, 1, true), Entry(3, 1, false)], 1)
    ensures Consistent(t) && forall te :: te > 3 ==> !Present(t.uc, te)
  {
  }

  /** Two new types that fit, as do their new base types, get two new groups. */
  lemma NewPair(ty: Types, t: Table, s: TypeId, d: TypeId)
    requires ty.Sound() && Nested(ty, s, d) && Consistent(t)
    requires !Present(t.uc, s) && !Present(t.uc, d) && !Present(t.uc, ty.base(s)) && !Present(t.uc, ty.base(d))
    requires Fits(ty, s, d, true) && Fits(ty, ty.base(s), ty.base(d), true)
    ensures AddToUC(ty, t, s, d, true).0 ==
      Table(t.uc + [Entry(ty.base(s), t.last + 1, true), Entry(ty.base(d), t.last + 1, true),
                    Entry(s, t.last + 2, true), Entry(d, t.last + 2, true)], t.last + 2)
  {
    FindGroupOf(t.uc, s);
    FindGroupOf(t.uc, d);
    FindGroupOf(t.uc, ty.base(s));
    FindGroupOf(t.uc, ty.base(d));
    AddIsEnter(ty, t, s, d, true);
  }

  lemma FirstTwo(ty: Types)
    requires ty == SevenTypes() && ty.Sound()
    ensures Search(ty, Table([], 0), [Conversion(1, 2), Conversion(1, 3)]) ==
      Table([Entry(1, 1, true), Entry(2, 1, true), Entry(3, 1, false)], 1)
  {
    var t := Table([Entry(1, 1, true), Entry(2, 1, true)], 1);
    assert AddToUC(ty, Table([], 0), 1, 2, true).0 == t;
    assert AddToUC(ty, t, 1, 3, true).0 == Table([Entry(1, 1, true), Entry(2, 1, true), Entry(3, 1, false)], 1);
    assert [Conversion(1, 2), Conversion(1, 3)][1..] == [Conversion(1, 3)];
  }

  lemma LosingGuard(ty: Types, t: Table)
    requires ty == SevenTypes() && Consistent(t)
    requires t.uc == [Entry(1, 1, true), Entry(2, 1, true), Entry(3, 1, false), Entry(4, 2, true), Entry(5, 2, true),
                      Entry(6, 3, true), Entry(7, 3, true)]
    ensures Loses(ty, t, 6, 3) && FindGroup(t.uc, 6) != 0 && FindGroup(t.uc, 3) != 0
  {
    GroupOfEntry(t, 1);
    GroupOfEntry(t, 2);
    GroupOfEntry(t, 3);
    GroupOfEntry(t, 5);
  }

  /** What one round of the loop does to an entry and to Our_Valid. */
  function Move(e: Entry, from: nat, to: nat, ok: bool): (Entry, bool) {
    if e.group == from then (Entry(e.te, to, e.valid && ok), e.valid && ok) else (e, ok)
  }

  lemma RelabelHead(done: seq<Entry>, tail: seq<Entry>, from: nat, to: nat, ok: bool)
    requires tail != []
    ensures var head := Move(tail[0], from, to, ok);
      var all, rest := Relabel(tail, from, to, ok), Relabel(tail[1..], from, to, head.1);
      && all.1 == rest.1 && done + all.0 == done + [head.0] + rest.0
      && (done + tail)[|done| := head.0] == done + [head.0] + tail[1..]
  {
  }

  /** The UC table as the program keeps it. */
  class UcTable {
    var uc: seq<Entry>
    var lastGroup: nat

    constructor ()
      ensures uc == [] && lastGroup == 0
    {
      uc := [];
      lastGroup := 0;
    }

    method FindUcGroup(te: TypeId) returns (group: nat)
      ensures group == FindGroup(uc, te)
    {
      for j := 0 to |uc|
        invariant FindGroup(uc[j..], te) == FindGroup(uc, te)
      {
        assert uc[j..][0] == uc[j] && uc[j..][1..] == uc[j + 1..];
        if uc[j].te == te {
          return uc[j].group;
        }
      }
      group := 0;
    }

    /** Move group from into group to; the result is Our_Valid after the loop. */
    method MoveGroup(from: nat, to: nat, ourValid: bool) returns (ok: bool)
      modifies this`uc
      ensures (uc, ok) == Relabel(old(uc), from, to, ourValid)
    {
      ok := ourValid;
      ghost var goal, done, tail := Relabel(uc, from, to, ourValid), [], uc;
      assert [] + uc == uc && [] + goal.0 == goal.0;
      for j := 0 to |uc|
        invariant |done| == j <= |uc| == |goal.0| && uc == done + tail
        invariant done + Relabel(tail, from, to, ok).0 == goal.0
        invariant Relabel(tail, from, to, ok).1 == goal.1
      {
        RelabelHead(done, tail, from, to, ok);
        done, tail := done + [Move(tail[0], from, to, ok).0], tail[1..];
        if uc[j].group == from {
          uc := uc[j := uc[j].(group := to, valid := uc[j].valid && ok)];
          if !uc[j].valid {
            ok := false;
          }
        }
      }
      assert done + [] == done && uc == done;
    }

    /** Add_To_UC; the result is the Valid parameter afterwards. */
    method Add(ty: Types, s: TypeId, d: TypeId, valid: bool) returns (ok: bool)
      requires ty.Sound()
      modifies this
      ensures (Table(uc, lastGroup), ok) == AddToUC(ty, Table(old(uc), old(lastGroup)), s, d, valid)
      decreases !ty.IsBase(s) && !ty.IsBase(d)
    {
      var sbt, tbt := ty.base(s), ty.base(d);
      var sIsBase, tIsBase := sbt == s, tbt == d;
      var sGrp := FindUcGroup(s);
      var tGrp := FindUcGroup(d);
      var ourValid := valid && ty.esize(s).Some? && ty.esize(d).Some? && ty.esize(s) == ty.esize(d)
        && !ty.aggregate(s) && !ty.aggregate(d) && sIsBase == tIsBase;
      if !sIsBase && !tIsBase {
        ourValid := Add(ty, sbt, tbt, ourValid);
      }
      if sGrp == 0 && tGrp == 0 {
        ghost var before := uc;
        lastGroup := lastGroup + 1;
        uc := uc + [Entry(s, lastGroup, ourValid)];
        uc := uc + [Entry(d, lastGroup, ourValid)];
        assert uc == before + [Entry(s, lastGroup, ourValid), Entry(d, lastGroup, ourValid)];
      } else if sGrp == 0 {
        uc := uc + [Entry(s, tGrp, ourValid)];
      } else if tGrp == 0 {
        uc := uc + [Entry(d, sGrp, ourValid)];
      } else {
        ourValid := MoveGroup(tGrp, sGrp, ourValid);
      }
      ok := valid && ourValid;
    }
  }
}
