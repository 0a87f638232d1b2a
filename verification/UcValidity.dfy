/** Which groups of the UC table become invalid, by the types and the conversions alone. */
module UcValidity {
  import opened Wrappers
  import opened UcGroups

  // The reference: sets of types that conversions link, and the types that are spoiled.

  /** The types linked to each type that has been seen, and the types that must not be treated as their partners. */
  datatype Parts = Parts(of: map<TypeId, set<TypeId>>, spoiled: set<TypeId>)

  function PartOf(p: Parts, x: TypeId): (part: set<TypeId>)
    ensures x !in p.of ==> part == {x}
  {
    if x in p.of then p.of[x] else {x}
  }

  /** Linking two types merges their parts; the result is spoiled if one of them was, or if the link is bad. */
  function Join(p: Parts, a: TypeId, b: TypeId, bad: bool): Parts {
    var all := PartOf(p, a) + PartOf(p, b);
    Parts(map x | x in p.of.Keys + all :: if x in all then all else p.of[x],
          if bad || all * p.spoiled != {} then p.spoiled + all else p.spoiled)
  }

  /** The base types of a conversion between types that are both no base types are linked first. */
  function JoinBases(ty: Types, p: Parts, s: TypeId, d: TypeId): Parts {
    if Nested(ty, s, d) then Join(p, ty.base(s), ty.base(d), Odd(ty, s, d)) else p
  }

  /** The types of the conversion cannot be treated alike, nor can those of a conversion of which these are the bases. */
  predicate Odd(ty: Types, s: TypeId, d: TypeId) {
    !Alike(ty, s, d) || (Nested(ty, s, d) && !Alike(ty, ty.base(s), ty.base(d)))
  }

  /** The base types report a problem: they are odd, or the target's was spoiled when both had been seen. */
  predicate Reported(ty: Types, p: Parts, s: TypeId, d: TypeId) {
    Nested(ty, s, d) && ty.base(s) in p.of && ty.base(d) in p.of && ty.base(d) in p.spoiled
  }

  function Link(ty: Types, p: Parts, s: TypeId, d: TypeId): Parts {
    Join(JoinBases(ty, p, s, d), s, d, Odd(ty, s, d) || Reported(ty, p, s, d))
  }

  function LinkAll(ty: Types, p: Parts, cs: seq<Conversion>): Parts
    decreases |cs|
  {
    if cs == [] then p else LinkAll(ty, Link(ty, p, cs[0].source, cs[0].target), cs[1..])
  }

  /** Parts are disjoint, and spoiled as a whole. */
  predicate Proper(p: Parts) {
    && (forall x :: x in p.of ==> x in p.of[x])
    && (forall x, y :: x in p.of && y in p.of[x] ==> y in p.of && p.of[y] == p.of[x])
    && (forall x :: x in p.spoiled ==> x in p.of)
    && (forall x, y :: x in p.spoiled && y in p.of[x] ==> y in p.spoiled)
  }

  lemma JoinProper(p: Parts, a: TypeId, b: TypeId, bad: bool)
    requires Proper(p)
    ensures Proper(Join(p, a, b, bad))
  {
    var all, q := PartOf(p, a) + PartOf(p, b), Join(p, a, b, bad);
    forall x | x in all ensures PartOf(p, x) <= all {
    }
    forall x, y | x in q.of && y in q.of[x] ensures y in q.of && q.of[y] == q.of[x] {
      assert x in p.of ==> p.of[x] == PartOf(p, x);
    }
    forall x, y | x in q.spoiled && y in q.of[x] ensures y in q.spoiled {
      if x in all && x in p.spoiled {
        assert x in all * p.spoiled;
      }
    }
  }

  /** Every group lies in a part, and the types of a group that is invalid are spoiled. */
  ghost predicate Blames(t: Table, p: Parts) {
    && (forall x :: x in p.of <==> FindGroup(t.uc, x) != 0)
    && (forall x, y :: x in p.of && y in p.of && FindGroup(t.uc, x) == FindGroup(t.uc, y) ==> y in p.of[x])
    && (forall x :: x in p.of && Invalid(t.uc, FindGroup(t.uc, x)) ==> x in p.spoiled)
  }

  /** All types with group number g are in the part of x. */
  predicate HoldsOnly(t: Table, p: Parts, g: nat, x: TypeId) {
    forall y :: y in p.of && FindGroup(t.uc, y) == g ==> y in PartOf(p, x)
  }

  /** Entering keeps the blame where it belongs, if what is entered as not valid is a bad link. */
  lemma EnterBlames(t: Table, p: Parts, s: TypeId, d: TypeId, sGrp: nat, dGrp: nat, ok: bool, bad: bool)
    requires Consistent(t) && Labels(t, s, d, sGrp, dGrp) && Proper(p) && Blames(t, p) && (!ok ==> bad)
    requires HoldsOnly(t, p, sGrp, s) && HoldsOnly(t, p, dGrp, d)
    ensures Blames(Enter(t, s, d, sGrp, dGrp, ok).0, Join(p, s, d, bad))
  {
    var t', q := Enter(t, s, d, sGrp, dGrp, ok).0, Join(p, s, d, bad);
    EnterConsistent(t, s, d, sGrp, dGrp, ok);
    forall x ensures FindGroup(t'.uc, x) == GroupAfter(t, s, d, sGrp, dGrp, x) {
      EnterGroup(t, s, d, sGrp, dGrp, ok, x);
    }
    JoinProper(p, s, d, bad);
    GroupsWithinParts(t, p, s, d, sGrp, dGrp, bad);
    forall x | x in q.of && Invalid(t'.uc, FindGroup(t'.uc, x)) ensures x in q.spoiled {
      var i :| 0 <= i < |t'.uc| && t'.uc[i].group == FindGroup(t'.uc, x) && !t'.uc[i].valid;
      GroupOfEntry(t', i);
      InvalidIsSpoiled(t, p, s, d, sGrp, dGrp, ok, bad, i);
      assert t'.uc[i].te in q.of[x];
    }
  }

  lemma GroupsWithinParts(t: Table, p: Parts, s: TypeId, d: TypeId, sGrp: nat, dGrp: nat, bad: bool)
    requires Consistent(t) && Labels(t, s, d, sGrp, dGrp) && Proper(p) && Blames(t, p)
    requires HoldsOnly(t, p, sGrp, s) && HoldsOnly(t, p, dGrp, d)
    ensures var q := Join(p, s, d, bad);
      && (forall x :: x in q.of <==> GroupAfter(t, s, d, sGrp, dGrp, x) != 0)
      && (forall x, y ::
            x in q.of && y in q.of && GroupAfter(t, s, d, sGrp, dGrp, x) == GroupAfter(t, s, d, sGrp, dGrp, y)
            ==> y in q.of[x])
  {
    var q := Join(p, s, d, bad);
    forall x ensures x in q.of <==> GroupAfter(t, s, d, sGrp, dGrp, x) != 0 {
      SeenAfter(t, p, s, d, sGrp, dGrp, bad, x);
    }
    forall x, y | x in q.of && y in q.of && GroupAfter(t, s, d, sGrp, dGrp, x) == GroupAfter(t, s, d, sGrp, dGrp, y)
      ensures y in q.of[x]
    {
      WithinPart(t, p, s, d, sGrp, dGrp, bad, x, y);
    }
  }

  lemma SeenAfter(t: Table, p: Parts, s: TypeId, d: TypeId, sGrp: nat, dGrp: nat, bad: bool, x: TypeId)
    requires Consistent(t) && Labels(t, s, d, sGrp, dGrp) && Proper(p) && Blames(t, p)
    ensures x in Join(p, s, d, bad).of <==> GroupAfter(t, s, d, sGrp, dGrp, x) != 0
  {
    assert s in PartOf(p, s) && d in PartOf(p, d);
  }

  lemma WithinPart(t: Table, p: Parts, s: TypeId, d: TypeId, sGrp: nat, dGrp: nat, bad: bool, x: TypeId, y: TypeId)
    requires Consistent(t) && Labels(t, s, d, sGrp, dGrp) && Proper(p) && Blames(t, p)
    requires HoldsOnly(t, p, sGrp, s) && HoldsOnly(t, p, dGrp, d)
    requires x in Join(p, s, d, bad).of && y in Join(p, s, d, bad).of
    requires GroupAfter(t, s, d, sGrp, dGrp, x) == GroupAfter(t, s, d, sGrp, dGrp, y)
    ensures y in Join(p, s, d, bad).of[x]
  {
    if x in PartOf(p, s) + PartOf(p, d) || y in PartOf(p, s) + PartOf(p, d) {
      BothInAll(t, p, s, d, sGrp, dGrp, x, y);
    } else {
      NotMerged(t, p, s, d, sGrp, dGrp, x);
      NotMerged(t, p, s, d, sGrp, dGrp, y);
    }
  }

  lemma NotMerged(t: Table, p: Parts, s: TypeId, d: TypeId, sGrp: nat, dGrp: nat, x: TypeId)
    requires Consistent(t) && Labels(t, s, d, sGrp, dGrp) && Proper(p) && Blames(t, p)
    requires HoldsOnly(t, p, sGrp, s) && HoldsOnly(t, p, dGrp, d)
    requires x in p.of && x !in PartOf(p, s) + PartOf(p, d)
    ensures GroupAfter(t, s, d, sGrp, dGrp, x) == FindGroup(t.uc, x)
  {
    assert s in PartOf(p, s) && d in PartOf(p, d);
  }

  lemma GroupBound(t: Table, x: TypeId)
    requires Consistent(t)
    ensures FindGroup(t.uc, x) <= t.last
  {
    FindGroupOf(t.uc, x);
  }

  /** A type that shares a group with one of the merged parts is in them. */
  lemma BothInAll(t: Table, p: Parts, s: TypeId, d: TypeId, sGrp: nat, dGrp: nat, x: TypeId, y: TypeId)
    requires Consistent(t) && Labels(t, s, d, sGrp, dGrp) && Proper(p) && Blames(t, p)
    requires HoldsOnly(t, p, sGrp, s) && HoldsOnly(t, p, dGrp, d)
    requires var all := PartOf(p, s) + PartOf(p, d); x in p.of.Keys + all && y in p.of.Keys + all && (x in all || y in all)
    requires GroupAfter(t, s, d, sGrp, dGrp, x) == GroupAfter(t, s, d, sGrp, dGrp, y)
    ensures x in PartOf(p, s) + PartOf(p, d) && y in PartOf(p, s) + PartOf(p, d)
  {
    GroupBound(t, x);
    GroupBound(t, y);
    assert s in PartOf(p, s) && d in PartOf(p, d);
    if x in p.of && y in p.of && FindGroup(t.uc, x) == FindGroup(t.uc, y) {
      assert y in p.of[x] && x in p.of[y];
    }
  }

  /** An entry that is not valid after Enter is one of a spoiled type. */
  lemma InvalidIsSpoiled(t: Table, p: Parts, s: TypeId, d: TypeId, sGrp: nat, dGrp: nat, ok: bool, bad: bool, i: nat)
    requires Consistent(t) && Labels(t, s, d, sGrp, dGrp) && Proper(p) && Blames(t, p) && (!ok ==> bad)
    requires HoldsOnly(t, p, sGrp, s) && HoldsOnly(t, p, dGrp, d)
    requires var uc := Enter(t, s, d, sGrp, dGrp, ok).0.uc; i < |uc| && !uc[i].valid
    ensures Enter(t, s, d, sGrp, dGrp, ok).0.uc[i].te in Join(p, s, d, bad).spoiled
  {
    EnterEntries(t, s, d, sGrp, dGrp, ok);
    assert s in PartOf(p, s) && d in PartOf(p, d);
    if i < |t.uc| {
      var te := t.uc[i].te;
      GroupOfEntry(t, i);
      if Invalid(t.uc, t.uc[i].group) {
        assert te in p.spoiled;
      } else {
        assert t.uc[i].valid;
        RelabelEntries(t.uc, dGrp, sGrp, ok);
        assert te in PartOf(p, d);
      }
    }
  }

  /** Add_To_UC makes a group invalid only where the reference spoils its types. */
  lemma AddBlames(ty: Types, t: Table, p: Parts, s: TypeId, d: TypeId)
    requires ty.Sound() && Consistent(t) && Homogeneous(ty, t.uc) && Proper(p) && Blames(t, p)
    ensures Blames(AddToUC(ty, t, s, d, true).0, Link(ty, p, s, d)) && Proper(Link(ty, p, s, d))
  {
    AddIsEnter(ty, t, s, d, true);
    InnerState(ty, t, s, d, true);
    var inner, q := Inner(ty, t, s, d, true), JoinBases(ty, p, s, d);
    InnerBlames(ty, t, p, s, d);
    JoinProper(q, s, d, Odd(ty, s, d) || Reported(ty, p, s, d));
    OldLabel(ty, t, p, s, d, s);
    OldLabel(ty, t, p, s, d, d);
    EnterBlames(inner.0, q, s, d, FindGroup(t.uc, s), FindGroup(t.uc, d), inner.1, Odd(ty, s, d) || Reported(ty, p, s, d));
  }

  lemma InnerBlames(ty: Types, t: Table, p: Parts, s: TypeId, d: TypeId)
    requires ty.Sound() && Consistent(t) && Homogeneous(ty, t.uc) && Proper(p) && Blames(t, p)
    ensures Blames(Inner(ty, t, s, d, true).0, JoinBases(ty, p, s, d)) && Proper(JoinBases(ty, p, s, d))
    ensures !Inner(ty, t, s, d, true).1 ==> Odd(ty, s, d) || Reported(ty, p, s, d)
  {
    if Nested(ty, s, d) {
      var sb, db := ty.base(s), ty.base(d);
      var gs, gd, ok := FindGroup(t.uc, sb), FindGroup(t.uc, db), Fits(ty, sb, db, Fits(ty, s, d, true));
      assert ty.base(sb) == sb && ty.base(db) == db;
      BaseLabels(t, sb, db);
      JoinProper(p, sb, db, Odd(ty, s, d));
      EnterBlames(t, p, sb, db, gs, gd, ok, Odd(ty, s, d));
      RelabelEntries(t.uc, gd, gs, ok);
    }
  }

  /** The types with the group number that was read for x before the recursive call are in the part of x after it. */
  lemma OldLabel(ty: Types, t: Table, p: Parts, s: TypeId, d: TypeId, x: TypeId)
    requires ty.Sound() && Consistent(t) && Homogeneous(ty, t.uc) && Proper(p) && Blames(t, p)
    ensures HoldsOnly(Inner(ty, t, s, d, true).0, JoinBases(ty, p, s, d), FindGroup(t.uc, x), x)
  {
    var uc, q, g := Inner(ty, t, s, d, true).0.uc, JoinBases(ty, p, s, d), FindGroup(t.uc, x);
    InnerBlames(ty, t, p, s, d);
    if Nested(ty, s, d) && g != 0 {
      var sb, db := ty.base(s), ty.base(d);
      var gs, gd := FindGroup(t.uc, sb), FindGroup(t.uc, db);
      BaseLabels(t, sb, db);
      EnterGroup(t, sb, db, gs, gd, Fits(ty, sb, db, Fits(ty, s, d, true)), x);
      if FindGroup(uc, x) != g {
        forall y | y in q.of ensures FindGroup(uc, y) != g {
          MovedGroups(ty, t, s, d, true, y);
        }
      }
    }
  }

  lemma {:induction false} SearchBlames(ty: Types, t: Table, p: Parts, cs: seq<Conversion>)
    requires ty.Sound() && Consistent(t) && Homogeneous(ty, t.uc) && Proper(p) && Blames(t, p)
    ensures Blames(Search(ty, t, cs), LinkAll(ty, p, cs)) && Proper(LinkAll(ty, p, cs))
    decreases |cs|
  {
    if cs != [] {
      AddKeepsHomogeneous(ty, t, cs[0].source, cs[0].target, true);
      AddBlames(ty, t, p, cs[0].source, cs[0].target);
      SearchBlames(ty, AddToUC(ty, t, cs[0].source, cs[0].target, true).0, Link(ty, p, cs[0].source, cs[0].target), cs[1..]);
    }
  }

  // Exactness, where no link is lost.

  /** The types of a part are treated alike, and those of a spoiled part are in invalid groups. */
  ghost predicate Spoils(t: Table, p: Parts) {
    && (forall x, y :: x in p.of && y in p.of[x] ==> Together(t.uc, x, y))
    && (forall x :: x in p.spoiled ==> Invalid(t.uc, FindGroup(t.uc, x)))
  }

  lemma TogetherTransitive(uc: seq<Entry>, a: TypeId, b: TypeId, c: TypeId)
    requires Together(uc, a, b) && Together(uc, b, c)
    ensures Together(uc, a, c) && Together(uc, b, a)
  {
  }

  /** Merging parts whose types are treated alike. */
  lemma JoinTogether(uc: seq<Entry>, p: Parts, a: TypeId, b: TypeId, bad: bool)
    requires Proper(p) && Together(uc, a, b) && forall x, y :: x in p.of && y in p.of[x] ==> Together(uc, x, y)
    ensures forall x, y :: x in Join(p, a, b, bad).of && y in Join(p, a, b, bad).of[x] ==> Together(uc, x, y)
  {
    var all, q := PartOf(p, a) + PartOf(p, b), Join(p, a, b, bad);
    forall x | x in all ensures Together(uc, x, a) && Together(uc, a, x) {
      if x in PartOf(p, a) {
        assert x == a || (a in p.of && x in p.of[a] && a in p.of[x]);
      } else {
        assert x == b || (b in p.of && x in p.of[b] && b in p.of[x]);
        TogetherTransitive(uc, a, b, x);
      }
    }
    forall x, y | x in q.of && y in q.of[x] ensures Together(uc, x, y) {
      if x in all {
        TogetherTransitive(uc, x, a, y);
      }
    }
  }

  lemma JoinSpoils(t: Table, p: Parts, a: TypeId, b: TypeId, bad: bool)
    requires Proper(p) && Spoils(t, p) && Together(t.uc, a, b) && (bad ==> Invalid(t.uc, FindGroup(t.uc, a)))
    ensures Spoils(t, Join(p, a, b, bad))
  {
    var all, q := PartOf(p, a) + PartOf(p, b), Join(p, a, b, bad);
    JoinTogether(t.uc, p, a, b, bad);
    assert a in all;
    forall x | x in q.spoiled ensures Invalid(t.uc, FindGroup(t.uc, x)) {
      if x !in p.spoiled {
        var z := if bad then a else var z :| z in all * p.spoiled; z;
        assert z in all && q.of[x] == all && z in q.of[x];
      }
    }
  }

  /** A group that holds an invalid entry keeps it through Add_To_UC. */
  lemma AddKeepsInvalid(ty: Types, t: Table, s: TypeId, d: TypeId, x: TypeId)
    requires ty.Sound() && Consistent(t) && Homogeneous(ty, t.uc)
    requires FindGroup(t.uc, x) != 0 && Invalid(t.uc, FindGroup(t.uc, x))
    ensures Invalid(AddToUC(ty, t, s, d, true).0.uc, FindGroup(AddToUC(ty, t, s, d, true).0.uc, x))
  {
    AddIsEnter(ty, t, s, d, true);
    InnerState(ty, t, s, d, true);
    if Nested(ty, s, d) {
      var sb, db := ty.base(s), ty.base(d);
      var gs, gd, ok := FindGroup(t.uc, sb), FindGroup(t.uc, db), Fits(ty, sb, db, Fits(ty, s, d, true));
      BaseLabels(t, sb, db);
      EnterGroup(t, sb, db, gs, gd, ok, x);
      InvalidStays(t, sb, db, gs, gd, ok, x);
    }
    OuterKeepsInvalid(ty, t, s, d, x);
  }

  lemma OuterKeepsInvalid(ty: Types, t: Table, s: TypeId, d: TypeId, x: TypeId)
    requires ty.Sound() && Consistent(t) && Homogeneous(ty, t.uc)
    requires var uc := Inner(ty, t, s, d, true).0.uc; FindGroup(uc, x) != 0 && Invalid(uc, FindGroup(uc, x))
    ensures Invalid(AddToUC(ty, t, s, d, true).0.uc, FindGroup(AddToUC(ty, t, s, d, true).0.uc, x))
  {
    AddIsEnter(ty, t, s, d, true);
    InnerState(ty, t, s, d, true);
    var inner, sGrp, dGrp := Inner(ty, t, s, d, true), FindGroup(t.uc, s), FindGroup(t.uc, d);
    EnterGroup(inner.0, s, d, sGrp, dGrp, inner.1, x);
    InvalidStays(inner.0, s, d, sGrp, dGrp, inner.1, x);
  }

  /** Entering two types with current groups, not as valid, leaves one of them in an invalid group. */
  lemma EnterBad(t: Table, s: TypeId, d: TypeId) returns (x: TypeId)
    requires Consistent(t)
    ensures var uc := Enter(t, s, d, FindGroup(t.uc, s), FindGroup(t.uc, d), false).0.uc;
      x in {s, d} && FindGroup(uc, x) != 0 && Invalid(uc, FindGroup(uc, x))
  {
    var sGrp, dGrp := FindGroup(t.uc, s), FindGroup(t.uc, d);
    BaseLabels(t, s, d);
    x := if sGrp == 0 then s else d;
    EnterGroup(t, s, d, sGrp, dGrp, false, x);
    EnterInvalid(t, s, d, sGrp, dGrp, false, x);
  }

  lemma OneBadBothBad(uc: seq<Entry>, a: TypeId, b: TypeId, x: TypeId)
    requires Together(uc, a, b) && x in {a, b} && Invalid(uc, FindGroup(uc, x))
    ensures Invalid(uc, FindGroup(uc, a)) && Invalid(uc, FindGroup(uc, b))
  {
  }

  /** An odd conversion leaves its base types in invalid groups. */
  lemma OddBases(ty: Types, t: Table, s: TypeId, d: TypeId)
    requires ty.Sound() && Consistent(t) && Homogeneous(ty, t.uc) && Nested(ty, s, d) && Odd(ty, s, d)
    ensures var uc := AddToUC(ty, t, s, d, true).0.uc; Invalid(uc, FindGroup(uc, ty.base(s)))
  {
    var sb, db := ty.base(s), ty.base(d);
    assert ty.base(sb) == sb && ty.base(db) == db;
    var x := EnterBad(t, sb, db);
    OuterKeepsInvalid(ty, t, s, d, x);
    AddLinksBases(ty, t, s, d, true);
    OneBadBothBad(AddToUC(ty, t, s, d, true).0.uc, sb, db, x);
  }

  /** A conversion that is odd, or whose base types report a problem, leaves its types in invalid groups. */
  lemma BadTypes(ty: Types, t: Table, p: Parts, s: TypeId, d: TypeId)
    requires ty.Sound() && Consistent(t) && Homogeneous(ty, t.uc) && Blames(t, p) && Spoils(t, p) && !Loses(ty, t, s, d)
    requires Odd(ty, s, d) || Reported(ty, p, s, d)
    ensures var uc := AddToUC(ty, t, s, d, true).0.uc; Invalid(uc, FindGroup(uc, s)) && Invalid(uc, FindGroup(uc, d))
  {
    AddIsEnter(ty, t, s, d, true);
    InnerState(ty, t, s, d, true);
    NotReportedValid(ty, t, p, s, d);
    var inner, sGrp, dGrp := Inner(ty, t, s, d, true), FindGroup(t.uc, s), FindGroup(t.uc, d);
    var x := if sGrp == 0 then s else d;
    if sGrp != 0 && dGrp != 0 && FindGroup(inner.0.uc, d) != dGrp {
      StaleGroupIsInvalid(ty, t, s, d, true, d);
      AddKeepsInvalid(ty, t, s, d, d);
    } else {
      EnterGroup(inner.0, s, d, sGrp, dGrp, false, x);
      EnterInvalid(inner.0, s, d, sGrp, dGrp, false, x);
    }
    AddLinksExactly(ty, t, s, d, true);
    OneBadBothBad(AddToUC(ty, t, s, d, true).0.uc, s, d, x);
  }

  lemma NotReportedValid(ty: Types, t: Table, p: Parts, s: TypeId, d: TypeId)
    requires ty.Sound() && Consistent(t) && Blames(t, p) && Spoils(t, p)
    requires Odd(ty, s, d) || Reported(ty, p, s, d)
    ensures !Inner(ty, t, s, d, true).1
  {
    if Nested(ty, s, d) {
      var sb, db := ty.base(s), ty.base(d);
      RelabelEntries(t.uc, FindGroup(t.uc, db), FindGroup(t.uc, sb), Fits(ty, sb, db, Fits(ty, s, d, true)));
    }
  }

  lemma AddSpoils(ty: Types, t: Table, p: Parts, s: TypeId, d: TypeId)
    requires ty.Sound() && Consistent(t) && Homogeneous(ty, t.uc) && Proper(p) && Blames(t, p) && Spoils(t, p)
    requires !Loses(ty, t, s, d)
    ensures Spoils(AddToUC(ty, t, s, d, true).0, Link(ty, p, s, d))
  {
    var t' := AddToUC(ty, t, s, d, true).0;
    forall x, y | x in p.of && y in p.of[x] ensures Together(t'.uc, x, y) {
      AddKeepsTogether(ty, t, s, d, true, x, y);
    }
    forall x | x in p.spoiled ensures Invalid(t'.uc, FindGroup(t'.uc, x)) {
      AddKeepsInvalid(ty, t, s, d, x);
    }
    AddLinksExactly(ty, t, s, d, true);
    if Nested(ty, s, d) {
      AddLinksBases(ty, t, s, d, true);
      if Odd(ty, s, d) {
        OddBases(ty, t, s, d);
      }
      JoinProper(p, ty.base(s), ty.base(d), Odd(ty, s, d));
      JoinSpoils(t', p, ty.base(s), ty.base(d), Odd(ty, s, d));
    }
    if Odd(ty, s, d) || Reported(ty, p, s, d) {
      BadTypes(ty, t, p, s, d);
    }
    JoinSpoils(t', JoinBases(ty, p, s, d), s, d, Odd(ty, s, d) || Reported(ty, p, s, d));
  }

  lemma {:induction false} SearchSpoils(ty: Types, t: Table, p: Parts, cs: seq<Conversion>)
    requires ty.Sound() && Consistent(t) && Homogeneous(ty, t.uc) && Proper(p) && Blames(t, p) && Spoils(t, p)
    requires NoneLost(ty, t, cs)
    ensures Spoils(Search(ty, t, cs), LinkAll(ty, p, cs))
    decreases |cs|
  {
    if cs != [] {
      var s, d := cs[0].source, cs[0].target;
      AddKeepsHomogeneous(ty, t, s, d, true);
      AddBlames(ty, t, p, s, d);
      AddSpoils(ty, t, p, s, d);
      SearchSpoils(ty, AddToUC(ty, t, s, d, true).0, Link(ty, p, s, d), cs[1..]);
    }
  }

  const NOTHING := Parts(map[], {})

  /** The table after Search_For_UCs. */
  function Searched(ty: Types, cs: seq<Conversion>): seq<Entry>
    requires ty.Sound()
  {
    Search(ty, Table([], 0), cs).uc
  }

  /**
   Over every run from the empty table: a group is invalid only if the reference spoils its types; and it is invalid
   if it does, unless some conversion of the run meets the guard of a lost link.
   */
  lemma InvalidExactly(ty: Types, cs: seq<Conversion>, x: TypeId)
    requires ty.Sound() && FindGroup(Searched(ty, cs), x) != 0
    ensures Invalid(Searched(ty, cs), FindGroup(Searched(ty, cs), x)) ==> x in LinkAll(ty, NOTHING, cs).spoiled
    ensures NoneLost(ty, Table([], 0), cs) && x in LinkAll(ty, NOTHING, cs).spoiled ==>
      Invalid(Searched(ty, cs), FindGroup(Searched(ty, cs), x))
  {
    SearchBlames(ty, Table([], 0), NOTHING, cs);
    if NoneLost(ty, Table([], 0), cs) {
      SearchSpoils(ty, Table([], 0), NOTHING, cs);
    }
  }

  // What the reference spoils, in terms of chains of conversions.

  /** The types of a conversion, and their base types if it links those too. */
  function Touches(ty: Types, c: Conversion): set<TypeId> {
    {c.source, c.target} + if Nested(ty, c.source, c.target) then {ty.base(c.source), ty.base(c.target)} else {}
  }

  predicate Joined(ty: Types, cs: seq<Conversion>, a: TypeId, b: TypeId) {
    exists c :: c in cs && a in Touches(ty, c) && b in Touches(ty, c)
  }

  predicate Path(ty: Types, cs: seq<Conversion>, path: seq<TypeId>) {
    path != [] && forall i :: 0 <= i < |path| - 1 ==> Joined(ty, cs, path[i], path[i + 1])
  }

  /** A path of conversions leads from a to b. */
  ghost predicate Connected(ty: Types, cs: seq<Conversion>, a: TypeId, b: TypeId) {
    exists path :: Path(ty, cs, path) && path[0] == a && path[|path| - 1] == b
  }

  lemma ConnectedSelf(ty: Types, cs: seq<Conversion>, a: TypeId)
    ensures Connected(ty, cs, a, a)
  {
    assert Path(ty, cs, [a]) && [a][0] == a;
  }

  lemma ConnectedBoth(ty: Types, cs: seq<Conversion>, a: TypeId, b: TypeId, c: TypeId)
    requires Connected(ty, cs, a, b) && Connected(ty, cs, b, c)
    ensures Connected(ty, cs, a, c)
  {
    var p :| Path(ty, cs, p) && p[0] == a && p[|p| - 1] == b;
    var q :| Path(ty, cs, q) && q[0] == b && q[|q| - 1] == c;
    var r := p + q[1..];
    forall i | 0 <= i < |r| - 1 ensures Joined(ty, cs, r[i], r[i + 1]) {
      if i < |p| - 1 {
        assert Joined(ty, cs, p[i], p[i + 1]);
      } else {
        assert Joined(ty, cs, q[i - (|p| - 1)], q[i - (|p| - 1) + 1]);
      }
    }
    assert r[0] == a && r[|r| - 1] == c;
  }

  lemma ConnectedBack(ty: Types, cs: seq<Conversion>, a: TypeId, b: TypeId)
    requires Connected(ty, cs, a, b)
    ensures Connected(ty, cs, b, a)
  {
    var p :| Path(ty, cs, p) && p[0] == a && p[|p| - 1] == b;
    var r := seq(|p|, i requires 0 <= i < |p| => p[|p| - 1 - i]);
    forall i | 0 <= i < |r| - 1 ensures Joined(ty, cs, r[i], r[i + 1]) {
      assert Joined(ty, cs, p[|p| - 2 - i], p[|p| - 2 - i + 1]);
    }
    assert r[0] == b && r[|r| - 1] == a;
  }

  /** An odd conversion is reached from x. */
  ghost predicate Reaches(ty: Types, cs: seq<Conversion>, x: TypeId) {
    exists c, y :: c in cs && Odd(ty, c.source, c.target) && y in Touches(ty, c) && Connected(ty, cs, x, y)
  }

  /** Parts are connected, and an odd conversion is reached from what is spoiled. */
  ghost predicate Explained(ty: Types, cs: seq<Conversion>, p: Parts) {
    && (forall x, y :: x in p.of && y in p.of[x] ==> Connected(ty, cs, x, y))
    && (forall x :: x in p.spoiled ==> Reaches(ty, cs, x))
  }

  lemma ReachesMore(ty: Types, cs: seq<Conversion>, x: TypeId, y: TypeId)
    requires Connected(ty, cs, x, y) && Reaches(ty, cs, y)
    ensures Reaches(ty, cs, x)
  {
    var c, z :| c in cs && Odd(ty, c.source, c.target) && z in Touches(ty, c) && Connected(ty, cs, y, z);
    ConnectedBoth(ty, cs, x, y, z);
  }

  lemma JoinExplained(ty: Types, cs: seq<Conversion>, p: Parts, a: TypeId, b: TypeId, bad: bool)
    requires Proper(p) && Explained(ty, cs, p) && Connected(ty, cs, a, b) && (bad ==> Reaches(ty, cs, a))
    ensures Explained(ty, cs, Join(p, a, b, bad))
  {
    var all, q := PartOf(p, a) + PartOf(p, b), Join(p, a, b, bad);
    forall x | x in all ensures Connected(ty, cs, x, a) && Connected(ty, cs, a, x) {
      ConnectedSelf(ty, cs, a);
      ConnectedSelf(ty, cs, b);
      if x !in PartOf(p, a) {
        ConnectedBoth(ty, cs, a, b, x);
      }
      ConnectedBack(ty, cs, a, x);
    }
    forall x, y | x in q.of && y in q.of[x] ensures Connected(ty, cs, x, y) {
      if x in all {
        ConnectedBoth(ty, cs, x, a, y);
      }
    }
    forall x | x in q.spoiled ensures Reaches(ty, cs, x) {
      if x !in p.spoiled {
        var z := if bad then a else var z :| z in all * p.spoiled; z;
        ConnectedSelf(ty, cs, a);
        ConnectedBoth(ty, cs, x, a, z);
        ReachesMore(ty, cs, x, z);
      }
    }
  }

  lemma TouchConnected(ty: Types, cs: seq<Conversion>, c: Conversion, a: TypeId, b: TypeId)
    requires c in cs && a in Touches(ty, c) && b in Touches(ty, c)
    ensures Connected(ty, cs, a, b)
  {
    var path := [a, b];
    assert Joined(ty, cs, path[0], path[1]);
    assert Path(ty, cs, path) && path[|path| - 1] == b;
  }

  lemma LinkExplained(ty: Types, cs: seq<Conversion>, p: Parts, c: Conversion)
    requires Proper(p) && Explained(ty, cs, p) && c in cs
    ensures Explained(ty, cs, Link(ty, p, c.source, c.target)) && Proper(Link(ty, p, c.source, c.target))
  {
    var s, d := c.source, c.target;
    TouchConnected(ty, cs, c, s, d);
    TouchConnected(ty, cs, c, s, s);
    if Nested(ty, s, d) {
      var sb, db := ty.base(s), ty.base(d);
      TouchConnected(ty, cs, c, sb, db);
      TouchConnected(ty, cs, c, s, db);
      TouchConnected(ty, cs, c, sb, sb);
      JoinProper(p, sb, db, Odd(ty, s, d));
      JoinExplained(ty, cs, p, sb, db, Odd(ty, s, d));
      if Reported(ty, p, s, d) {
        ReachesMore(ty, cs, s, db);
      }
    }
    JoinProper(JoinBases(ty, p, s, d), s, d, Odd(ty, s, d) || Reported(ty, p, s, d));
    JoinExplained(ty, cs, JoinBases(ty, p, s, d), s, d, Odd(ty, s, d) || Reported(ty, p, s, d));
  }

  lemma {:induction false} AllExplained(ty: Types, cs: seq<Conversion>, p: Parts, rest: seq<Conversion>)
    requires Proper(p) && Explained(ty, cs, p) && forall c :: c in rest ==> c in cs
    ensures Explained(ty, cs, LinkAll(ty, p, rest))
    decreases |rest|
  {
    if rest != [] {
      LinkExplained(ty, cs, p, rest[0]);
      AllExplained(ty, cs, Link(ty, p, rest[0].source, rest[0].target), rest[1..]);
    }
  }

  /**
   Over every run: types end in an invalid group only if conversions, and the base types that they link, lead from them
   to a conversion whose types, or the base types of which, differ in size, or are aggregates, or are a base type and
   another type.
   */
  lemma OnlyOddSpoils(ty: Types, cs: seq<Conversion>, x: TypeId)
    requires ty.Sound() && FindGroup(Searched(ty, cs), x) != 0 && Invalid(Searched(ty, cs), FindGroup(Searched(ty, cs), x))
    ensures Reaches(ty, cs, x)
  {
    InvalidExactly(ty, cs, x);
    AllExplained(ty, cs, NOTHING, cs);
  }

  /** If all conversions link types that are alike, and base types that are alike, no group is invalid. */
  lemma AlikeStaysValid(ty: Types, cs: seq<Conversion>, x: TypeId)
    requires ty.Sound() && FindGroup(Searched(ty, cs), x) != 0
    requires forall c :: c in cs ==> !Odd(ty, c.source, c.target)
    ensures !Invalid(Searched(ty, cs), FindGroup(Searched(ty, cs), x))
  {
    if Invalid(Searched(ty, cs), FindGroup(Searched(ty, cs), x)) {
      OnlyOddSpoils(ty, cs, x);
    }
  }

  /** Spoiled types stay spoiled, and an odd conversion spoils what it touches. */
  lemma {:induction false} OddSpoils(ty: Types, p: Parts, cs: seq<Conversion>, x: TypeId)
    requires Proper(p) && (x in p.spoiled || exists c :: c in cs && Odd(ty, c.source, c.target) && x in Touches(ty, c))
    ensures x in LinkAll(ty, p, cs).spoiled
    decreases |cs|
  {
    if cs != [] {
      var c := cs[0];
      assert cs == [c] + cs[1..];
      LinkSpoils(ty, p, c, x);
      OddSpoils(ty, Link(ty, p, c.source, c.target), cs[1..], x);
    }
  }

  lemma LinkSpoils(ty: Types, p: Parts, c: Conversion, x: TypeId)
    requires Proper(p)
    ensures Proper(Link(ty, p, c.source, c.target))
    ensures x in p.spoiled || (Odd(ty, c.source, c.target) && x in Touches(ty, c)) ==> x in Link(ty, p, c.source, c.target).spoiled
  {
    var s, d := c.source, c.target;
    JoinProper(p, ty.base(s), ty.base(d), Odd(ty, s, d));
    JoinProper(JoinBases(ty, p, s, d), s, d, Odd(ty, s, d) || Reported(ty, p, s, d));
    assert s in PartOf(JoinBases(ty, p, s, d), s) && d in PartOf(JoinBases(ty, p, s, d), d);
    assert ty.base(s) in PartOf(p, ty.base(s)) && ty.base(d) in PartOf(p, ty.base(d));
  }

  /**
   Conversely, if no conversion of the run meets the guard of a lost link: the types that an odd conversion touches,
   and all types that a chain of conversions links to them, end in invalid groups.
   */
  lemma OddIsInvalid(ty: Types, cs: seq<Conversion>, c: Conversion, path: seq<TypeId>)
    requires ty.Sound() && NoneLost(ty, Table([], 0), cs) && c in cs && Odd(ty, c.source, c.target)
    requires Chain(cs, path) && path != [] && path[|path| - 1] in Touches(ty, c)
    ensures FindGroup(Searched(ty, cs), path[0]) != 0
    ensures Invalid(Searched(ty, cs), FindGroup(Searched(ty, cs), path[0]))
  {
    var x := path[|path| - 1];
    OddIsSpoiled(ty, cs, c, x);
    LinkedTypesSettle(ty, cs, path);
    SearchKeeps(ty, Table([], 0), cs);
    SettledSpreads(Search(ty, Table([], 0), cs), path);
  }

  lemma OddIsSpoiled(ty: Types, cs: seq<Conversion>, c: Conversion, x: TypeId)
    requires ty.Sound() && NoneLost(ty, Table([], 0), cs) && c in cs && Odd(ty, c.source, c.target) && x in Touches(ty, c)
    ensures FindGroup(Searched(ty, cs), x) != 0 && Invalid(Searched(ty, cs), FindGroup(Searched(ty, cs), x))
  {
    OddSpoils(ty, NOTHING, cs, x);
    SearchBlames(ty, Table([], 0), NOTHING, cs);
    SearchSpoils(ty, Table([], 0), NOTHING, cs);
  }

  lemma SettledSpreads(t: Table, path: seq<TypeId>)
    requires Consistent(t) && path != [] && Settled(t.uc, path)
    requires FindGroup(t.uc, path[|path| - 1]) != 0 && Invalid(t.uc, FindGroup(t.uc, path[|path| - 1]))
    ensures FindGroup(t.uc, path[0]) != 0 && Invalid(t.uc, FindGroup(t.uc, path[0]))
  {
    if |path| > 1 {
      assert FindGroup(t.uc, path[0]) == FindGroup(t.uc, path[|path| - 1]) || Invalid(t.uc, FindGroup(t.uc, path[0]));
    }
  }
}
