/** Get_TBAA_Type for elementary types: the tag of each request. */
module TypeTags {
  import opened Wrappers
  import opened UcGroups
  import opened Tags

  datatype Kind = Native | ForAliased | Unique | UniqueAliased {
    predicate IsUnique() { Unique? || UniqueAliased? }
  }

  /** A compilation after Initialize: the UC table does not change any more. */
  datatype World = World(
    types: Types, table: Table, noStrict: bool,
    isVoid: TypeId -> bool, universal: TypeId -> bool, nonnative: TypeId -> bool, accessSubprogram: TypeId -> bool,
    chars: TypeId -> string, standardInteger: TypeId -> bool, bytes: TypeId -> nat)
  {
    ghost predicate Sound() {
      && types.Sound() && Consistent(table) && Homogeneous(types, table.uc)
      && (forall t :: '#' !in chars(t))
    }

    function Group(te: TypeId): nat { FindGroup(table.uc, te) }

    /** The requests that are turned down whatever has been saved. */
    predicate Off(te: TypeId) {
      noStrict || isVoid(te) || universal(te) || (types.base(te) != te && universal(types.base(te)))
    }

    predicate InvalidGroup(te: TypeId) {
      Group(te) != 0 && Invalid(table.uc, Group(te))
    }

    /** Create_TBAA_Type makes a tag for the type. */
    predicate Carries(te: TypeId) {
      !nonnative(te) && !accessSubprogram(te)
    }
  }

  /** TBAA_Type of each type, and Name_Idx. */
  datatype State = State(saved: map<TypeId, Tag>, nameIdx: nat)

  /** Get_TBAA_Name for an elementary type. */
  function NameOf(w: World, kind: Kind, te: TypeId, idx: nat): string {
    w.chars(te) + (if w.standardInteger(te) then "B" else "") +
    match kind
    case Native => "#TN"
    case ForAliased => ""
    case Unique | UniqueAliased => "#T" + Decimal(idx)
  }

  /** Create_TBAA_Type once the parent is known. */
  function Create(w: World, st: State, te: TypeId, kind: Kind, parent: Tag): (State, Option<Tag>) {
    if !w.Carries(te) then (st, None)
    else
      (if kind.IsUnique() then st.(nameIdx := st.nameIdx + 1) else st,
       Some(Scalar(parent, w.bytes(te), NameOf(w, kind, te, st.nameIdx))))
  }

  /** The saved tag of the first entry of the group that has one. */
  function FirstSaved(uc: seq<Entry>, group: nat, saved: map<TypeId, Tag>): Option<Tag> {
    if uc == [] then None
    else if uc[0].group == group && uc[0].te in saved then Some(saved[uc[0].te])
    else FirstSaved(uc[1..], group, saved)
  }

  /** The For_Aliased tag a request finds: the type's own, or that of a type of its group. */
  function Found(w: World, saved: map<TypeId, Tag>, te: TypeId): Option<Tag> {
    if te in saved then Some(saved[te])
    else if w.Group(te) != 0 then FirstSaved(w.table.uc, w.Group(te), saved)
    else None
  }

  /** The tag of the requested kind, given the For_Aliased tag. */
  function Serve(w: World, st: State, te: TypeId, kind: Kind, tag: Tag): (State, Option<Tag>)
    requires !tag.Root?
  {
    match kind
    case Native => (st, Some(tag.parent))
    case ForAliased => (st, Some(tag))
    case Unique => Create(w, st, te, Unique, tag.parent)
    case UniqueAliased => Create(w, st, te, UniqueAliased, tag)
  }

  /** Tags that are saved are not the root. */
  predicate NoRoots(st: State) {
    forall te :: te in st.saved ==> !st.saved[te].Root?
  }

  lemma {:induction false} FirstSavedExactly(uc: seq<Entry>, group: nat, saved: map<TypeId, Tag>)
    ensures FirstSaved(uc, group, saved).Some? ==>
      exists i :: 0 <= i < |uc| && uc[i].group == group && uc[i].te in saved
        && FirstSaved(uc, group, saved) == Some(saved[uc[i].te])
    ensures FirstSaved(uc, group, saved).None? ==>
      forall i :: 0 <= i < |uc| && uc[i].group == group ==> uc[i].te !in saved
  {
    if uc != [] && !(uc[0].group == group && uc[0].te in saved) {
      FirstSavedExactly(uc[1..], group, saved);
      if FirstSaved(uc[1..], group, saved).Some? {
        var i :| 0 <= i < |uc[1..]| && uc[1..][i].group == group && uc[1..][i].te in saved
          && FirstSaved(uc[1..], group, saved) == Some(saved[uc[1..][i].te]);
        assert uc[i + 1].group == group;
      } else {
        forall i | 0 <= i < |uc| && uc[i].group == group ensures uc[i].te !in saved {
          if i > 0 {
            assert uc[1..][i - 1] == uc[i];
          }
        }
      }
    } else if uc != [] {
      assert uc[0].group == group;
    }
  }

  lemma FoundIsTag(w: World, st: State, te: TypeId)
    requires NoRoots(st)
    ensures Found(w, st.saved, te).Some? ==> !Found(w, st.saved, te).value.Root?
  {
    FirstSavedExactly(w.table.uc, w.Group(te), st.saved);
  }

  /** The parent of a new native tag: the native tag of the base type, or the root. */
  function Parent(w: World, st: State, te: TypeId): (r: (State, Tag))
    requires w.Sound() && NoRoots(st)
    ensures NoRoots(r.0)
    decreases !w.types.IsBase(te), 0
  {
    var base := w.types.base(te);
    if base == te then (st, Root)
    else
      var r := Get(w, st, base, Native);
      (r.0, if r.1.Some? then r.1.value else Root)
  }

  /** Get_TBAA_Type. */
  function Get(w: World, st: State, te: TypeId, kind: Kind): (r: (State, Option<Tag>))
    requires w.Sound() && NoRoots(st)
    ensures NoRoots(r.0)
    decreases !w.types.IsBase(te), 1
  {
    if w.Off(te) || (te !in st.saved && w.InvalidGroup(te)) then (st, None)
    else
      FoundIsTag(w, st, te);
      match Found(w, st.saved, te)
      case Some(tag) => Serve(w, st, te, kind, tag)
      case None =>
        var p := Parent(w, st, te);
        var n := Create(w, p.0, te, Native, p.1);
        if n.1.None? then (n.0, None)
        else
          var a := Create(w, n.0, te, ForAliased, n.1.value);
          Serve(w, a.0.(saved := a.0.saved[te := a.1.value]), te, kind, a.1.value)
  }

  /** A tag that may be saved for a type. */
  predicate Kept(w: World, te: TypeId, tag: Tag) {
    w.Carries(te) && !w.Off(te) && !w.InvalidGroup(te) && AliasedShape(tag)
  }

  /** Saved tags are For_Aliased tags, and at most one type of a group has one. */
  ghost predicate Inv(w: World, st: State) {
    && (forall te :: te in st.saved ==> Kept(w, te, st.saved[te]))
    && (forall a, b :: a in st.saved && b in st.saved && a != b && w.Group(a) == w.Group(b) ==> w.Group(a) == 0)
  }

  /** From st to later, no index is given back and every type keeps the tag it would find. */
  ghost predicate Grows(w: World, st: State, later: State) {
    && st.nameIdx <= later.nameIdx
    && (forall te :: Found(w, st.saved, te).Some? ==> Found(w, later.saved, te) == Found(w, st.saved, te))
  }

  /** A type of a group without a saved tag is not saved. */
  lemma GroupWithoutTag(w: World, st: State, te: TypeId, x: TypeId)
    requires w.Sound() && Found(w, st.saved, te).None? && w.Group(x) == w.Group(te) != 0
    ensures x !in st.saved
  {
    FirstSavedExactly(w.table.uc, w.Group(te), st.saved);
    FindGroupOf(w.table.uc, x);
  }

  /** Saving a tag for a type that found none. */
  lemma SaveKeeps(w: World, st: State, te: TypeId, tag: Tag)
    requires w.Sound() && Inv(w, st) && Found(w, st.saved, te).None? && Kept(w, te, tag)
    ensures Inv(w, st.(saved := st.saved[te := tag]))
    ensures Grows(w, st, st.(saved := st.saved[te := tag]))
  {
    var later := st.(saved := st.saved[te := tag]);
    forall a | a in st.saved && w.Group(a) == w.Group(te) ensures w.Group(a) == 0 {
      if w.Group(a) != 0 {
        GroupWithoutTag(w, st, te, a);
      }
    }
    forall x | Found(w, st.saved, x).Some? ensures Found(w, later.saved, x) == Found(w, st.saved, x) {
      SaveKeepsFound(w, st, te, tag, x);
    }
  }

  lemma SaveKeepsFound(w: World, st: State, te: TypeId, tag: Tag, x: TypeId)
    requires w.Sound() && Found(w, st.saved, te).None? && Found(w, st.saved, x).Some?
    ensures Found(w, st.saved[te := tag], x) == Found(w, st.saved, x)
  {
    if x !in st.saved {
      FirstSavedExactly(w.table.uc, w.Group(x), st.saved);
      if w.Group(x) == w.Group(te) {
        var i :| 0 <= i < |w.table.uc| && w.table.uc[i].group == w.Group(x) && w.table.uc[i].te in st.saved;
        GroupOfEntry(w.table, i);
        GroupWithoutTag(w, st, te, w.table.uc[i].te);
      } else {
        forall i | 0 <= i < |w.table.uc| && w.table.uc[i].te == te ensures w.table.uc[i].group != w.Group(x) {
          GroupOfEntry(w.table, i);
        }
        OtherGroup(w.table.uc, w.Group(x), st.saved, te, tag);
      }
    }
  }

  lemma {:induction false} OtherGroup(uc: seq<Entry>, group: nat, saved: map<TypeId, Tag>, te: TypeId, tag: Tag)
    requires forall i :: 0 <= i < |uc| && uc[i].te == te ==> uc[i].group != group
    ensures FirstSaved(uc, group, saved[te := tag]) == FirstSaved(uc, group, saved)
  {
    if uc != [] {
      OtherGroup(uc[1..], group, saved, te, tag);
    }
  }

  /** The tag that a request got, in terms of the For_Aliased tag found for its type. */
  predicate Answered(w: World, tag: Tag, te: TypeId, kind: Kind, idx: nat, r: Tag)
    requires !tag.Root?
  {
    match kind
    case Native => r == tag.parent
    case ForAliased => r == tag
    case Unique => r == Scalar(tag.parent, w.bytes(te), NameOf(w, Unique, te, idx))
    case UniqueAliased => r == Scalar(tag, w.bytes(te), NameOf(w, UniqueAliased, te, idx))
  }

  /** The requests that get no tag: turned down, in an invalid group, or for a type that can carry none. */
  predicate Refused(w: World, saved: map<TypeId, Tag>, te: TypeId, kind: Kind) {
    || w.Off(te) || w.InvalidGroup(te)
    || (!w.Carries(te) && (kind.IsUnique() || Found(w, saved, te).None?))
  }

  /** What one request does. */
  ghost predicate Outcome(w: World, st: State, te: TypeId, kind: Kind, later: State, r: Option<Tag>) {
    && Inv(w, later) && Grows(w, st, later)
    && (forall x :: x in later.saved ==> x in st.saved || x == te || x == w.types.base(te))
    && later.nameIdx == st.nameIdx + (if kind.IsUnique() && r.Some? then 1 else 0)
    && (r.None? <==> Refused(w, st.saved, te, kind))
    && (r.Some? ==>
          && Found(w, later.saved, te).Some? && AliasedShape(Found(w, later.saved, te).value)
          && Answered(w, Found(w, later.saved, te).value, te, kind, st.nameIdx, r.value))
  }

  lemma FoundShape(w: World, st: State, te: TypeId)
    requires Inv(w, st) && Found(w, st.saved, te).Some?
    ensures AliasedShape(Found(w, st.saved, te).value)
  {
    FirstSavedExactly(w.table.uc, w.Group(te), st.saved);
  }

  /** The case in which a tag is found. */
  lemma GetFound(w: World, st: State, te: TypeId, kind: Kind)
    requires w.Sound() && Inv(w, st) && NoRoots(st)
    requires !w.Off(te) && !w.InvalidGroup(te) && Found(w, st.saved, te).Some?
    ensures Outcome(w, st, te, kind, Get(w, st, te, kind).0, Get(w, st, te, kind).1)
  {
    FoundShape(w, st, te);
    var tag := Found(w, st.saved, te).value;
  }

  /** The parent of a new native tag is the root or a native tag, and only the base type's tag is saved. */
  ghost predicate ParentOutcome(w: World, st: State, te: TypeId, later: State, parent: Tag) {
    && Inv(w, later) && Grows(w, st, later) && later.nameIdx == st.nameIdx
    && (parent.Root? || NativeShape(parent))
    && (forall x :: x in later.saved ==> x in st.saved || (x == w.types.base(te) && x != te))
  }

  /** After the base type's tag has been saved, the type still finds none. */
  lemma StillNone(w: World, st: State, te: TypeId, later: State)
    requires w.Sound() && Found(w, st.saved, te).None? && !w.InvalidGroup(te)
    requires forall x :: x in later.saved ==> x in st.saved || (x == w.types.base(te) && x != te)
    ensures Found(w, later.saved, te).None?
  {
    FirstSavedExactly(w.table.uc, w.Group(te), later.saved);
    FirstSavedExactly(w.table.uc, w.Group(te), st.saved);
    if w.Group(te) != 0 && FirstSaved(w.table.uc, w.Group(te), later.saved).Some? {
      var i :| 0 <= i < |w.table.uc| && w.table.uc[i].group == w.Group(te) && w.table.uc[i].te in later.saved;
      assert w.types.base(w.types.base(te)) == w.types.base(te);
      AlikeInGroup(w.types, w.table, te, i);
    }
  }

  /** The two names of a new tag. */
  lemma NameSuffix(w: World, kind: Kind, te: TypeId, idx: nat)
    requires w.Sound()
    ensures Suffix(NameOf(w, kind, te, idx)) ==
      match kind case Native => "#TN" case ForAliased => "" case Unique | UniqueAliased => "#T" + Decimal(idx)
  {
    var chars := w.chars(te) + (if w.standardInteger(te) then "B" else "");
    var suffix := match kind case Native => "#TN" case ForAliased => "" case Unique | UniqueAliased => "#T" + Decimal(idx);
    SuffixOf(chars, suffix);
  }

  /** The case in which a new tag is made. */
  lemma GetNew(w: World, st: State, te: TypeId, kind: Kind)
    requires w.Sound() && Inv(w, st) && NoRoots(st)
    requires !w.Off(te) && !w.InvalidGroup(te) && Found(w, st.saved, te).None?
    requires ParentOutcome(w, st, te, Parent(w, st, te).0, Parent(w, st, te).1)
    ensures Outcome(w, st, te, kind, Get(w, st, te, kind).0, Get(w, st, te, kind).1)
  {
    var p := Parent(w, st, te);
    if w.Carries(te) {
      var native := Scalar(p.1, w.bytes(te), NameOf(w, Native, te, p.0.nameIdx));
      var tag := Scalar(native, w.bytes(te), NameOf(w, ForAliased, te, p.0.nameIdx));
      NameSuffix(w, Native, te, p.0.nameIdx);
      NameSuffix(w, ForAliased, te, p.0.nameIdx);
      StillNone(w, st, te, p.0);
      SaveKeeps(w, p.0, te, tag);
      var saved := p.0.(saved := p.0.saved[te := tag]);
      assert Get(w, st, te, kind) == Serve(w, saved, te, kind, tag);
    }
  }

  /** What every request does, in every state that requests lead to. */
  lemma {:induction false} GetOutcome(w: World, st: State, te: TypeId, kind: Kind)
    requires w.Sound() && Inv(w, st) && NoRoots(st)
    ensures Outcome(w, st, te, kind, Get(w, st, te, kind).0, Get(w, st, te, kind).1)
    decreases !w.types.IsBase(te)
  {
    if !w.Off(te) && !w.InvalidGroup(te) {
      if Found(w, st.saved, te).Some? {
        GetFound(w, st, te, kind);
      } else {
        var base := w.types.base(te);
        if base != te {
          assert w.types.base(base) == base;
          GetOutcome(w, st, base, Native);
        }
        GetNew(w, st, te, kind);
      }
    }
  }

  /** The base type can be given a tag. */
  predicate BaseHasTag(w: World, te: TypeId) {
    var base := w.types.base(te);
    base != te && w.Carries(base) && !w.Off(base) && !w.InvalidGroup(base)
  }

  /** A tag has the name and the size of the type. */
  predicate Labelled(w: World, te: TypeId, kind: Kind, tag: Tag)
    requires !kind.IsUnique()
  {
    tag.Scalar? && tag.size == w.bytes(te) && tag.name == NameOf(w, kind, te, 0)
  }

  /** The native tag of a type is below the root or below the native tag of its base type, and there if that can be. */
  predicate BelowIn(w: World, saved: map<TypeId, Tag>, te: TypeId, parent: Tag) {
    var base := w.types.base(te);
    && (parent.Root? ||
          (base != te && Found(w, saved, base).Some? && AliasedShape(Found(w, saved, base).value)
           && parent == Found(w, saved, base).value.parent))
    && (BaseHasTag(w, te) ==> !parent.Root?)
  }

  /** A saved tag and the native tag above it are those of the type, in the place that its base type gives them. */
  predicate Placed(w: World, saved: map<TypeId, Tag>, te: TypeId, tag: Tag) {
    Labelled(w, te, ForAliased, tag) && Labelled(w, te, Native, tag.parent) && BelowIn(w, saved, te, tag.parent.parent)
  }

  ghost predicate AllPlaced(w: World, st: State) {
    forall te :: te in st.saved ==> Placed(w, st.saved, te, st.saved[te])
  }

  lemma NewPlaced(w: World, st: State, te: TypeId)
    requires w.Sound() && Inv(w, st) && NoRoots(st) && w.Carries(te)
    ensures var p := Parent(w, st, te);
      var tag := Scalar(Scalar(p.1, w.bytes(te), NameOf(w, Native, te, p.0.nameIdx)), w.bytes(te),
                        NameOf(w, ForAliased, te, p.0.nameIdx));
      Placed(w, p.0.saved, te, tag)
  {
    var base, p := w.types.base(te), Parent(w, st, te);
    if base != te {
      assert w.types.base(base) == base;
      GetOutcome(w, st, base, Native);
    }
  }

  /** Every request keeps tags in their place. */
  lemma {:induction false} GetKeepsPlaced(w: World, st: State, te: TypeId, kind: Kind)
    requires w.Sound() && Inv(w, st) && NoRoots(st) && AllPlaced(w, st)
    ensures AllPlaced(w, Get(w, st, te, kind).0)
    decreases !w.types.IsBase(te)
  {
    if !w.Off(te) && !w.InvalidGroup(te) {
      FoundIsTag(w, st, te);
      if Found(w, st.saved, te).Some? {
        FoundShape(w, st, te);
      } else {
        var base, p := w.types.base(te), Parent(w, st, te);
        if base != te {
          assert w.types.base(base) == base;
          GetKeepsPlaced(w, st, base, Native);
          GetOutcome(w, st, base, Native);
        }
        if w.Carries(te) {
          SavedPlaced(w, st, te, kind);
        }
      }
    }
  }

  lemma SavedPlaced(w: World, st: State, te: TypeId, kind: Kind)
    requires w.Sound() && Inv(w, st) && NoRoots(st) && w.Carries(te)
    requires !w.Off(te) && !w.InvalidGroup(te) && Found(w, st.saved, te).None?
    requires ParentOutcome(w, st, te, Parent(w, st, te).0, Parent(w, st, te).1) && AllPlaced(w, Parent(w, st, te).0)
    ensures AllPlaced(w, Get(w, st, te, kind).0)
  {
    var p := Parent(w, st, te);
    var tag := Scalar(Scalar(p.1, w.bytes(te), NameOf(w, Native, te, p.0.nameIdx)), w.bytes(te),
                      NameOf(w, ForAliased, te, p.0.nameIdx));
    NameSuffix(w, Native, te, p.0.nameIdx);
    NameSuffix(w, ForAliased, te, p.0.nameIdx);
    StillNone(w, st, te, p.0);
    SaveKeeps(w, p.0, te, tag);
    NewPlaced(w, st, te);
    var later := p.0.(saved := p.0.saved[te := tag]);
    forall x | x in later.saved ensures Placed(w, later.saved, x, later.saved[x]) {
    }
    assert Get(w, st, te, kind) == Serve(w, later, te, kind, tag);
  }
}
