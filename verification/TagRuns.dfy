/** What holds over every run of requests for tags of elementary types. */
module TagRuns {
  import opened Wrappers
  import opened UcGroups
  import opened UcValidity
  import opened Tags
  import opened TypeTags

  datatype Request = Request(te: TypeId, kind: Kind)

  /** The state before request i of a run. */
  function Before(w: World, rs: seq<Request>, i: nat): (st: State)
    requires w.Sound() && i <= |rs|
    ensures NoRoots(st)
  {
    if i == 0 then State(map[], 0) else Get(w, Before(w, rs, i - 1), rs[i - 1].te, rs[i - 1].kind).0
  }

  /** The answer to request i. */
  function Answer(w: World, rs: seq<Request>, i: nat): Option<Tag>
    requires w.Sound() && i < |rs|
  {
    Get(w, Before(w, rs, i), rs[i].te, rs[i].kind).1
  }

  lemma {:induction false} RunKeeps(w: World, rs: seq<Request>, i: nat)
    requires w.Sound() && i <= |rs|
    ensures Inv(w, Before(w, rs, i))
  {
    if i > 0 {
      RunKeeps(w, rs, i - 1);
      GetOutcome(w, Before(w, rs, i - 1), rs[i - 1].te, rs[i - 1].kind);
    }
  }

  lemma {:induction false} RunGrows(w: World, rs: seq<Request>, i: nat, j: nat)
    requires w.Sound() && i <= j <= |rs|
    ensures Grows(w, Before(w, rs, i), Before(w, rs, j))
    decreases j
  {
    if i < j {
      RunGrows(w, rs, i, j - 1);
      RunKeeps(w, rs, j - 1);
      GetOutcome(w, Before(w, rs, j - 1), rs[j - 1].te, rs[j - 1].kind);
    }
  }

  /** The For_Aliased tag that the type has at the end of the run. */
  function Final(w: World, rs: seq<Request>, te: TypeId): Option<Tag>
    requires w.Sound()
  {
    Found(w, Before(w, rs, |rs|).saved, te)
  }

  /** Every answer of a run, in terms of the one For_Aliased tag its type keeps. */
  lemma AnswerOfRun(w: World, rs: seq<Request>, i: nat)
    requires w.Sound() && i < |rs| && Answer(w, rs, i).Some?
    ensures var tag := Final(w, rs, rs[i].te);
      && tag.Some? && AliasedShape(tag.value)
      && Answered(w, tag.value, rs[i].te, rs[i].kind, Before(w, rs, i).nameIdx, Answer(w, rs, i).value)
    ensures !w.Off(rs[i].te) && !w.InvalidGroup(rs[i].te)
    ensures Before(w, rs, i + 1).nameIdx == Before(w, rs, i).nameIdx + (if rs[i].kind.IsUnique() then 1 else 0)
  {
    RunKeeps(w, rs, i);
    GetOutcome(w, Before(w, rs, i), rs[i].te, rs[i].kind);
    RunGrows(w, rs, i + 1, |rs|);
  }

  lemma UniqueAnswer(w: World, rs: seq<Request>, i: nat)
    requires w.Sound() && i < |rs| && Answer(w, rs, i).Some? && rs[i].kind.IsUnique()
    ensures UniqueShape(Answer(w, rs, i).value, Before(w, rs, i).nameIdx, rs[i].kind.UniqueAliased?)
  {
    AnswerOfRun(w, rs, i);
    NameSuffix(w, rs[i].kind, rs[i].te, Before(w, rs, i).nameIdx);
  }

  /** The tags of two different unique requests never alias, whatever their types. */
  lemma DifferentUniquesNeverAlias(w: World, rs: seq<Request>, i: nat, j: nat)
    requires w.Sound() && i < j < |rs| && Answer(w, rs, i).Some? && Answer(w, rs, j).Some?
    requires rs[i].kind.IsUnique() && rs[j].kind.IsUnique()
    ensures !MayAlias(Answer(w, rs, i).value, Answer(w, rs, j).value)
  {
    UniqueAnswer(w, rs, i);
    UniqueAnswer(w, rs, j);
    AnswerOfRun(w, rs, i);
    RunGrows(w, rs, i + 1, j);
    UniquesNeverAlias(Answer(w, rs, i).value, Before(w, rs, i).nameIdx, rs[i].kind.UniqueAliased?,
                      Answer(w, rs, j).value, Before(w, rs, j).nameIdx, rs[j].kind.UniqueAliased?);
  }

  /** What is known not to be aliased never aliases what is known to be aliased. */
  lemma UniqueAndAliasedNeverAlias(w: World, rs: seq<Request>, i: nat, j: nat)
    requires w.Sound() && i < |rs| && j < |rs| && Answer(w, rs, i).Some? && Answer(w, rs, j).Some?
    requires rs[i].kind.Unique? && (rs[j].kind.ForAliased? || rs[j].kind.UniqueAliased?)
    ensures !MayAlias(Answer(w, rs, i).value, Answer(w, rs, j).value)
  {
    if rs[j].kind.ForAliased? {
      UniqueAnswer(w, rs, i);
      AnswerOfRun(w, rs, j);
      UniqueNeverAliasesAliased(Answer(w, rs, i).value, Before(w, rs, i).nameIdx, Answer(w, rs, j).value);
    } else if i < j {
      DifferentUniquesNeverAlias(w, rs, i, j);
    } else {
      DifferentUniquesNeverAlias(w, rs, j, i);
    }
  }

  /** Two types get their tags from one For_Aliased tag: they are the same, or in one group. */
  predicate SameGroup(w: World, a: TypeId, b: TypeId) {
    a == b || (w.Group(a) == w.Group(b) && w.Group(a) != 0)
  }

  lemma OneTagPerGroup(w: World, st: State, a: TypeId, b: TypeId)
    requires w.Sound() && Inv(w, st) && SameGroup(w, a, b)
    ensures Found(w, st.saved, a) == Found(w, st.saved, b)
  {
    if a != b {
      GroupTag(w, st, a);
      GroupTag(w, st, b);
    }
  }

  /** In a group, the type's own tag is the one found through the group. */
  lemma GroupTag(w: World, st: State, a: TypeId)
    requires w.Sound() && Inv(w, st) && w.Group(a) != 0
    ensures Found(w, st.saved, a) == FirstSaved(w.table.uc, w.Group(a), st.saved)
  {
    FirstSavedExactly(w.table.uc, w.Group(a), st.saved);
    if a in st.saved {
      FindGroupOf(w.table.uc, a);
      var i :| 0 <= i < |w.table.uc| && w.table.uc[i].group == w.Group(a) && w.table.uc[i].te in st.saved
        && FirstSaved(w.table.uc, w.Group(a), st.saved) == Some(st.saved[w.table.uc[i].te]);
      GroupOfEntry(w.table, i);
    }
  }

  /** Members of a group get the same native and the same For_Aliased tag, whichever is asked first. */
  lemma MembersShareTags(w: World, rs: seq<Request>, i: nat, j: nat)
    requires w.Sound() && i < |rs| && j < |rs| && Answer(w, rs, i).Some? && Answer(w, rs, j).Some?
    requires SameGroup(w, rs[i].te, rs[j].te) && rs[i].kind == rs[j].kind && !rs[i].kind.IsUnique()
    ensures Answer(w, rs, i) == Answer(w, rs, j)
  {
    AnswerOfRun(w, rs, i);
    AnswerOfRun(w, rs, j);
    RunKeeps(w, rs, |rs|);
    OneTagPerGroup(w, Before(w, rs, |rs|), rs[i].te, rs[j].te);
  }

  /** A native tag may alias every tag of its type and of the types of its group. */
  lemma NativeAliasesItsType(w: World, rs: seq<Request>, i: nat, j: nat)
    requires w.Sound() && i < |rs| && j < |rs| && Answer(w, rs, i).Some? && Answer(w, rs, j).Some?
    requires SameGroup(w, rs[i].te, rs[j].te) && rs[i].kind.Native?
    ensures Under(Answer(w, rs, i).value, Answer(w, rs, j).value)
  {
    AnswerOfRun(w, rs, i);
    AnswerOfRun(w, rs, j);
    RunKeeps(w, rs, |rs|);
    OneTagPerGroup(w, Before(w, rs, |rs|), rs[i].te, rs[j].te);
    var tag := Final(w, rs, rs[j].te).value;
    assert Under(tag.parent, tag);
    if rs[j].kind.UniqueAliased? {
      UnderTransitive(tag.parent, tag, Answer(w, rs, j).value);
    }
  }

  /** A For_Aliased tag may alias the tags of aliased objects of its type and of the types of its group. */
  lemma AliasedAliasesAliased(w: World, rs: seq<Request>, i: nat, j: nat)
    requires w.Sound() && i < |rs| && j < |rs| && Answer(w, rs, i).Some? && Answer(w, rs, j).Some?
    requires SameGroup(w, rs[i].te, rs[j].te) && rs[i].kind.ForAliased? && !rs[j].kind.Unique?
    ensures MayAlias(Answer(w, rs, i).value, Answer(w, rs, j).value)
  {
    AnswerOfRun(w, rs, i);
    AnswerOfRun(w, rs, j);
    RunKeeps(w, rs, |rs|);
    OneTagPerGroup(w, Before(w, rs, |rs|), rs[i].te, rs[j].te);
  }

  /**
   Exactly which requests of a run get no tag: strict aliasing is off, the type or its base type is void or universal,
   its group is invalid, or it is a type that can carry no tag, and the request is for a unique one or nobody in its
   group has one yet.
   */
  lemma AnswerExactly(w: World, rs: seq<Request>, i: nat)
    requires w.Sound() && i < |rs|
    ensures var te := rs[i].te;
      Answer(w, rs, i).None? <==>
        || w.noStrict || w.isVoid(te) || w.universal(te) || (w.types.base(te) != te && w.universal(w.types.base(te)))
        || (w.Group(te) != 0 && Invalid(w.table.uc, w.Group(te)))
        || ((w.nonnative(te) || w.accessSubprogram(te))
            && (rs[i].kind.IsUnique() || Found(w, Before(w, rs, i).saved, te).None?))
  {
    RunKeeps(w, rs, i);
    GetOutcome(w, Before(w, rs, i), rs[i].te, rs[i].kind);
  }

  /** The world after Search_For_UCs has entered the conversions. */
  ghost predicate Initialized(w: World, cs: seq<Conversion>) {
    && w.types.Sound() && (forall t :: '#' !in w.chars(t))
    && w.table == Search(w.types, Table([], 0), cs)
  }

  lemma InitializedSound(w: World, cs: seq<Conversion>)
    requires Initialized(w, cs)
    ensures w.Sound()
  {
    SearchKeeps(w.types, Table([], 0), cs);
  }

  /**
   An unchecked conversion of access types is respected, for every list of conversions and every run of
   requests: an access through a converted pointer (For_Aliased, or Native when the origin is unknown) may
   alias every access to an aliased object of the other type, or one of the two has no tag at all.
   */
  lemma ConversionsAreRespected(w: World, cs: seq<Conversion>, c: Conversion, rs: seq<Request>, i: nat, j: nat)
    requires Initialized(w, cs) && w.Sound() && c in cs && i < |rs| && j < |rs|
    requires Answer(w, rs, i).Some? && Answer(w, rs, j).Some?
    requires (rs[i].te == c.source && rs[j].te == c.target) || (rs[i].te == c.target && rs[j].te == c.source)
    requires rs[i].kind.Native? || (rs[i].kind.ForAliased? && !rs[j].kind.Unique?)
    ensures MayAlias(Answer(w, rs, i).value, Answer(w, rs, j).value)
  {
    SearchCovers(w.types, Table([], 0), cs);
    AnswerOfRun(w, rs, i);
    AnswerOfRun(w, rs, j);
    if rs[i].kind.Native? {
      NativeAliasesItsType(w, rs, i, j);
    } else {
      AliasedAliasesAliased(w, rs, i, j);
    }
  }

  /** The same along a chain of conversions, if none of the run met the guard of a lost link. */
  lemma ChainsAreRespected(w: World, cs: seq<Conversion>, path: seq<TypeId>, rs: seq<Request>, i: nat, j: nat)
    requires Initialized(w, cs) && w.Sound() && NoneLost(w.types, Table([], 0), cs) && Chain(cs, path) && |path| >= 2
    requires i < |rs| && j < |rs| && Answer(w, rs, i).Some? && Answer(w, rs, j).Some?
    requires rs[i].te == path[0] && rs[j].te == path[|path| - 1]
    requires rs[i].kind.Native? || (rs[i].kind.ForAliased? && !rs[j].kind.Unique?)
    ensures MayAlias(Answer(w, rs, i).value, Answer(w, rs, j).value)
  {
    LinkedTypesSettle(w.types, cs, path);
    ChainPresent(w.types, cs, path);
    AnswerOfRun(w, rs, i);
    AnswerOfRun(w, rs, j);
    if rs[i].kind.Native? {
      NativeAliasesItsType(w, rs, i, j);
    } else {
      AliasedAliasesAliased(w, rs, i, j);
    }
  }

  lemma ChainPresent(ty: Types, cs: seq<Conversion>, path: seq<TypeId>)
    requires ty.Sound() && NoneLost(ty, Table([], 0), cs) && Chain(cs, path) && |path| >= 2
    ensures FindGroup(Search(ty, Table([], 0), cs).uc, path[0]) != 0
    ensures FindGroup(Search(ty, Table([], 0), cs).uc, path[|path| - 1]) != 0
  {
    SearchLinks(ty, Table([], 0), cs);
    assert Conversion(path[0], path[1]) in cs || Conversion(path[1], path[0]) in cs;
    var k := |path| - 2;
    assert Conversion(path[k], path[k + 1]) in cs || Conversion(path[k + 1], path[k]) in cs;
  }

  lemma {:induction false} RunPlaced(w: World, rs: seq<Request>, i: nat)
    requires w.Sound() && i <= |rs|
    ensures AllPlaced(w, Before(w, rs, i))
  {
    if i > 0 {
      RunKeeps(w, rs, i - 1);
      RunPlaced(w, rs, i - 1);
      GetKeepsPlaced(w, Before(w, rs, i - 1), rs[i - 1].te, rs[i - 1].kind);
    }
  }

  /** A type whose tag another type of its group may have been given. */
  lemma Holder(w: World, st: State, te: TypeId) returns (holder: TypeId)
    requires w.Sound() && Found(w, st.saved, te).Some?
    ensures SameGroup(w, holder, te) && holder in st.saved && Found(w, st.saved, te) == Some(st.saved[holder])
  {
    holder := te;
    if te !in st.saved {
      FirstSavedExactly(w.table.uc, w.Group(te), st.saved);
      var i :| 0 <= i < |w.table.uc| && w.table.uc[i].group == w.Group(te) && w.table.uc[i].te in st.saved
        && FirstSaved(w.table.uc, w.Group(te), st.saved) == Some(st.saved[w.table.uc[i].te]);
      GroupOfEntry(w.table, i);
      holder := w.table.uc[i].te;
    }
  }

  /** The base types of two types of a valid group are in one group, or both in groups without tags. */
  lemma BasesOfGroup(w: World, a: TypeId, b: TypeId)
    requires w.Sound() && BasesLinked(w.types, w.table.uc) && SameGroup(w, a, b) && !w.InvalidGroup(b) && !w.types.IsBase(b)
    requires !w.InvalidGroup(w.types.base(b))
    ensures SameGroup(w, w.types.base(a), w.types.base(b)) && !w.types.IsBase(a)
  {
    if a != b {
      FindGroupOf(w.table.uc, b);
      var i :| 0 <= i < |w.table.uc| && w.table.uc[i].te == b && w.table.uc[i].group == w.Group(b);
      BaseInGroup(w.types, w.table, a, i);
    }
  }

  /** The type whose name and size the final tag of te has, and what that tag looks like. */
  lemma FinalHolder(w: World, rs: seq<Request>, te: TypeId) returns (holder: TypeId)
    requires w.Sound() && Final(w, rs, te).Some?
    ensures SameGroup(w, holder, te) && !w.InvalidGroup(holder) && AliasedShape(Final(w, rs, te).value)
    ensures Placed(w, Before(w, rs, |rs|).saved, holder, Final(w, rs, te).value)
  {
    RunKeeps(w, rs, |rs|);
    RunPlaced(w, rs, |rs|);
    holder := Holder(w, Before(w, rs, |rs|), te);
  }

  /** A base type in a valid group is there with base types only. */
  lemma BasesOnly(w: World, a: TypeId, b: TypeId)
    requires w.Sound() && SameGroup(w, a, b) && !w.InvalidGroup(a) && w.types.IsBase(b)
    ensures w.types.IsBase(a)
  {
    if a != b {
      FindGroupOf(w.table.uc, a);
      FindGroupOf(w.table.uc, b);
      var i :| 0 <= i < |w.table.uc| && w.table.uc[i].te == b && w.table.uc[i].group == w.Group(b);
      AlikeInGroup(w.types, w.table, a, i);
    }
  }

  /** Above the native tag of a type there is at most that of its base type, and then the root. */
  lemma AtMostOneAbove(w: World, rs: seq<Request>, te: TypeId) returns (holder: TypeId, above: TypeId)
    requires w.Sound() && Final(w, rs, te).Some?
    ensures AliasedShape(Final(w, rs, te).value)
    ensures SameGroup(w, holder, te) && !w.InvalidGroup(holder)
    ensures Placed(w, Before(w, rs, |rs|).saved, holder, Final(w, rs, te).value)
    ensures var native := Final(w, rs, te).value.parent;
      native.parent.Root? ||
      (&& Final(w, rs, w.types.base(holder)).Some? && native.parent == Final(w, rs, w.types.base(holder)).value.parent
       && SameGroup(w, above, w.types.base(holder)) && Labelled(w, above, Native, native.parent)
       && native.parent.parent.Root? && w.types.base(holder) != holder && !w.InvalidGroup(w.types.base(holder)))
  {
    holder := FinalHolder(w, rs, te);
    above := holder;
    var native := Final(w, rs, te).value.parent;
    if !native.parent.Root? {
      var base := w.types.base(holder);
      assert w.types.base(base) == base;
      above := FinalHolder(w, rs, base);
      BasesOnly(w, above, base);
    }
  }

  /** One native tag is above another if they are the same, or it is that of the base type. */
  lemma NativeUnder(w: World, rs: seq<Request>, a: TypeId, b: TypeId)
    requires w.Sound() && Final(w, rs, a).Some? && Final(w, rs, b).Some?
    ensures var high, low := Final(w, rs, a).value, Final(w, rs, b).value;
      && AliasedShape(high) && AliasedShape(low)
      && (Under(high.parent, low.parent) <==> high.parent == low.parent || high.parent == low.parent.parent)
  {
    var holder, above := AtMostOneAbove(w, rs, b);
    var other := FinalHolder(w, rs, a);
    UnderTwo(Final(w, rs, a).value.parent, Final(w, rs, b).value.parent);
  }

  lemma UnderTwo(high: Tag, low: Tag)
    requires !high.Root? && !low.Root? && (low.parent.Root? || low.parent.parent.Root?)
    ensures Under(high, low) <==> high == low || high == low.parent
  {
    assert Under(high, low) <==> high == low || Under(high, low.parent);
    if !low.parent.Root? {
      assert Under(high, low.parent) <==> high == low.parent || Under(high, low.parent.parent);
    }
  }

  /** Which answers of two requests may alias, in terms of the For_Aliased tags of their types. */
  predicate Related(ki: Kind, ti: Tag, kj: Kind, tj: Tag)
    requires !ti.Root? && !tj.Root?
  {
    if ki.Native? && kj.Native? then MayAlias(ti.parent, tj.parent)
    else if ki.Native? then Under(ti.parent, tj.parent)
    else if kj.Native? then Under(tj.parent, ti.parent)
    else ti == tj && ((ki.ForAliased? && !kj.Unique?) || (kj.ForAliased? && !ki.Unique?))
  }

  /** Below a native tag: what else is above or below an answer for the type. */
  lemma NativeAndAnswer(native: Tag, tag: Tag, w: World, te: TypeId, kind: Kind, idx: nat, r: Tag)
    requires w.Sound() && NativeShape(native) && AliasedShape(tag) && Answered(w, tag, te, kind, idx, r) && !kind.Native?
    ensures MayAlias(native, r) <==> Under(native, tag.parent)
  {
    SuffixesDiffer(idx, idx);
    NameSuffix(w, kind, te, idx);
    UnderAnswer(native, tag, w, te, kind, idx, r);
    if Under(r, native) {
      AboveNative(r, native);
    }
  }

  /**
   Exactly which two answers of a run may alias: native tags, if one is above the other; a native tag and another one,
   if it is above the native tag of the other's type; a For_Aliased tag and the tag of an aliased object, if their
   types have the same For_Aliased tag; and no others.
   */
  lemma AliasExactly(w: World, rs: seq<Request>, i: nat, j: nat)
    requires w.Sound() && i < |rs| && j < |rs| && i != j && Answer(w, rs, i).Some? && Answer(w, rs, j).Some?
    ensures var ti, tj := Final(w, rs, rs[i].te), Final(w, rs, rs[j].te);
      && ti.Some? && tj.Some? && AliasedShape(ti.value) && AliasedShape(tj.value)
      && (MayAlias(Answer(w, rs, i).value, Answer(w, rs, j).value) <==>
            Related(rs[i].kind, ti.value, rs[j].kind, tj.value))
  {
    AnswerOfRun(w, rs, i);
    AnswerOfRun(w, rs, j);
    var ti, tj := Final(w, rs, rs[i].te).value, Final(w, rs, rs[j].te).value;
    var ri, rj := Answer(w, rs, i).value, Answer(w, rs, j).value;
    if rs[i].kind.Native? || rs[j].kind.Native? {
      if !rs[j].kind.Native? {
        NativeAndAnswer(ti.parent, tj, w, rs[j].te, rs[j].kind, Before(w, rs, j).nameIdx, rj);
      } else if !rs[i].kind.Native? {
        NativeAndAnswer(tj.parent, ti, w, rs[i].te, rs[i].kind, Before(w, rs, i).nameIdx, ri);
      }
    } else if rs[i].kind.IsUnique() && rs[j].kind.IsUnique() {
      if i < j {
        DifferentUniquesNeverAlias(w, rs, i, j);
      } else {
        DifferentUniquesNeverAlias(w, rs, j, i);
      }
    } else if rs[i].kind.Unique? {
      UniqueAndAliasedNeverAlias(w, rs, i, j);
    } else if rs[j].kind.Unique? {
      UniqueAndAliasedNeverAlias(w, rs, j, i);
    } else if rs[i].kind.ForAliased? {
      AliasedAndAnswer(ti, tj, w, rs[j].te, rs[j].kind, Before(w, rs, j).nameIdx, rj);
    } else {
      AliasedAndAnswer(tj, ti, w, rs[i].te, rs[i].kind, Before(w, rs, i).nameIdx, ri);
    }
  }

  lemma AliasedAndAnswer(aliased: Tag, tag: Tag, w: World, te: TypeId, kind: Kind, idx: nat, r: Tag)
    requires w.Sound() && AliasedShape(aliased) && AliasedShape(tag) && Answered(w, tag, te, kind, idx, r)
    requires kind.ForAliased? || kind.UniqueAliased?
    ensures MayAlias(aliased, r) <==> aliased == tag
  {
    SuffixesDiffer(idx, idx);
    NameSuffix(w, kind, te, idx);
    if Under(r, aliased) {
      AboveAliased(r, aliased);
    }
    assert Under(tag, tag) && (Under(tag, r) <==> tag == r || Under(tag, r.parent));
    if Under(aliased, r) {
      if kind.ForAliased? {
        AboveAliased(aliased, r);
      } else {
        AboveUnique(aliased, r, idx, true);
      }
    }
  }

  /** The types whose names and sizes the native tags above an answer for te can have. */
  ghost predicate InFamily(w: World, t: TypeId, te: TypeId) {
    SameGroup(w, t, te) || exists u :: SameGroup(w, u, te) && SameGroup(w, t, w.types.base(u))
  }

  /** The name that distinguishes a type: its own, with a "B" for an integer type of Standard. */
  function Label(w: World, te: TypeId): string {
    if w.standardInteger(te) then w.chars(te) + "B" else w.chars(te)
  }

  /** The two types have the same name and the same size. */
  predicate SameLabel(w: World, a: TypeId, b: TypeId) {
    w.bytes(a) == w.bytes(b) && Label(w, a) == Label(w, b)
  }

  /** The names of tags: that of the type alone, or followed by the mark of the kind. */
  lemma NamesAre(w: World, kind: Kind, te: TypeId, idx: nat)
    ensures NameOf(w, kind, te, idx) ==
      match kind
      case Native => Label(w, te) + "#TN"
      case ForAliased => Label(w, te)
      case Unique | UniqueAliased => Label(w, te) + "#T" + Decimal(idx)
  {
    assert Label(w, te) == w.chars(te) + (if w.standardInteger(te) then "B" else "");
    if kind.ForAliased? {
      assert Label(w, te) + "" == Label(w, te);
    } else if kind.IsUnique() {
      assert Label(w, te) + ("#T" + Decimal(idx)) == Label(w, te) + "#T" + Decimal(idx);
    }
  }

  /** Native tags with one name belong to types of one label. */
  lemma NameGivesLabel(w: World, a: TypeId, b: TypeId)
    requires NameOf(w, Native, a, 0) == NameOf(w, Native, b, 0)
    ensures Label(w, a) == Label(w, b)
  {
    NamesAre(w, Native, a, 0);
    NamesAre(w, Native, b, 0);
    var n := NameOf(w, Native, a, 0);
    assert n[..|n| - 3] == Label(w, a) && n[..|n| - 3] == Label(w, b);
  }

  /**
   The nodes of every run: a native tag has the name "...#TN" and the size of a type of the group, a For_Aliased tag its
   name alone; a unique tag has the name of the type itself, followed by "#T" and the index, and its size.
   */
  lemma NodesOfAnswers(w: World, rs: seq<Request>, i: nat) returns (holder: TypeId)
    requires w.Sound() && i < |rs| && Answer(w, rs, i).Some?
    ensures SameGroup(w, holder, rs[i].te)
    ensures var r := Answer(w, rs, i).value;
      && r.Scalar?
      && r.size == w.bytes(if rs[i].kind.IsUnique() then rs[i].te else holder)
      && r.name ==
         match rs[i].kind
         case Native => Label(w, holder) + "#TN"
         case ForAliased => Label(w, holder)
         case Unique | UniqueAliased => Label(w, rs[i].te) + "#T" + Decimal(Before(w, rs, i).nameIdx)
  {
    AnswerOfRun(w, rs, i);
    holder := FinalHolder(w, rs, rs[i].te);
    NamesAre(w, rs[i].kind, if rs[i].kind.IsUnique() then rs[i].te else holder,
             if rs[i].kind.IsUnique() then Before(w, rs, i).nameIdx else 0);
  }

  /** Native tags that are the same have the label of a type of either family. */
  lemma CommonLabel(w: World, rs: seq<Request>, a: TypeId, b: TypeId) returns (x: TypeId, y: TypeId)
    requires w.Sound() && Final(w, rs, a).Some? && Final(w, rs, b).Some?
    requires !Final(w, rs, a).value.Root? && !Final(w, rs, b).value.Root?
    requires Under(Final(w, rs, a).value.parent, Final(w, rs, b).value.parent)
    ensures InFamily(w, x, a) && InFamily(w, y, b) && SameLabel(w, x, y)
  {
    NativeUnder(w, rs, a, b);
    x := FinalHolder(w, rs, a);
    var holder, above := AtMostOneAbove(w, rs, b);
    if Final(w, rs, a).value.parent == Final(w, rs, b).value.parent {
      y := holder;
    } else {
      y := above;
    }
    NameGivesLabel(w, x, y);
  }

  /**
   An access aliases nothing outside its own type: if no type of the family of one (its group, and the groups of the
   base types) has the name and the size of a type of the family of the other, no tags of the two may alias, in any run.
   */
  lemma NothingOutsideItsType(w: World, rs: seq<Request>, i: nat, j: nat)
    requires w.Sound() && i < |rs| && j < |rs| && Answer(w, rs, i).Some? && Answer(w, rs, j).Some?
    requires forall a, b :: InFamily(w, a, rs[i].te) && InFamily(w, b, rs[j].te) ==> !SameLabel(w, a, b)
    ensures !MayAlias(Answer(w, rs, i).value, Answer(w, rs, j).value)
  {
    if i == j {
      assert InFamily(w, rs[i].te, rs[i].te) && SameLabel(w, rs[i].te, rs[i].te);
    } else {
      AliasExactly(w, rs, i, j);
      NativesApart(w, rs, i, j);
    }
  }

  lemma NativesApart(w: World, rs: seq<Request>, i: nat, j: nat)
    requires w.Sound() && i < |rs| && j < |rs| && Final(w, rs, rs[i].te).Some? && Final(w, rs, rs[j].te).Some?
    requires !Final(w, rs, rs[i].te).value.Root? && !Final(w, rs, rs[j].te).value.Root?
    requires forall a, b :: InFamily(w, a, rs[i].te) && InFamily(w, b, rs[j].te) ==> !SameLabel(w, a, b)
    ensures !MayAlias(Final(w, rs, rs[i].te).value.parent, Final(w, rs, rs[j].te).value.parent)
    ensures Final(w, rs, rs[i].te) != Final(w, rs, rs[j].te)
  {
    var ni, nj := Final(w, rs, rs[i].te).value.parent, Final(w, rs, rs[j].te).value.parent;
    if Under(ni, nj) {
      var x, y := CommonLabel(w, rs, rs[i].te, rs[j].te);
    }
    if Under(nj, ni) {
      var x, y := CommonLabel(w, rs, rs[j].te, rs[i].te);
    }
  }

  /** The native tag of te is below that of its base type. */
  predicate OnBase(w: World, rs: seq<Request>, te: TypeId)
    requires w.Sound()
  {
    Final(w, rs, te).Some? && Final(w, rs, te).value.Scalar? && Final(w, rs, te).value.parent.Scalar?
    && !Final(w, rs, te).value.parent.parent.Root?
  }

  /** Where the native tag of a type is below one of a base type, it is that of its own base type's group. */
  lemma OnOwnBase(w: World, cs: seq<Conversion>, rs: seq<Request>, te: TypeId)
    requires Initialized(w, cs) && w.Sound() && OnBase(w, rs, te)
    ensures Final(w, rs, w.types.base(te)).Some? && !Final(w, rs, w.types.base(te)).value.Root?
    ensures Final(w, rs, te).value.parent.parent == Final(w, rs, w.types.base(te)).value.parent
    ensures w.types.base(te) != te && !w.InvalidGroup(w.types.base(te))
  {
    SearchKeepsBases(w.types, Table([], 0), cs);
    var holder, above := AtMostOneAbove(w, rs, te);
    BasesOfGroup(w, te, holder);
    RunKeeps(w, rs, |rs|);
    OneTagPerGroup(w, Before(w, rs, |rs|), w.types.base(te), w.types.base(holder));
    BaseGroupValid(w, te, holder);
  }

  lemma BaseGroupValid(w: World, te: TypeId, holder: TypeId)
    requires SameGroup(w, w.types.base(te), w.types.base(holder)) && !w.InvalidGroup(w.types.base(holder))
    ensures !w.InvalidGroup(w.types.base(te))
  {
  }

  /**
   Objects of a subtype may be accessed as objects of its base type, in every run, also when the subtype has its tag
   from another type of its group: the native tag of the base type is above every tag of the subtype if and only if
   the subtype's native tag was made below a base type's, or the two native tags are the same node. It was made there
   if every type of the group that carries a tag has a base type that carries one.
   */
  lemma BaseAliasesSubtype(w: World, cs: seq<Conversion>, rs: seq<Request>, i: nat, j: nat)
    requires Initialized(w, cs) && w.Sound()
    requires i < |rs| && j < |rs| && Answer(w, rs, i).Some? && Answer(w, rs, j).Some?
    requires rs[i].te == w.types.base(rs[j].te) && rs[i].te != rs[j].te && rs[i].kind.Native?
    ensures Under(Answer(w, rs, i).value, Answer(w, rs, j).value) <==>
      OnBase(w, rs, rs[j].te) || NativeOf(w, rs, rs[i].te) == NativeOf(w, rs, rs[j].te)
    ensures (forall t :: SameGroup(w, t, rs[j].te) && w.Carries(t) ==> w.Carries(w.types.base(t)) && !w.isVoid(w.types.base(t)))
      ==> OnBase(w, rs, rs[j].te)
  {
    AnswerOfRun(w, rs, i);
    AnswerOfRun(w, rs, j);
    BaseIsAbove(w, cs, rs, i, j);
    if forall t :: SameGroup(w, t, rs[j].te) && w.Carries(t) ==> w.Carries(w.types.base(t)) && !w.isVoid(w.types.base(t)) {
      MadeOnBase(w, cs, rs, i, j);
    }
  }

  function NativeOf(w: World, rs: seq<Request>, te: TypeId): Tag
    requires w.Sound()
  {
    var tag := Final(w, rs, te);
    if tag.Some? && !tag.value.Root? then tag.value.parent else Root
  }

  lemma BaseIsAbove(w: World, cs: seq<Conversion>, rs: seq<Request>, i: nat, j: nat)
    requires Initialized(w, cs) && w.Sound() && i < |rs| && j < |rs|
    requires Answer(w, rs, i).Some? && Answer(w, rs, j).Some?
    requires rs[i].te == w.types.base(rs[j].te) && rs[i].te != rs[j].te && rs[i].kind.Native?
    ensures Under(Answer(w, rs, i).value, Answer(w, rs, j).value) <==>
      OnBase(w, rs, rs[j].te) || NativeOf(w, rs, rs[i].te) == NativeOf(w, rs, rs[j].te)
  {
    AnswerOfRun(w, rs, i);
    AnswerOfRun(w, rs, j);
    var native, tag := Final(w, rs, rs[i].te).value.parent, Final(w, rs, rs[j].te).value;
    NativeUnder(w, rs, rs[i].te, rs[j].te);
    if OnBase(w, rs, rs[j].te) {
      OnOwnBase(w, cs, rs, rs[j].te);
    }
    UnderAnswer(native, tag, w, rs[j].te, rs[j].kind, Before(w, rs, j).nameIdx, Answer(w, rs, j).value);
  }

  /** A native tag is above an answer if and only if it is above the native tag of its type. */
  lemma UnderAnswer(native: Tag, tag: Tag, w: World, te: TypeId, kind: Kind, idx: nat, r: Tag)
    requires w.Sound() && NativeShape(native) && AliasedShape(tag) && Answered(w, tag, te, kind, idx, r)
    ensures Under(native, r) <==> Under(native, tag.parent)
  {
    SuffixesDiffer(idx, idx);
    NameSuffix(w, kind, te, idx);
  }

  lemma MadeOnBase(w: World, cs: seq<Conversion>, rs: seq<Request>, i: nat, j: nat)
    requires Initialized(w, cs) && w.Sound() && i < |rs| && j < |rs|
    requires Answer(w, rs, i).Some? && Answer(w, rs, j).Some?
    requires rs[i].te == w.types.base(rs[j].te) && rs[i].te != rs[j].te
    requires forall t :: SameGroup(w, t, rs[j].te) && w.Carries(t) ==> w.Carries(w.types.base(t)) && !w.isVoid(w.types.base(t))
    ensures OnBase(w, rs, rs[j].te)
  {
    SearchKeepsBases(w.types, Table([], 0), cs);
    AnswerOfRun(w, rs, i);
    AnswerOfRun(w, rs, j);
    RunKeeps(w, rs, |rs|);
    RunPlaced(w, rs, |rs|);
    var holder := Holder(w, Before(w, rs, |rs|), rs[j].te);
    BasesOfGroup(w, holder, rs[j].te);
    assert w.types.base(w.types.base(holder)) == w.types.base(holder);
    assert BaseHasTag(w, holder);
  }

  /** Types with the same name and size are the same. */
  ghost predicate Distinct(w: World) {
    forall a, b :: SameLabel(w, a, b) ==> a == b
  }

  /** If labels are distinct, tags are the same only within a group. */
  lemma TagsOfGroups(w: World, cs: seq<Conversion>, rs: seq<Request>, a: TypeId, b: TypeId)
    requires Initialized(w, cs) && w.Sound() && Distinct(w) && Final(w, rs, a).Some? && Final(w, rs, b).Some?
    ensures var ta, tb := Final(w, rs, a).value, Final(w, rs, b).value;
      && AliasedShape(ta) && AliasedShape(tb)
      && (ta == tb <==> SameGroup(w, a, b)) && (ta.parent == tb.parent <==> SameGroup(w, a, b))
  {
    var ha := FinalHolder(w, rs, a);
    var hb := FinalHolder(w, rs, b);
    RunKeeps(w, rs, |rs|);
    if SameGroup(w, a, b) {
      OneTagPerGroup(w, Before(w, rs, |rs|), a, b);
    }
    if Final(w, rs, a).value.parent == Final(w, rs, b).value.parent {
      NameGivesLabel(w, ha, hb);
      assert SameLabel(w, ha, hb);
    }
  }

  /** The native tag of a is directly above that of b. */
  predicate Above(w: World, rs: seq<Request>, a: TypeId, b: TypeId)
    requires w.Sound()
  {
    OnBase(w, rs, b) && SameGroup(w, a, w.types.base(b))
  }

  lemma NativesOfTypes(w: World, cs: seq<Conversion>, rs: seq<Request>, a: TypeId, b: TypeId)
    requires Initialized(w, cs) && w.Sound() && Distinct(w) && Final(w, rs, a).Some? && Final(w, rs, b).Some?
    ensures var ta, tb := Final(w, rs, a).value, Final(w, rs, b).value;
      && AliasedShape(ta) && AliasedShape(tb)
      && (Under(ta.parent, tb.parent) <==> SameGroup(w, a, b) || Above(w, rs, a, b))
  {
    TagsOfGroups(w, cs, rs, a, b);
    NativeUnder(w, rs, a, b);
    if OnBase(w, rs, b) {
      OnOwnBase(w, cs, rs, b);
      TagsOfGroups(w, cs, rs, a, w.types.base(b));
    }
  }

  /**
   If no two types have the same name and size, aliasing is a matter of types: exactly which two answers may alias, in
   terms of groups and base types.
   */
  lemma AliasByType(w: World, cs: seq<Conversion>, rs: seq<Request>, i: nat, j: nat)
    requires Initialized(w, cs) && w.Sound() && Distinct(w)
    requires i < |rs| && j < |rs| && i != j && Answer(w, rs, i).Some? && Answer(w, rs, j).Some?
    ensures var a, b, ki, kj := rs[i].te, rs[j].te, rs[i].kind, rs[j].kind;
      MayAlias(Answer(w, rs, i).value, Answer(w, rs, j).value) <==>
        || (SameGroup(w, a, b) && (ki.Native? || kj.Native? || (ki.ForAliased? && !kj.Unique?) || (kj.ForAliased? && !ki.Unique?)))
        || (ki.Native? && Above(w, rs, a, b)) || (kj.Native? && Above(w, rs, b, a))
  {
    AliasExactly(w, rs, i, j);
    TagsOfGroups(w, cs, rs, rs[i].te, rs[j].te);
    NativesOfTypes(w, cs, rs, rs[i].te, rs[j].te);
    NativesOfTypes(w, cs, rs, rs[j].te, rs[i].te);
  }

  /** Where all conversions link types that are alike, no type goes without a tag on their account. */
  lemma AlikeGetTags(w: World, cs: seq<Conversion>, rs: seq<Request>, i: nat)
    requires Initialized(w, cs) && w.Sound() && i < |rs| && forall c :: c in cs ==> !Odd(w.types, c.source, c.target)
    requires !w.Off(rs[i].te) && w.Carries(rs[i].te)
    ensures Answer(w, rs, i).Some?
  {
    AnswerExactly(w, rs, i);
    if w.Group(rs[i].te) != 0 {
      AlikeStaysValid(w.types, cs, rs[i].te);
    }
  }
}
