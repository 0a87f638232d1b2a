/** The tags as the program makes and saves them, against the functions of TypeTags. */
module TagTable {
  import opened Wrappers
  import opened UcGroups
  import opened Tags
  import opened TypeTags

  class TbaaTable {
    const w: World
    var saved: map<TypeId, Tag>
    var nameIdx: nat

    ghost predicate Valid()
      reads this
    {
      w.Sound() && NoRoots(Current())
    }

    function Current(): State
      reads this
    {
      State(saved, nameIdx)
    }

    constructor (w: World)
      requires w.Sound()
      ensures Valid() && this.w == w && Current() == State(map[], 0)
    {
      this.w := w;
      saved := map[];
      nameIdx := 0;
    }

    method GetTbaaName(kind: Kind, te: TypeId) returns (name: string)
      modifies this`nameIdx
      ensures name == NameOf(w, kind, te, old(nameIdx))
      ensures nameIdx == old(nameIdx) + (if kind.IsUnique() then 1 else 0)
    {
      name := w.chars(te);
      if w.standardInteger(te) {
        name := name + "B";
      }
      ghost var stem := name;
      match kind
      case Native => name := name + "#TN";
      case ForAliased => {}
      case Unique | UniqueAliased =>
        name := name + "#T";
        name := name + Decimal(nameIdx);
        assert name == stem + ("#T" + Decimal(nameIdx));
        nameIdx := nameIdx + 1;
    }

    /** Create_TBAA_Type; without a parent it asks for the native tag of the base type first. */
    method CreateTbaaType(te: TypeId, kind: Kind, parent: Option<Tag>) returns (tag: Option<Tag>)
      requires Valid()
      modifies this
      ensures Valid()
      ensures parent.Some? ==> (Current(), tag) == Create(w, old(Current()), te, kind, parent.value)
      ensures parent.None? ==>
        var p := Parent(w, old(Current()), te); (Current(), tag) == Create(w, p.0, te, kind, p.1)
      decreases parent.None?, !w.types.IsBase(te), 0
    {
      var ourParent := Root;
      if parent.Some? {
        ourParent := parent.value;
      } else {
        var base := w.types.base(te);
        if base != te {
          assert w.types.base(base) == base;
          var inner := GetTbaaType(base, Native);
          if inner.Some? {
            ourParent := inner.value;
          }
        }
      }
      if w.nonnative(te) || w.accessSubprogram(te) {
        return None;
      }
      var name := GetTbaaName(kind, te);
      return Some(Scalar(ourParent, w.bytes(te), name));
    }

    /** The loop over the UC table; wasValid tells whether it came to the end. */
    method SearchGroup(group: nat) returns (tag: Option<Tag>, wasValid: bool)
      ensures wasValid == !Invalid(w.table.uc, group)
      ensures wasValid ==> tag == FirstSaved(w.table.uc, group, saved)
    {
      tag, wasValid := None, true;
      var uc := w.table.uc;
      assert uc[0..] == uc;
      for j := 0 to |uc|
        invariant forall i :: 0 <= i < j && uc[i].group == group ==> uc[i].valid
        invariant FirstSaved(uc, group, saved) == if tag.Some? then tag else FirstSaved(uc[j..], group, saved)
      {
        assert uc[j..][0] == uc[j] && uc[j..][1..] == uc[j + 1..];
        if uc[j].group == group && uc[j].te in saved && tag.None? {
          tag := Some(saved[uc[j].te]);
        }
        if uc[j].group == group && !uc[j].valid {
          return None, false;
        }
      }
    }

    /** Get_TBAA_Type. */
    method GetTbaaType(te: TypeId, kind: Kind) returns (tag: Option<Tag>)
      requires Valid()
      modifies this
      ensures Valid()
      ensures (Current(), tag) == Get(w, old(Current()), te, kind)
      decreases true, !w.types.IsBase(te), 1
    {
      var group := w.Group(te);
      var aliased := if te in saved then Some(saved[te]) else None;
      var native := Root;
      FoundIsTag(w, Current(), te);
      if w.Off(te) {
        return None;
      } else if aliased.None? && group != 0 {
        var wasValid;
        aliased, wasValid := SearchGroup(group);
        if !wasValid {
          return None;
        }
      }
      if aliased.Some? {
        native := aliased.value.parent;
      } else {
        var created := CreateTbaaType(te, Native, None);
        if created.None? {
          return None;
        }
        native := created.value;
        aliased := CreateTbaaType(te, ForAliased, Some(native));
        saved := saved[te := aliased.value];
      }
      match kind
      case Native => tag := Some(native);
      case ForAliased => tag := aliased;
      case Unique => tag := CreateTbaaType(te, Unique, Some(native));
      case UniqueAliased => tag := CreateTbaaType(te, UniqueAliased, aliased);
    }
  }
}
