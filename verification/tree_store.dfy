/** The store itself: a list of items indexed three ways (by id, parent by
    id, children ids by parent), kept in step by every write. */
module Store {
  import opened Wrappers
  import opened Seqs
  import opened Items
  import opened Forest
  import opened Index

  /** Pushes the values of more onto the stack one by one, in order. */
  method PushAll<T>(stack: seq<T>, more: seq<T>) returns (r: seq<T>)
    ensures r == stack + more
  {
    r := stack;
    for i := 0 to |more|
      invariant r == stack + more[..i]
    {
      r := r + [more[i]];
    }
    assert more[..|more|] == more;
  }

  /** Appends x to the children list of p, creating the list when it is
      missing (`get(p)`, then `push` or `set(p, [x])`). */
  method AppendChild<Id(==)>(c: map<Option<Id>, seq<Id>>, p: Option<Id>, x: Id) returns (c': map<Option<Id>, seq<Id>>)
    ensures c' == c[p := ChildList(c, p) + [x]]
  {
    if p in c {
      c' := c[p := c[p] + [x]];
    } else {
      c' := c[p := [x]];
      assert [x] == [] + [x];
    }
  }

  /** The loop of the constructor: each item in turn is registered under its
      id, its parent is recorded, and its id is appended to its parent's
      children list. */
  method BuildIndexes<Id(==), P>(input: seq<Item<Id, P>>)
    returns (b: map<Id, Item<Id, P>>, pm: map<Id, Option<Id>>, cbp: map<Option<Id>, seq<Id>>)
    ensures b == ByIdOf(input) && pm == ParentMapOf(input) && cbp == ChildIndex(input)
  {
    b, pm, cbp := map[], map[], map[];
    for i := 0 to |input|
      invariant b == ByIdOf(input[..i])
      invariant pm == ParentMapOf(input[..i])
      invariant cbp == ChildIndex(input[..i])
    {
      var it := input[i];
      assert input[..i + 1][..i] == input[..i];
      assert input[..i + 1][i] == it;
      b := b[it.id := it];
      pm := pm[it.id := it.parent];
      cbp := AppendChild(cbp, it.parent, it.id);
    }
    assert input[..|input|] == input;
  }

  /** Splices x out of the children list of p at the position indexOf finds,
      when that list is present; the other lists are untouched. In a
      duplicate-free list this filters x out. */
  method SpliceOut<Id(==)>(c: map<Option<Id>, seq<Id>>, p: Option<Id>, x: Id) returns (c': map<Option<Id>, seq<Id>>)
    requires p in c ==> NoDup(c[p])
    ensures c' == if p in c then c[p := Without(c[p], {x})] else c
  {
    c' := c;
    if p in c {
      var arr := c[p];
      var pos := IndexOf(arr, x);
      if pos != -1 {
        SpliceIsWithout(arr, pos);
        c' := c[p := arr[..pos] + arr[pos + 1..]];
      } else {
        WithoutAbsent(arr, {x});
      }
    }
  }

  /** The children-index half of `updateItem`: when the parent changes, x
      is spliced out of the old parent's list and appended to the new
      parent's list. */
  method MoveChild<Id(==)>(c: map<Option<Id>, seq<Id>>, x: Id, oldParent: Option<Id>, newParent: Option<Id>)
    returns (c': map<Option<Id>, seq<Id>>)
    requires oldParent in c ==> NoDup(c[oldParent])
    ensures c' == Reparented(c, x, oldParent, newParent)
  {
    c' := c;
    if oldParent != newParent {
      c' := SpliceOut(c', oldParent, x);
      assert ChildList(c', newParent) == ChildList(c, newParent);
      c' := AppendChild(c', newParent, x);
    }
  }

  /** The walk of `getAllParents` over the indexes: emit the item of the
      current id and move to its parent, until the root or an id without an
      item. The items come out along the chain from id to the root. */
  method ItemsAbove<Id, P>(byId: map<Id, Item<Id, P>>, pm: map<Id, Option<Id>>, ghost rank: map<Id, nat>, id: Id)
    returns (path: seq<Item<Id, P>>)
    requires Ranked(pm, rank)
    requires pm.Keys == byId.Keys && forall y | y in byId :: byId[y].id == y
    ensures Ids(path) == Path(pm, rank, id)
    ensures forall x | x in path :: x.id in byId && byId[x.id] == x
  {
    path := [];
    var cur: Option<Id> := Some(id);
    while cur.Some?
      invariant Ids(path) + (if cur.Some? then Path(pm, rank, cur.value) else []) == Path(pm, rank, id)
      invariant forall x | x in path :: x.id in byId && byId[x.id] == x
      decreases if cur.Some? && cur.value in rank then rank[cur.value] + 1 else 0
    {
      var c := cur.value;
      if c !in byId {
        assert Path(pm, rank, c) == [];
        break;
      }
      var node := byId[c];
      ghost var before := Ids(path);
      IdsAppend(path, [node]);
      path := path + [node];
      cur := if c in pm then pm[c] else None;
      ghost var rest := if cur.Some? then Path(pm, rank, cur.value) else [];
      assert Path(pm, rank, c) == [c] + rest;
      assert Ids(path) == before + [c];
      AppendAssoc(before, [c], rest);
      assert cur.Some? && cur.value in rank ==> rank[cur.value] < rank[c];
    }
  }

  /** The work of `updateItem` on the store's item list and indexes, for a
      merged item m whose id is present: m replaces the item with its id in
      the list (at the position findIndex gives) and in both maps, and the
      children index moves the id when the parent changes. The result
      agrees with itself. */
  method ReplaceItem<Id(==), P>(items: seq<Item<Id, P>>, byId: map<Id, Item<Id, P>>, pm: map<Id, Option<Id>>,
                                cbp: map<Option<Id>, seq<Id>>, m: Item<Id, P>)
    returns (items': seq<Item<Id, P>>, byId': map<Id, Item<Id, P>>, pm': map<Id, Option<Id>>,
             cbp': map<Option<Id>, seq<Id>>)
    requires Indexed(items, byId, pm, cbp) && m.id in byId
    ensures |items'| == |items|
    ensures forall k | 0 <= k < |items| :: items'[k] == if items[k].id == m.id then m else items[k]
    ensures byId' == byId[m.id := m] && pm' == pm[m.id := m.parent]
    ensures cbp' == Reparented(cbp, m.id, byId[m.id].parent, m.parent)
    ensures Indexed(items', byId', pm', cbp')
  {
    var oldParent := byId[m.id].parent;
    var idx := IndexOf(Ids(items), m.id);
    UpdateIndexed(items, byId, pm, cbp, idx, m);
    items' := items;
    if idx != -1 {
      items' := items[idx := m];
    }
    forall k | 0 <= k < |items| ensures items'[k] == if items[k].id == m.id then m else items[k] {
      if k != idx {
        assert Ids(items)[k] != Ids(items)[idx];
      }
    }
    byId' := byId[m.id := m];
    pm' := pm[m.id := m.parent];
    ChildListExact(byId, cbp, oldParent);
    cbp' := MoveChild(cbp, m.id, oldParent, m.parent);
  }

  /** The walk of `getAllChildren` over the indexes: pop an id, skip it when
      it has no item, otherwise emit its item and push its children. The
      items below id come out each once, in pre-order. */
  method ItemsBelow<Id(!new), P>(byId: map<Id, Item<Id, P>>, cbp: map<Option<Id>, seq<Id>>,
                           ghost pm: map<Id, Option<Id>>, ghost rank: map<Id, nat>, id: Id)
    returns (result: seq<Item<Id, P>>)
    requires Ranked(pm, rank) && ListsKids(pm, cbp)
    requires pm.Keys == byId.Keys && forall y | y in byId :: byId[y].id == y
    ensures NoDup(Ids(result))
    ensures Elems(Ids(result)) == Descendants(pm, rank, id)
    ensures forall x | x in result :: x.id in byId && byId[x.id] == x
    ensures PreOrder(pm, id, Ids(result))
  {
    result := [];
    ghost var done: seq<Id> := [];
    var stack := ChildList(cbp, Some(id));
    WalkStart(pm, rank, id, stack);
    while stack != []
      invariant WalkInv(pm, rank, id, stack, done)
      invariant Ids(result) == done
      invariant forall x | x in result :: x.id in byId && byId[x.id] == x
      invariant PreOrder(pm, id, done)
      invariant |done| <= |pm|
      decreases |pm| - |done|, |stack|
    {
      ghost var stack0 := stack;
      var cur := stack[|stack| - 1];
      stack := stack[..|stack| - 1];
      if cur in byId {
        var node := byId[cur];
        var children := ChildList(cbp, Some(cur));
        WalkStep(pm, rank, id, stack0, done, children);
        PreOrderStep(pm, rank, id, stack0, done);
        IdsAppend(result, [node]);
        result := result + [node];
        done := done + [cur];
        stack := PushAll(stack, children);
      }
    }
    WalkDone(pm, rank, id, done);
  }

  /** The first phase of `removeItem`: id, then every id below it, each
      once, collected by the same depth-first walk as `getAllChildren`
      (without its check that a popped id has an item). */
  method CollectSubtree<Id(!new)>(cbp: map<Option<Id>, seq<Id>>, ghost pm: map<Id, Option<Id>>, ghost rank: map<Id, nat>, id: Id)
    returns (toDelete: seq<Id>)
    requires Ranked(pm, rank) && ListsKids(pm, cbp)
    ensures toDelete != [] && toDelete[0] == id && NoDup(toDelete)
    ensures Elems(toDelete) == {id} + Descendants(pm, rank, id)
    ensures PreOrder(pm, id, toDelete[1..])
  {
    toDelete := [id];
    ghost var done: seq<Id> := [];
    var stack := ChildList(cbp, Some(id));
    WalkStart(pm, rank, id, stack);
    while stack != []
      invariant WalkInv(pm, rank, id, stack, done)
      invariant toDelete == [id] + done
      invariant PreOrder(pm, id, done)
      invariant |done| <= |pm|
      decreases |pm| - |done|
    {
      ghost var stack0 := stack;
      var cur := stack[|stack| - 1];
      stack := stack[..|stack| - 1];
      AppendAssoc([id], done, [cur]);
      toDelete := toDelete + [cur];
      var ch := ChildList(cbp, Some(cur));
      WalkStep(pm, rank, id, stack0, done, ch);
      PreOrderStep(pm, rank, id, stack0, done);
      done := done + [cur];
      stack := PushAll(stack, ch);
    }
    WalkDoneWithRoot(pm, rank, id, done);
    assert toDelete[1..] == done;
  }

  /** The second phase of `removeItem`: for each collected id in turn, it
      is spliced out of its parent's children list (when that list is
      still there and holds it) and dropped from the identity, parent and
      children indexes. */
  method DeleteAll<Id(==), P>(byId: map<Id, Item<Id, P>>, pm: map<Id, Option<Id>>, cbp: map<Option<Id>, seq<Id>>,
                          toDelete: seq<Id>)
    returns (byId': map<Id, Item<Id, P>>, pm': map<Id, Option<Id>>, cbp': map<Option<Id>, seq<Id>>)
    requires ChildrenIndexed(byId, cbp) && ParentsIndexed(byId, pm)
    requires NoDup(toDelete) && Elems(toDelete) <= byId.Keys
    ensures byId' == byId - Elems(toDelete)
    ensures pm' == pm - Elems(toDelete)
    ensures cbp' == Prune(cbp, Elems(toDelete))
  {
    hide Prune, ChildrenIndexed;
    byId', pm', cbp' := byId, pm, cbp;
    ghost var gone: set<Id> := {};
    PruneNothing(cbp);
    for j := 0 to |toDelete|
      invariant gone == Elems(toDelete[..j])
      invariant byId' == byId - gone
      invariant pm' == pm - gone
      invariant cbp' == Prune(cbp, gone)
    {
      var delId := toDelete[j];
      PrefixStep(toDelete, j);
      PruneStep(byId, cbp, gone, delId);
      var parent := if delId in pm' then pm'[delId] else None;
      assert parent == byId[delId].parent;
      if parent in cbp' {
        PrunedNoDup(byId, cbp, gone, parent);
      }
      cbp' := SpliceOut(cbp', parent, delId);
      RemoveKeysStep(byId, gone, delId);
      RemoveKeysStep(pm, gone, delId);
      byId' := byId' - {delId};
      pm' := pm' - {delId};
      cbp' := cbp' - {Some(delId)};
      gone := gone + {delId};
    }
    assert toDelete[..|toDelete|] == toDelete;
    assert gone == Elems(toDelete);
  }

  /** The work of `removeItem` on the store's item list and indexes, for an
      id that is present: collect the id and everything below it, filter
      them out of the list and delete them from the indexes. The result
      agrees with itself and stays ranked without the removed ids. */
  method RemoveSubtreeFrom<Id(!new), P>(items: seq<Item<Id, P>>, byId: map<Id, Item<Id, P>>, pm: map<Id, Option<Id>>,
                                        cbp: map<Option<Id>, seq<Id>>, ghost rank: map<Id, nat>, id: Id)
    returns (toDelete: seq<Id>, items': seq<Item<Id, P>>, byId': map<Id, Item<Id, P>>, pm': map<Id, Option<Id>>,
             cbp': map<Option<Id>, seq<Id>>)
    requires Indexed(items, byId, pm, cbp) && Ranked(pm, rank) && id in byId
    ensures toDelete != [] && toDelete[0] == id && NoDup(toDelete)
    ensures Elems(toDelete) == {id} + Descendants(pm, rank, id)
    ensures PreOrder(pm, id, toDelete[1..])
    ensures items' == Survivors(items, Elems(toDelete))
    ensures byId' == byId - Elems(toDelete) && pm' == pm - Elems(toDelete)
    ensures cbp' == Prune(cbp, Elems(toDelete))
    ensures Indexed(items', byId', pm', cbp') && Ranked(pm', rank - Elems(toDelete))
  {
    IndexedListsKids(byId, pm, cbp);
    toDelete := CollectSubtree(cbp, pm, rank, id);
    var delSet := Elems(toDelete);
    RemoveSubtree(items, byId, pm, cbp, rank, id, delSet);
    items' := Survivors(items, delSet);
    byId', pm', cbp' := DeleteAll(byId, pm, cbp, toDelete);
  }

  class TreeStore<Id(==,!new), P> {
    /** The items in insertion order (what `getAll` hands out). */
    var items: seq<Item<Id, P>>
    /** Identity index: id to item. */
    var byId: map<Id, Item<Id, P>>
    /** Parent index: id to normalised parent. */
    var parentById: map<Id, Option<Id>>
    /** Children index: parent (None for the root) to the ids listed under it. */
    var childrenByParent: map<Option<Id>, seq<Id>>
    /** A ranking witnessing that the parent relation has no cycle. */
    ghost var rank: map<Id, nat>

    /** The indexes agree with the item list. */
    ghost predicate Indexed()
      reads this
    {
      Index.Indexed(items, byId, parentById, childrenByParent)
    }

    /** The indexes agree and the parent relation is acyclic, which the
        traversals need to terminate. */
    ghost predicate Valid()
      reads this
    {
      Indexed() && Ranked(parentById, rank)
    }

    /** Copies the list and builds the three indexes in one pass over it.
        Distinct ids give agreeing indexes; an acyclic parent relation on
        top of that gives a valid store. Every children list follows input
        order. */
    constructor(input: seq<Item<Id, P>>)
      ensures items == input
      ensures byId == ByIdOf(input) && parentById == ParentMapOf(input) && childrenByParent == ChildIndex(input)
      ensures forall p :: ChildList(childrenByParent, p) == Ids(WithParent(input, p))
      ensures NoDup(Ids(input)) ==> Indexed()
      ensures NoDup(Ids(input)) && Acyclic(ParentMapOf(input)) ==> Valid()
    {
      hide Index.Indexed, Ranked, ByIdOf, ParentMapOf, ChildIndex, WithParent, Ids, NoDup;
      var b, pm, cbp := BuildIndexes(input);
      items := input;
      byId := b;
      parentById := pm;
      childrenByParent := cbp;
      forall p ensures ChildList(cbp, p) == Ids(WithParent(input, p)) {
        ChildIndexInInputOrder(input, p);
      }
      if NoDup(Ids(input)) {
        BuildIndexed(input);
      }
      if NoDup(Ids(input)) && Acyclic(ParentMapOf(input)) {
        ghost var r :| Ranked(ParentMapOf(input), r);
        rank := r;
      } else {
        rank := map[];
      }
    }

    /** `getAll`: the item list, holding one item per registered id, each the
        identity index's entry for its id. */
    function GetAll(): (r: seq<Item<Id, P>>)
      reads this
      ensures Indexed() ==>
        && NoDup(Ids(r))
        && Elems(Ids(r)) == byId.Keys
        && (forall x | x in r :: x.id in byId && byId[x.id] == x)
    {
      items
    }

    /** `getChildren`: the direct children of id, in the order of its
        children list; exactly the registered items whose parent is id. */
    function GetChildren(id: Id): (r: seq<Item<Id, P>>)
      reads this
      ensures Indexed() ==>
        && Ids(r) == ChildList(childrenByParent, Some(id))
        && (forall x | x in r :: x.id in byId && byId[x.id] == x && x.parent == Some(id))
        && (forall c | c in byId && byId[c].parent == Some(id) :: c in Ids(r))
    {
      Resolve(ChildList(childrenByParent, Some(id)), byId)
    }

    /** `getAllChildren`: every item strictly below id, each once, in
        depth-first pre-order: an item comes after its parent unless that
        parent is id itself. */
    method GetAllChildren(id: Id) returns (result: seq<Item<Id, P>>)
      requires Valid()
      ensures NoDup(Ids(result))
      ensures Elems(Ids(result)) == Descendants(parentById, rank, id)
      ensures forall x | x in result :: x.id in byId && byId[x.id] == x
      ensures PreOrder(parentById, id, Ids(result))
      ensures id !in Ids(result)
    {
      IndexedListsKids(byId, parentById, childrenByParent);
      result := ItemsBelow(byId, childrenByParent, parentById, rank, id);
      NotOwnDescendant(parentById, rank, id);
    }

    /** `getAllParents`: the item of id, then the item of its parent, and so
        on up to the root or to the first parent id that has no item. */
    method GetAllParents(id: Id) returns (path: seq<Item<Id, P>>)
      requires Valid()
      ensures Ids(path) == Path(parentById, rank, id)
      ensures forall x | x in path :: x.id in byId && byId[x.id] == x
    {
      path := ItemsAbove(byId, parentById, rank, id);
    }

    /** `addItem`: an id already present fails and changes nothing; otherwise
        the item is appended to the list, entered in both maps and appended
        to its parent's children list. The indexes stay in agreement, and the
        store stays valid unless the new parent link closes a cycle. */
    method AddItem(item: Item<Id, P>) returns (r: Result<Item<Id, P>, Error<Id>>)
      requires Indexed()
      modifies this
      ensures Indexed()
      ensures old(item.id in byId) ==> r == Failure(DuplicateKey(item.id)) && unchanged(this)
      ensures old(item.id !in byId) ==>
        && r == Success(item)
        && items == old(items) + [item]
        && byId == old(byId)[item.id := item]
        && parentById == old(parentById)[item.id := item.parent]
        && childrenByParent == old(childrenByParent)[item.parent := ChildList(old(childrenByParent), item.parent) + [item.id]]
      ensures old(Valid()) && !(item.id !in old(byId) && ClosesCycle(old(parentById), old(rank), item.id, item.parent)) ==> Valid()
    {
      hide Index.Indexed, Ranked, ClosesCycle;
      var id := item.id;
      if id in byId {
        return Failure(DuplicateKey(id));
      }
      ghost var wasValid := Valid();
      ghost var items0, byId0, pm0, cbp0, rank0 := items, byId, parentById, childrenByParent, rank;
      items := items + [item];
      byId := byId[id := item];
      var parent := item.parent;
      parentById := parentById[id := parent];
      childrenByParent := AppendChild(childrenByParent, parent, id);
      AddIndexed(items0, byId0, pm0, cbp0, item);
      assert Indexed();
      if wasValid && !ClosesCycle(pm0, rank0, id, parent) {
        rank := ReparentStaysAcyclic(pm0, rank0, id, parent);
      }
      r := Success(item);
    }

    /** `updateItem`: an id not present fails and changes nothing; otherwise
        the patch is merged into the item, which replaces the old one in the
        list and in both maps, and when its parent changes the id leaves the
        old parent's list and is appended to the new one's. The indexes stay
        in agreement, and the store stays valid unless the new parent link
        closes a cycle. */
    method UpdateItem(patch: Patch<Id, P>) returns (r: Result<Item<Id, P>, Error<Id>>)
      requires Indexed()
      modifies this
      ensures Indexed()
      ensures old(patch.id !in byId) ==> r == Failure(NotFound(patch.id)) && unchanged(this)
      ensures old(patch.id in byId) ==>
        var m := Merge(old(byId)[patch.id], patch);
        && r == Success(m)
        && |items| == |old(items)|
        && (forall k | 0 <= k < |items| :: items[k] == if old(items)[k].id == patch.id then m else old(items)[k])
        && byId == old(byId)[patch.id := m]
        && parentById == old(parentById)[patch.id := m.parent]
        && childrenByParent == Reparented(old(childrenByParent), patch.id, old(byId)[patch.id].parent, m.parent)
      ensures old(Valid()) && !(patch.id in old(byId) && ClosesCycle(old(parentById), old(rank), patch.id, Merge(old(byId)[patch.id], patch).parent)) ==> Valid()
    {
      hide Index.Indexed, Ranked, Reparented, ClosesCycle;
      if patch.id !in byId {
        return Failure(NotFound(patch.id));
      }
      var updated := Merge(byId[patch.id], patch);
      ghost var wasValid := Valid();
      ghost var pm0, rank0 := parentById, rank;
      items, byId, parentById, childrenByParent := ReplaceItem(items, byId, parentById, childrenByParent, updated);
      if wasValid && !ClosesCycle(pm0, rank0, updated.id, updated.parent) {
        rank := ReparentStaysAcyclic(pm0, rank0, updated.id, updated.parent);
      }
      r := Success(updated);
    }

    /** `removeItem`: an id not present gives [] and changes nothing;
        otherwise the id and everything below it are collected (the id
        first, each once) and deleted from the list and all three indexes,
        and the collected ids are returned. The store stays valid. */
    method RemoveItem(id: Id) returns (toDelete: seq<Id>)
      requires Valid()
      modifies this
      ensures Valid()
      ensures old(id !in byId) ==> toDelete == [] && unchanged(this)
      ensures old(id in byId) ==>
        && toDelete != [] && toDelete[0] == id && NoDup(toDelete)
        && Elems(toDelete) == {id} + Descendants(old(parentById), old(rank), id)
        && PreOrder(old(parentById), id, toDelete[1..])
        && items == Survivors(old(items), Elems(toDelete))
        && byId == old(byId) - Elems(toDelete)
        && parentById == old(parentById) - Elems(toDelete)
        && childrenByParent == Prune(old(childrenByParent), Elems(toDelete))
    {
      hide Index.Indexed, Ranked, NoDup, Elems, Survivors, Prune, Descendants;
      if id !in byId {
        return [];
      }
      var it, b, pm, cbp;
      toDelete, it, b, pm, cbp := RemoveSubtreeFrom(items, byId, parentById, childrenByParent, rank, id);
      items, byId, parentById, childrenByParent, rank := it, b, pm, cbp, rank - Elems(toDelete);
    }
  }
}
