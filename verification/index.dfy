/** The invariant that ties the store's four structures together, stated on
    values, and the lemmas that each write operation keeps it. */
module Index {
  import opened Wrappers
  import opened Seqs
  import opened Items
  import opened Forest

  /** Ids in the item list are distinct and are exactly the keys of the
      identity index, each mapped to its own item. */
  ghost predicate ItemsIndexed<Id, P>(items: seq<Item<Id, P>>, byId: map<Id, Item<Id, P>>)
  {
    && NoDup(Ids(items))
    && byId.Keys == Elems(Ids(items))
    && (forall x | x in items :: x.id in byId && byId[x.id] == x)
    && (forall y | y in byId :: byId[y].id == y)
  }

  /** The parent index holds each registered item's normalised parent. */
  ghost predicate ParentsIndexed<Id, P>(byId: map<Id, Item<Id, P>>, pm: map<Id, Option<Id>>)
  {
    && pm.Keys == byId.Keys
    && (forall y | y in byId :: pm[y] == byId[y].parent)
  }

  /** Every registered id is listed under its parent, no list repeats an id,
      and every listed id is registered with that parent: each id appears
      exactly once in its parent's list and in no other list. */
  ghost predicate ChildrenIndexed<Id, P>(byId: map<Id, Item<Id, P>>, cbp: map<Option<Id>, seq<Id>>)
  {
    && (forall y | y in byId :: byId[y].parent in cbp && y in cbp[byId[y].parent])
    && (forall p | p in cbp :: NoDup(cbp[p]))
    && (forall p, c | p in cbp && c in cbp[p] :: c in byId && byId[c].parent == p)
  }

  /** The store's invariant: the identity, parent and children indexes all
      agree with the item list. */
  ghost predicate Indexed<Id, P>(items: seq<Item<Id, P>>, byId: map<Id, Item<Id, P>>, pm: map<Id, Option<Id>>,
                                 cbp: map<Option<Id>, seq<Id>>)
  {
    && ItemsIndexed(items, byId)
    && ParentsIndexed(byId, pm)
    && ChildrenIndexed(byId, cbp)
  }

  /** The children index after moving x from parent oldP to parent newP: x
      leaves the old list and is appended to the new one, created when
      missing. When the parent does not change, nothing moves. */
  ghost function Reparented<Id>(cbp: map<Option<Id>, seq<Id>>, x: Id, oldP: Option<Id>, newP: Option<Id>): map<Option<Id>, seq<Id>>
  {
    if oldP == newP then cbp
    else
      var c := if oldP in cbp then cbp[oldP := Without(cbp[oldP], {x})] else cbp;
      c[newP := ChildList(cbp, newP) + [x]]
  }

  /** What a move does to the children lists: with no parent change nothing
      moves; otherwise x is gone from the old parent's list, the others of
      that list stay in order, x is last in the new parent's list after its
      previous members, and every other list is untouched. */
  lemma ReparentedMoves<Id>(cbp: map<Option<Id>, seq<Id>>, x: Id, oldP: Option<Id>, newP: Option<Id>, p: Option<Id>)
    requires oldP in cbp ==> NoDup(cbp[oldP])
    ensures oldP == newP ==> Reparented(cbp, x, oldP, newP) == cbp
    ensures oldP != newP ==>
      var r := Reparented(cbp, x, oldP, newP);
      && ChildList(r, newP) == ChildList(cbp, newP) + [x]
      && (oldP in cbp ==> oldP in r && x !in r[oldP] && r[oldP] == Without(cbp[oldP], {x}))
      && (p != oldP && p != newP ==> ChildList(r, p) == ChildList(cbp, p))
  {
    if oldP != newP && oldP in cbp {
      Kept(cbp[oldP], {x}, x);
    }
  }

  /** The children index after deleting the ids in d: their own entries go,
      and they are filtered out of every remaining list. */
  ghost function Prune<Id>(cbp: map<Option<Id>, seq<Id>>, d: set<Id>): map<Option<Id>, seq<Id>>
  {
    map k | k in cbp && !(k.Some? && k.value in d) :: Without(cbp[k], d)
  }

  /** A parent's children list is duplicate free and lists exactly the
      registered ids that have that parent. */
  lemma ChildListExact<Id, P>(byId: map<Id, Item<Id, P>>, cbp: map<Option<Id>, seq<Id>>, p: Option<Id>)
    requires ChildrenIndexed(byId, cbp)
    ensures NoDup(ChildList(cbp, p))
    ensures forall c | c in ChildList(cbp, p) :: c in byId && byId[c].parent == p
    ensures forall c | c in byId && byId[c].parent == p :: c in ChildList(cbp, p)
  {
  }

  /** The children list of x holds exactly the kids of x in the parent relation. */
  lemma ChildListIsKids<Id, P>(byId: map<Id, Item<Id, P>>, pm: map<Id, Option<Id>>, cbp: map<Option<Id>, seq<Id>>, x: Id)
    requires ParentsIndexed(byId, pm) && ChildrenIndexed(byId, cbp)
    ensures NoDup(ChildList(cbp, Some(x)))
    ensures Elems(ChildList(cbp, Some(x))) == Kids(pm, {x})
  {
    ChildListExact(byId, cbp, Some(x));
  }

  /** Every id's children list is duplicate free and lists exactly its kids:
      what a walk down the children index relies on. */
  ghost predicate ListsKids<Id(!new)>(pm: map<Id, Option<Id>>, cbp: map<Option<Id>, seq<Id>>)
  {
    forall x :: NoDup(ChildList(cbp, Some(x))) && Elems(ChildList(cbp, Some(x))) == Kids(pm, {x})
  }

  lemma IndexedListsKids<Id(!new), P>(byId: map<Id, Item<Id, P>>, pm: map<Id, Option<Id>>, cbp: map<Option<Id>, seq<Id>>)
    requires ParentsIndexed(byId, pm) && ChildrenIndexed(byId, cbp)
    ensures ListsKids(pm, cbp)
  {
    forall x ensures NoDup(ChildList(cbp, Some(x))) && Elems(ChildList(cbp, Some(x))) == Kids(pm, {x}) {
      ChildListIsKids(byId, pm, cbp, x);
    }
  }

  /** The store holds as many items as ids. */
  lemma ItemCount<Id, P>(items: seq<Item<Id, P>>, byId: map<Id, Item<Id, P>>)
    requires ItemsIndexed(items, byId)
    ensures |byId| == |items|
  {
    NoDupCard(Ids(items));
    assert |byId| == |byId.Keys|;
  }

  lemma AddItems<Id, P>(items: seq<Item<Id, P>>, byId: map<Id, Item<Id, P>>, x: Item<Id, P>)
    requires ItemsIndexed(items, byId) && x.id !in byId
    ensures ItemsIndexed(items + [x], byId[x.id := x])
  {
    IdsAppend(items, [x]);
    assert Ids(items + [x]) == Ids(items) + [x.id];
    NoDupAppend(Ids(items), [x.id]);
    assert Elems(Ids(items + [x])) == Elems(Ids(items)) + {x.id};
  }

  lemma AddChildren<Id, P>(byId: map<Id, Item<Id, P>>, cbp: map<Option<Id>, seq<Id>>, x: Item<Id, P>)
    requires ChildrenIndexed(byId, cbp) && x.id !in byId
    ensures ChildrenIndexed(byId[x.id := x], cbp[x.parent := ChildList(cbp, x.parent) + [x.id]])
  {
    var byId', cbp' := byId[x.id := x], cbp[x.parent := ChildList(cbp, x.parent) + [x.id]];
    ChildListExact(byId, cbp, x.parent);
    NoDupAppend(ChildList(cbp, x.parent), [x.id]);
    forall p, c | p in cbp' && c in cbp'[p] ensures c in byId' && byId'[c].parent == p {
      if p == x.parent && c != x.id {
        assert c in ChildList(cbp, x.parent);
      }
    }
  }

  lemma SetParent<Id, P>(byId: map<Id, Item<Id, P>>, pm: map<Id, Option<Id>>, x: Item<Id, P>)
    requires ParentsIndexed(byId, pm)
    ensures ParentsIndexed(byId[x.id := x], pm[x.id := x.parent])
  {
  }

  /** addItem keeps the indexes in agreement: the item goes at the end of the
      list, into both maps, and at the end of its parent's children list. */
  lemma AddIndexed<Id, P>(items: seq<Item<Id, P>>, byId: map<Id, Item<Id, P>>, pm: map<Id, Option<Id>>,
                          cbp: map<Option<Id>, seq<Id>>, x: Item<Id, P>)
    requires Indexed(items, byId, pm, cbp)
    requires x.id !in byId
    ensures Indexed(items + [x], byId[x.id := x], pm[x.id := x.parent],
                    cbp[x.parent := ChildList(cbp, x.parent) + [x.id]])
  {
    AddItems(items, byId, x);
    SetParent(byId, pm, x);
    AddChildren(byId, cbp, x);
  }

  lemma UpdateItems<Id, P>(items: seq<Item<Id, P>>, byId: map<Id, Item<Id, P>>, k: nat, m: Item<Id, P>)
    requires ItemsIndexed(items, byId)
    requires k < |items| && m.id == items[k].id
    ensures ItemsIndexed(items[k := m], byId[m.id := m])
  {
    var items', byId' := items[k := m], byId[m.id := m];
    assert Ids(items') == Ids(items);
    forall z | z in items' ensures z.id in byId' && byId'[z.id] == z {
      var i :| 0 <= i < |items'| && items'[i] == z;
      if i != k {
        assert Ids(items)[i] != Ids(items)[k];
      }
    }
  }

  lemma UpdateChildren<Id, P>(byId: map<Id, Item<Id, P>>, cbp: map<Option<Id>, seq<Id>>, m: Item<Id, P>)
    requires ChildrenIndexed(byId, cbp) && m.id in byId
    ensures ChildrenIndexed(byId[m.id := m], Reparented(cbp, m.id, byId[m.id].parent, m.parent))
  {
    var x, oldP, newP := m.id, byId[m.id].parent, m.parent;
    var byId', cbp' := byId[x := m], Reparented(cbp, x, oldP, newP);
    ChildListExact(byId, cbp, oldP);
    ChildListExact(byId, cbp, newP);
    if oldP != newP {
      WithoutNoDup(cbp[oldP], {x});
      NoDupAppend(ChildList(cbp, newP), [x]);
      forall y | y in byId' ensures byId'[y].parent in cbp' && y in cbp'[byId'[y].parent] {
        if y != x {
          assert y in cbp[byId[y].parent];
          if byId[y].parent == oldP {
            Kept(cbp[oldP], {x}, y);
          }
        }
      }
      forall p, c | p in cbp' && c in cbp'[p] ensures c in byId' && byId'[c].parent == p {
        if p == newP {
          if c != x {
            assert c in ChildList(cbp, newP);
          }
        } else if p == oldP {
          Kept(cbp[oldP], {x}, c);
        } else {
          assert c in cbp[p];
        }
      }
    }
  }

  /** updateItem keeps the indexes in agreement: the slot k holding the id
      gets the merged item m, both maps follow it, and the children index
      moves the id when its parent changes. */
  lemma UpdateIndexed<Id, P>(items: seq<Item<Id, P>>, byId: map<Id, Item<Id, P>>, pm: map<Id, Option<Id>>,
                             cbp: map<Option<Id>, seq<Id>>, k: nat, m: Item<Id, P>)
    requires Indexed(items, byId, pm, cbp)
    requires k < |items| && m.id == items[k].id
    ensures Indexed(items[k := m], byId[m.id := m], pm[m.id := m.parent],
                    Reparented(cbp, m.id, byId[m.id].parent, m.parent))
  {
    UpdateItems(items, byId, k, m);
    SetParent(byId, pm, m);
    UpdateChildren(byId, cbp, m);
  }

  /** Deleting one more id x leaves every list but that of x's parent as it was. */
  lemma PruneElsewhere<Id, P>(byId: map<Id, Item<Id, P>>, cbp: map<Option<Id>, seq<Id>>, done: set<Id>, x: Id, k: Option<Id>)
    requires ChildrenIndexed(byId, cbp)
    requires x in byId && k in Prune(cbp, done + {x}) && k != byId[x].parent
    ensures k in Prune(cbp, done) && Prune(cbp, done + {x})[k] == Prune(cbp, done)[k]
  {
    assert x !in cbp[k];
    WithoutExtraAbsent(cbp[k], done, x);
  }

  lemma PruneKeys<Id>(cbp: map<Option<Id>, seq<Id>>, done: set<Id>, x: Id)
    ensures Prune(cbp, done + {x}).Keys == Prune(cbp, done).Keys - {Some(x)}
  {
  }

  /** Nothing deleted is left in the children index: neither as a key nor
      in any list, and the lists that remain keep only their other ids, in
      order. */
  lemma PruneRemoves<Id>(cbp: map<Option<Id>, seq<Id>>, d: set<Id>)
    ensures forall k | k in Prune(cbp, d) :: k in cbp && !(k.Some? && k.value in d)
    ensures forall k | k in cbp && !(k.Some? && k.value in d) :: k in Prune(cbp, d)
    ensures forall k, c | k in Prune(cbp, d) && c in Prune(cbp, d)[k] :: c !in d
  {
    forall k, c | k in Prune(cbp, d) && c in Prune(cbp, d)[k] ensures c !in d {
      Kept(cbp[k], d, c);
    }
  }

  /** Pruned lists stay duplicate free. */
  lemma PrunedNoDup<Id, P>(byId: map<Id, Item<Id, P>>, cbp: map<Option<Id>, seq<Id>>, d: set<Id>, p: Option<Id>)
    requires ChildrenIndexed(byId, cbp) && p in Prune(cbp, d)
    ensures NoDup(Prune(cbp, d)[p])
  {
    WithoutNoDup(cbp[p], d);
  }

  /** Pruning no ids changes nothing. */
  lemma PruneNothing<Id>(cbp: map<Option<Id>, seq<Id>>)
    ensures Prune(cbp, {}) == cbp
  {
    forall k | k in cbp ensures Without(cbp[k], {}) == cbp[k] {
      WithoutAbsent(cbp[k], {});
    }
  }

  /** In the list of x's parent, deleting x after the ids in done filters
      x out of what was left. */
  lemma PruneAtParent<Id>(cbp: map<Option<Id>, seq<Id>>, done: set<Id>, x: Id, p: Option<Id>)
    requires p in Prune(cbp, done + {x})
    ensures p in Prune(cbp, done)
    ensures Prune(cbp, done + {x})[p] == Without(Prune(cbp, done)[p], {x})
  {
    WithoutTwice(cbp[p], done, {x});
  }

  /** One round of removeItem's deletion loop, for an id x not yet deleted
      when the ids in done are. The children index, pruned of done so far,
      becomes the index pruned of done and x: x is filtered out of its
      parent's list (unless that list was already dropped) and x's own
      entry is dropped. */
  lemma PruneStep<Id, P>(byId: map<Id, Item<Id, P>>, cbp: map<Option<Id>, seq<Id>>, done: set<Id>, x: Id)
    requires ChildrenIndexed(byId, cbp)
    requires x in byId && x !in done
    ensures var p, c := byId[x].parent, Prune(cbp, done);
      Prune(cbp, done + {x}) == (if p in c then c[p := Without(c[p], {x})] else c) - {Some(x)}
  {
    var p, c, c' := byId[x].parent, Prune(cbp, done), Prune(cbp, done + {x});
    var m := (if p in c then c[p := Without(c[p], {x})] else c) - {Some(x)};
    PruneKeys(cbp, done, x);
    assert c'.Keys == m.Keys;
    forall k | k in c' ensures c'[k] == m[k] {
      if k == p {
        PruneAtParent(cbp, done, x, p);
      } else {
        PruneElsewhere(byId, cbp, done, x, k);
        assert k != Some(x);
        if p in c {
          assert m[k] == c[p := Without(c[p], {x})][k];
        }
      }
    }
    assert c' == m;
  }

  lemma RemoveItems<Id, P>(items: seq<Item<Id, P>>, byId: map<Id, Item<Id, P>>, d: set<Id>)
    requires ItemsIndexed(items, byId)
    ensures ItemsIndexed(Survivors(items, d), byId - d)
  {
    SurvivorIds(items, d);
    SurvivorsMembers(items, d);
    WithoutNoDup(Ids(items), d);
    WithoutMembers(Ids(items), d);
    assert Elems(Ids(Survivors(items, d))) == Elems(Ids(items)) - d;
  }

  /** A value left in a pruned list was in the original list and not pruned. */
  lemma PrunedFrom<Id>(cbp: map<Option<Id>, seq<Id>>, d: set<Id>, p: Option<Id>, c: Id)
    requires p in Prune(cbp, d) && c in Prune(cbp, d)[p]
    ensures p in cbp && c in cbp[p] && c !in d
  {
    Kept(cbp[p], d, c);
  }

  lemma RemoveChildren<Id, P>(byId: map<Id, Item<Id, P>>, pm: map<Id, Option<Id>>, cbp: map<Option<Id>, seq<Id>>, d: set<Id>)
    requires ParentsIndexed(byId, pm) && ChildrenIndexed(byId, cbp)
    requires Kids(pm, d) <= d
    ensures ChildrenIndexed(byId - d, Prune(cbp, d))
  {
    var byId', cbp' := byId - d, Prune(cbp, d);
    forall y | y in byId' ensures byId'[y].parent in cbp' && y in cbp'[byId'[y].parent] {
      assert y !in Kids(pm, d);
      WithoutMembers(cbp[byId[y].parent], d);
    }
    forall p | p in cbp' ensures NoDup(cbp'[p]) {
      WithoutNoDup(cbp[p], d);
    }
    forall p, c | p in cbp' && c in cbp'[p] ensures c in byId' && byId'[c].parent == p {
      PrunedFrom(cbp, d, p, c);
    }
  }

  /** removeItem keeps the indexes in agreement when every child of a
      deleted id is deleted too. */
  lemma RemoveIndexed<Id, P>(items: seq<Item<Id, P>>, byId: map<Id, Item<Id, P>>, pm: map<Id, Option<Id>>,
                             cbp: map<Option<Id>, seq<Id>>, d: set<Id>)
    requires Indexed(items, byId, pm, cbp)
    requires Kids(pm, d) <= d
    ensures Indexed(Survivors(items, d), byId - d, pm - d, Prune(cbp, d))
  {
    RemoveItems(items, byId, d);
    RemoveChildren(byId, pm, cbp, d);
  }

  /** Removing an id together with everything below it keeps the indexes
      in agreement and the parent relation ranked. */
  lemma RemoveSubtree<Id, P>(items: seq<Item<Id, P>>, byId: map<Id, Item<Id, P>>, pm: map<Id, Option<Id>>,
                             cbp: map<Option<Id>, seq<Id>>, rank: map<Id, nat>, id: Id, d: set<Id>)
    requires Indexed(items, byId, pm, cbp) && Ranked(pm, rank) && id in byId
    requires d == {id} + Descendants(pm, rank, id)
    ensures d <= byId.Keys
    ensures Indexed(Survivors(items, d), byId - d, pm - d, Prune(cbp, d))
    ensures Ranked(pm - d, rank - d)
  {
    SubtreeClosed(pm, rank, id);
    RemoveIndexed(items, byId, pm, cbp, d);
    RankedRemove(pm, rank, d);
  }

  lemma {:induction false} BuildIndexed<Id, P>(s: seq<Item<Id, P>>)
    requires NoDup(Ids(s))
    ensures Indexed(s, ByIdOf(s), ParentMapOf(s), ChildIndex(s))
  {
    if s == [] {
      assert Ids(s) == [];
    } else {
      var n := |s| - 1;
      var front, x := s[..n], s[n];
      assert s == front + [x];
      IdsAppend(front, [x]);
      assert Ids(s) == Ids(front) + [x.id];
      NoDupAppend(Ids(front), [x.id]);
      ByIdOfKeys(front);
      BuildIndexed(front);
      AddIndexed(front, ByIdOf(front), ParentMapOf(front), ChildIndex(front), x);
    }
  }

  /** The item list fixes the identity index outright. */
  lemma ItemsDetermineById<Id, P>(items: seq<Item<Id, P>>, b1: map<Id, Item<Id, P>>, b2: map<Id, Item<Id, P>>)
    requires ItemsIndexed(items, b1) && ItemsIndexed(items, b2)
    ensures b1 == b2
  {
    forall y | y in b1 ensures b1[y] == b2[y] {
      var k :| 0 <= k < |Ids(items)| && Ids(items)[k] == y;
      assert items[k] in items;
    }
  }

  /** Two children indexes over the same identity index list the same ids
      under every parent. */
  lemma ChildSetsAgree<Id, P>(byId: map<Id, Item<Id, P>>, c1: map<Option<Id>, seq<Id>>, c2: map<Option<Id>, seq<Id>>, p: Option<Id>)
    requires ChildrenIndexed(byId, c1) && ChildrenIndexed(byId, c2)
    ensures Elems(ChildList(c1, p)) == Elems(ChildList(c2, p))
  {
    ChildListExact(byId, c1, p);
    ChildListExact(byId, c2, p);
  }

  /** The parent index built from the item list is the store's parent index. */
  lemma RebuildParents<Id, P>(items: seq<Item<Id, P>>, byId: map<Id, Item<Id, P>>, pm: map<Id, Option<Id>>)
    requires ItemsIndexed(items, byId) && ParentsIndexed(byId, pm)
    ensures ParentMapOf(items) == pm
  {
    ByIdOfKeys(items);
    ByIdOfValues(items);
    forall y | y in pm ensures ParentMapOf(items)[y] == pm[y] {
      var k :| 0 <= k < |Ids(items)| && Ids(items)[k] == y;
      assert items[k] in items;
    }
  }

  /** Rebuilding a store from its own item list gives back the same identity
      and parent indexes, and children lists with the same members; their
      order may differ, since an update appends a moved id at the end of its
      new parent's list while a rebuild lists children in item order. */
  lemma RebuildKeepsIndex<Id, P>(items: seq<Item<Id, P>>, byId: map<Id, Item<Id, P>>, pm: map<Id, Option<Id>>,
                                 cbp: map<Option<Id>, seq<Id>>)
    requires Indexed(items, byId, pm, cbp)
    ensures ByIdOf(items) == byId && ParentMapOf(items) == pm
    ensures forall p :: Elems(ChildList(ChildIndex(items), p)) == Elems(ChildList(cbp, p))
  {
    RebuildParents(items, byId, pm);
    BuildIndexed(items);
    ItemsDetermineById(items, ByIdOf(items), byId);
    forall p ensures Elems(ChildList(ChildIndex(items), p)) == Elems(ChildList(cbp, p)) {
      ChildSetsAgree(byId, ChildIndex(items), cbp, p);
    }
  }

  /** Four items, root 1 with children 2 and 3, and 4 under 2: moving 3
      under 2 appends it after 4, and leaves 2 alone under 1. Rebuilding
      the indexes from the updated item list instead lists 3 before 4, in
      item order: after an update, the children lists and a rebuild agree
      on members but not on order. */
  lemma MoveAppendsExample()
    ensures var s := [Item(1, None, "root", ()), Item(2, Some(1), "a", ()),
                      Item(3, Some(1), "b", ()), Item(4, Some(2), "c", ())];
      var c := ChildIndex(s);
      var moved := Reparented(c, 3, Some(1), Some(2));
      && ChildList(c, Some(1)) == [2, 3] && ChildList(c, Some(2)) == [4]
      && ChildList(moved, Some(1)) == [2] && ChildList(moved, Some(2)) == [4, 3]
    ensures var s := [Item(1, None, "root", ()), Item(2, Some(1), "a", ()),
                      Item(3, Some(1), "b", ()), Item(4, Some(2), "c", ())];
      var u := s[2 := Merge(s[2], Patch(3, Some(Some(2)), None, None))];
      && ChildList(ChildIndex(u), Some(1)) == [2] && ChildList(ChildIndex(u), Some(2)) == [3, 4]
  {
    var s := [Item(1, None, "root", ()), Item(2, Some(1), "a", ()),
              Item(3, Some(1), "b", ()), Item(4, Some(2), "c", ())];
    var s1, s2, s3 := s[..1], s[..2], s[..3];
    assert s1[..0] == [] && s2[..1] == s1 && s3[..2] == s2 && s[..3] == s3;
    var c1: map<Option<int>, seq<int>> := map[None := [1]];
    assert ChildIndex(s1) == c1 by {
      assert ChildIndex(s1) == map[][None := [] + [1]];
      assert [] + [1] == [1];
    }
    var c2 := c1[Some(1) := [2]];
    assert ChildIndex(s2) == c2 by {
      assert ChildIndex(s2) == c1[Some(1) := [] + [2]];
      assert [] + [2] == [2];
    }
    var c3 := c2[Some(1) := [2, 3]];
    assert ChildIndex(s3) == c3 by {
      assert ChildIndex(s3) == c2[Some(1) := [2] + [3]];
      assert [2] + [3] == [2, 3];
    }
    assert ChildIndex(s) == c3[Some(2) := [4]] by {
      assert ChildIndex(s) == c3[Some(2) := [] + [4]];
      assert [] + [4] == [4];
    }
    assert Without([2, 3], {3}) == [2] by {
      assert [2, 3][1..] == [3];
      assert [3][1..] == [];
    }
    var u := s[2 := Merge(s[2], Patch(3, Some(Some(2)), None, None))];
    assert u[2] == Item(3, Some(2), "b", ());
    var u3 := u[..3];
    assert u3[..2] == s2 && u[..3] == u3;
    var d3 := c2[Some(2) := [3]];
    assert ChildIndex(u3) == d3 by {
      assert ChildIndex(u3) == c2[Some(2) := [] + [3]];
      assert [] + [3] == [3];
    }
    assert ChildIndex(u) == d3[Some(2) := [3, 4]] by {
      assert ChildIndex(u) == d3[Some(2) := [3] + [4]];
      assert [3] + [4] == [3, 4];
    }
  }
}
