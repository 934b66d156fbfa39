/** The items the store holds and the pure operations on them: the merge
    that `updateItem` performs, the reference builds of the three indexes
    from a list (what the constructor's loop computes), the filter of
    `removeItem`, and the id lookup of `getChildren`. */
module Items {
  import opened Wrappers
  import opened Seqs

  /** An item: its id, its parent (None is the root, `null`), its label
      (`text`, since `label` is a Dafny keyword), and
      a payload standing for every further field, carried along unread. */
  datatype Item<Id, P> = Item(id: Id, parent: Option<Id>, text: string, payload: P)

  /** A partial item for `updateItem`: the id plus the fields to replace.
      `parent` is None when the update leaves the parent alone and
      Some(None) when it sets it to `null`. */
  datatype Patch<Id, P> = Patch(id: Id, parent: Option<Option<Id>>, text: Option<string>, payload: Option<P>)

  /** The two failures of the store: `addItem` of an id already present,
      `updateItem` of an id not present. */
  datatype Error<Id> = DuplicateKey(id: Id) | NotFound(id: Id)

  /** The object spread `{...existing, ...update}`: fields given in the
      patch replace, the others are kept. */
  function Merge<Id, P>(existing: Item<Id, P>, patch: Patch<Id, P>): Item<Id, P>
  {
    Item(patch.id,
         if patch.parent.Some? then patch.parent.value else existing.parent,
         if patch.text.Some? then patch.text.value else existing.text,
         if patch.payload.Some? then patch.payload.value else existing.payload)
  }

  function Ids<Id, P>(s: seq<Item<Id, P>>): seq<Id>
  {
    seq(|s|, k requires 0 <= k < |s| => s[k].id)
  }

  /** `childrenByParent.get(p) ?? []` */
  function ChildList<Id(==)>(cbp: map<Option<Id>, seq<Id>>, p: Option<Id>): seq<Id>
  {
    if p in cbp then cbp[p] else []
  }

  /** The identity index the constructor's loop builds from s: one entry per
      item, in order, a later item overwriting an earlier one with its id. */
  ghost function ByIdOf<Id, P>(s: seq<Item<Id, P>>): map<Id, Item<Id, P>>
  {
    if s == [] then map[]
    else ByIdOf(s[..|s| - 1])[s[|s| - 1].id := s[|s| - 1]]
  }

  /** The parent index the constructor's loop builds from s. */
  ghost function ParentMapOf<Id, P>(s: seq<Item<Id, P>>): map<Id, Option<Id>>
  {
    if s == [] then map[]
    else ParentMapOf(s[..|s| - 1])[s[|s| - 1].id := s[|s| - 1].parent]
  }

  /** The children index the constructor's loop builds from s: each id is
      appended to the list of its parent, the list created when missing. */
  ghost function ChildIndex<Id, P>(s: seq<Item<Id, P>>): map<Option<Id>, seq<Id>>
  {
    if s == [] then map[]
    else
      var c, x := ChildIndex(s[..|s| - 1]), s[|s| - 1];
      c[x.parent := ChildList(c, x.parent) + [x.id]]
  }

  /** The items of s whose parent is p, in the order of s. */
  ghost function WithParent<Id, P>(s: seq<Item<Id, P>>, p: Option<Id>): seq<Item<Id, P>>
  {
    if s == [] then []
    else (if s[0].parent == p then [s[0]] else []) + WithParent(s[1..], p)
  }

  /** `items.filter((it) => !delSet.has(it.id))` */
  function Survivors<Id(==), P>(s: seq<Item<Id, P>>, d: set<Id>): seq<Item<Id, P>>
  {
    if s == [] then []
    else (if s[0].id in d then [] else [s[0]]) + Survivors(s[1..], d)
  }

  /** `ids.map((cid) => byId.get(cid)!).filter(Boolean)`: look every id up
      and drop those that have no item. */
  function Resolve<Id(==), P>(ids: seq<Id>, byId: map<Id, Item<Id, P>>): (r: seq<Item<Id, P>>)
    ensures |r| <= |ids|
    ensures (forall c | c in ids :: c in byId) ==>
              |r| == |ids| && forall k | 0 <= k < |ids| :: r[k] == byId[ids[k]]
  {
    if ids == [] then []
    else
      assert ids == [ids[0]] + ids[1..];
      (if ids[0] in byId then [byId[ids[0]]] else []) + Resolve(ids[1..], byId)
  }

  /** The spread: each field the patch gives replaces the existing one, each
      field it omits is kept, and the id is the patch's. So a patch that
      gives nothing changes nothing, and applying a patch twice is applying
      it once. */
  lemma MergeOverrides<Id, P>(existing: Item<Id, P>, patch: Patch<Id, P>)
    ensures var r := Merge(existing, patch);
      && r.id == patch.id
      && (patch.parent.Some? ==> r.parent == patch.parent.value)
      && (patch.parent.None? ==> r.parent == existing.parent)
      && (patch.text.Some? ==> r.text == patch.text.value)
      && (patch.text.None? ==> r.text == existing.text)
      && (patch.payload.Some? ==> r.payload == patch.payload.value)
      && (patch.payload.None? ==> r.payload == existing.payload)
    ensures Merge(existing, Patch(existing.id, None, None, None)) == existing
    ensures Merge(Merge(existing, patch), patch) == Merge(existing, patch)
  {
  }

  /** `get(p) ?? []` after a `set` or a `delete` on the map: the entry
      written is read back, a deleted entry reads as empty, and every other
      key reads as before. */
  lemma ChildListOrEmpty<Id>(cbp: map<Option<Id>, seq<Id>>, q: Option<Id>, l: seq<Id>, p: Option<Id>)
    ensures ChildList(cbp, p) == [] <==> p !in cbp || cbp[p] == []
    ensures ChildList(cbp[q := l], p) == if p == q then l else ChildList(cbp, p)
    ensures ChildList(cbp - {q}, p) == if p == q then [] else ChildList(cbp, p)
  {
  }

  /** The filter keeps relative order: it distributes over concatenation,
      keeps a list with no removed id whole, and never lengthens it. */
  lemma {:induction false} SurvivorsInOrder<Id, P>(a: seq<Item<Id, P>>, b: seq<Item<Id, P>>, d: set<Id>)
    ensures Survivors(a + b, d) == Survivors(a, d) + Survivors(b, d)
    ensures (forall x | x in a :: x.id !in d) ==> Survivors(a, d) == a
    ensures |Survivors(a, d)| <= |a|
  {
    if a == [] {
      assert a + b == b;
    } else {
      var head := if a[0].id in d then [] else [a[0]];
      assert (a + b)[0] == a[0] && (a + b)[1..] == a[1..] + b;
      SurvivorsInOrder(a[1..], b, d);
      AppendAssoc(head, Survivors(a[1..], d), Survivors(b, d));
      assert a == [a[0]] + a[1..];
    }
  }

  lemma IdsAppend<Id, P>(a: seq<Item<Id, P>>, b: seq<Item<Id, P>>)
    ensures Ids(a + b) == Ids(a) + Ids(b)
  {
  }

  /** The filter keeps exactly the items whose id is not removed. */
  lemma {:induction false} SurvivorsMembers<Id, P>(s: seq<Item<Id, P>>, d: set<Id>)
    ensures forall x :: x in Survivors(s, d) <==> x in s && x.id !in d
  {
    if s != [] {
      SurvivorsMembers(s[1..], d);
      assert s == [s[0]] + s[1..];
    }
  }

  /** Removing items by id removes exactly those ids from the id list. */
  lemma {:induction false} SurvivorIds<Id, P>(s: seq<Item<Id, P>>, d: set<Id>)
    ensures Ids(Survivors(s, d)) == Without(Ids(s), d)
  {
    if s != [] {
      SurvivorIds(s[1..], d);
      var head := if s[0].id in d then [] else [s[0]];
      IdsAppend(head, Survivors(s[1..], d));
      assert Ids(s) == [s[0].id] + Ids(s[1..]);
    }
  }

  /** The identity and parent indexes built from s have one key per id of s. */
  lemma {:induction false} ByIdOfKeys<Id, P>(s: seq<Item<Id, P>>)
    ensures ByIdOf(s).Keys == Elems(Ids(s))
    ensures ParentMapOf(s).Keys == Elems(Ids(s))
  {
    if s != [] {
      var n := |s| - 1;
      assert s == s[..n] + [s[n]];
      IdsAppend(s[..n], [s[n]]);
      assert Ids(s) == Ids(s[..n]) + [s[n].id];
      assert Elems(Ids(s)) == Elems(Ids(s[..n])) + {s[n].id};
      ByIdOfKeys(s[..n]);
    }
  }

  /** With distinct ids, the entry for each item's id is that item and its parent. */
  lemma {:induction false} ByIdOfValues<Id, P>(s: seq<Item<Id, P>>)
    requires NoDup(Ids(s))
    ensures forall k | 0 <= k < |s| ::
              && s[k].id in ByIdOf(s) && ByIdOf(s)[s[k].id] == s[k]
              && s[k].id in ParentMapOf(s) && ParentMapOf(s)[s[k].id] == s[k].parent
  {
    if s != [] {
      var n := |s| - 1;
      var front := s[..n];
      assert s == front + [s[n]];
      IdsAppend(front, [s[n]]);
      assert Ids(s) == Ids(front) + [s[n].id];
      NoDupAppend(Ids(front), [s[n].id]);
      ByIdOfValues(front);
      forall k | 0 <= k < n ensures s[k].id != s[n].id {
        assert Ids(s)[k] == s[k].id && Ids(s)[n] == s[n].id;
      }
    }
  }

  lemma {:induction false} WithParentAppend<Id, P>(a: seq<Item<Id, P>>, b: seq<Item<Id, P>>, p: Option<Id>)
    ensures WithParent(a + b, p) == WithParent(a, p) + WithParent(b, p)
  {
    if a == [] {
      assert a + b == b;
    } else {
      var head := if a[0].parent == p then [a[0]] else [];
      assert (a + b)[0] == a[0] && (a + b)[1..] == a[1..] + b;
      WithParentAppend(a[1..], b, p);
      AppendAssoc(head, WithParent(a[1..], p), WithParent(b, p));
    }
  }

  /** The constructor's children lists keep input order: the list built for
      p holds the ids of the items whose parent is p, in input order. */
  lemma {:induction false} ChildIndexInInputOrder<Id, P>(s: seq<Item<Id, P>>, p: Option<Id>)
    ensures ChildList(ChildIndex(s), p) == Ids(WithParent(s, p))
  {
    if s != [] {
      var n := |s| - 1;
      var front := s[..n];
      assert s == front + [s[n]];
      ChildIndexInInputOrder(front, p);
      WithParentAppend(front, [s[n]], p);
      IdsAppend(WithParent(front, p), WithParent([s[n]], p));
      assert [s[n]][1..] == [];
    }
  }
}
