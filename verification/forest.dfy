/** The parent relation of the store as a value: a map from each registered
    id to its normalised parent (None stands for the root, `null`).

    The traversals of the store walk this relation with no guard against
    cycles, so they terminate only when it is acyclic. Acyclicity is stated
    through a ranking: a registered parent always ranks strictly below its
    child. Every ghost definition below that recurses along parent links
    takes the ranking as its termination measure; its value does not depend
    on which ranking is used (DescendsIndependentOfRank). */
module Forest {
  import opened Wrappers
  import opened Seqs

  ghost predicate Ranked<Id>(pm: map<Id, Option<Id>>, rank: map<Id, nat>)
  {
    && rank.Keys == pm.Keys
    && forall y | y in pm && pm[y].Some? && pm[y].value in pm :: rank[pm[y].value] < rank[y]
  }

  ghost predicate Acyclic<Id(!new)>(pm: map<Id, Option<Id>>)
  {
    exists rank :: Ranked(pm, rank)
  }

  /** y lies strictly below x: walking up from y through registered ids
      reaches a parent link that names x. x itself need not be registered
      (an item may name a parent id that has no item). */
  ghost predicate Descends<Id>(pm: map<Id, Option<Id>>, rank: map<Id, nat>, y: Id, x: Id)
    requires Ranked(pm, rank)
    decreases if y in pm then rank[y] + 1 else 0
  {
    y in pm && pm[y].Some? && (pm[y].value == x || Descends(pm, rank, pm[y].value, x))
  }

  /** The registered ids strictly below x. */
  ghost function Descendants<Id>(pm: map<Id, Option<Id>>, rank: map<Id, nat>, x: Id): set<Id>
    requires Ranked(pm, rank)
  {
    set y | y in pm && Descends(pm, rank, y, x)
  }

  /** Giving x the parent p would close a cycle: p is x, or p lies below x. */
  ghost predicate ClosesCycle<Id>(pm: map<Id, Option<Id>>, rank: map<Id, nat>, x: Id, p: Option<Id>)
    requires Ranked(pm, rank)
  {
    p.Some? && (p.value == x || Descends(pm, rank, p.value, x))
  }

  /** The registered ids whose parent is in s. */
  ghost function Kids<Id>(pm: map<Id, Option<Id>>, s: set<Id>): set<Id>
  {
    set c | c in pm && pm[c].Some? && pm[c].value in s
  }

  /** The chain from y up to the root: y, its parent, its grandparent, ...,
      stopping after an id whose parent is the root or is not registered.
      Empty when y is not registered. */
  ghost function Path<Id>(pm: map<Id, Option<Id>>, rank: map<Id, nat>, y: Id): seq<Id>
    requires Ranked(pm, rank)
    decreases if y in pm then rank[y] + 1 else 0
  {
    if y !in pm then []
    else match pm[y]
      case None => [y]
      case Some(z) => [y] + Path(pm, rank, z)
  }

  /** Dropping ids from the relation keeps it ranked by the rest of the ranking. */
  lemma RankedRemove<Id>(pm: map<Id, Option<Id>>, rank: map<Id, nat>, d: set<Id>)
    requires Ranked(pm, rank)
    ensures Ranked(pm - d, rank - d)
  {
    var pm', rank' := pm - d, rank - d;
    forall y | y in pm' && pm'[y].Some? && pm'[y].value in pm' ensures rank'[pm'[y].value] < rank'[y] {
      assert pm'[y] == pm[y];
    }
  }

  /** An id lies strictly above everything below it: the ranking orders them,
      so no id descends from itself. */
  lemma {:induction false} DescendsRank<Id>(pm: map<Id, Option<Id>>, rank: map<Id, nat>, y: Id, x: Id)
    requires Ranked(pm, rank) && Descends(pm, rank, y, x)
    ensures y in pm && y != x
    ensures x in pm ==> rank[x] < rank[y]
    decreases rank[y]
  {
    var z := pm[y].value;
    if z != x {
      DescendsRank(pm, rank, z, x);
    }
  }

  /** Descent is a property of the parent map alone, not of the ranking that
      witnesses its acyclicity. */
  lemma {:induction false} DescendsIndependentOfRank<Id>(pm: map<Id, Option<Id>>, r1: map<Id, nat>, r2: map<Id, nat>, y: Id, x: Id)
    requires Ranked(pm, r1) && Ranked(pm, r2)
    ensures Descends(pm, r1, y, x) == Descends(pm, r2, y, x)
    decreases if y in pm then r1[y] + 1 else 0
  {
    if y in pm && pm[y].Some? && pm[y].value != x {
      DescendsIndependentOfRank(pm, r1, r2, pm[y].value, x);
    }
  }

  /** Nothing is both above and below x. */
  lemma NoMutualDescent<Id>(pm: map<Id, Option<Id>>, rank: map<Id, nat>, x: Id, a: Id)
    requires Ranked(pm, rank)
    ensures !(Descends(pm, rank, a, x) && Descends(pm, rank, x, a))
  {
    if Descends(pm, rank, a, x) && Descends(pm, rank, x, a) {
      DescendsRank(pm, rank, a, x);
      DescendsRank(pm, rank, x, a);
    }
  }

  /** Nothing lies below itself. */
  lemma NotOwnDescendant<Id>(pm: map<Id, Option<Id>>, rank: map<Id, nat>, x: Id)
    requires Ranked(pm, rank)
    ensures x !in Descendants(pm, rank, x)
  {
    if x in Descendants(pm, rank, x) {
      DescendsRank(pm, rank, x, x);
    }
  }

  /** Giving x the parent p keeps the relation acyclic unless p is x or lies
      below x. The new ranking lifts x and everything below it above p. */
  lemma ReparentStaysAcyclic<Id>(pm: map<Id, Option<Id>>, rank: map<Id, nat>, x: Id, p: Option<Id>)
    returns (rank': map<Id, nat>)
    requires Ranked(pm, rank)
    requires !ClosesCycle(pm, rank, x, p)
    ensures Ranked(pm[x := p], rank')
  {
    var pm' := pm[x := p];
    var lift: nat := if p.Some? && p.value in pm then rank[p.value] + 1 else 0;
    var base: nat := if x in pm then rank[x] else 0;
    rank' := map y | y in pm' ::
      if y == x then base + lift
      else if Descends(pm, rank, y, x) then rank[y] + lift + 1
      else rank[y];
    forall y | y in pm' && pm'[y].Some? && pm'[y].value in pm'
      ensures rank'[pm'[y].value] < rank'[y]
    {
      var z := pm'[y].value;
      if y == x {
        assert z in pm && z != x && !Descends(pm, rank, z, x);
      } else if Descends(pm, rank, y, x) {
        if z == x {
          assert base <= rank[y];
        } else {
          assert z in pm && Descends(pm, rank, z, x);
        }
      } else {
        assert z != x && z in pm;
        assert !Descends(pm, rank, z, x);
      }
    }
    assert Ranked(pm', rank');
  }

  /** Whatever contains the children of x and of its own members contains
      every descendant of x. */
  lemma {:induction false} ClosedContainsDescendants<Id>(pm: map<Id, Option<Id>>, rank: map<Id, nat>, x: Id, s: set<Id>, y: Id)
    requires Ranked(pm, rank)
    requires Kids(pm, {x} + s) <= s
    requires Descends(pm, rank, y, x)
    ensures y in s
    decreases rank[y]
  {
    var z := pm[y].value;
    if z != x {
      DescendsRank(pm, rank, z, x);
      ClosedContainsDescendants(pm, rank, x, s, z);
    }
    assert y in Kids(pm, {x} + s);
  }

  /** x together with its descendants is closed under taking children. */
  lemma SubtreeClosed<Id>(pm: map<Id, Option<Id>>, rank: map<Id, nat>, x: Id)
    requires Ranked(pm, rank)
    ensures Kids(pm, {x} + Descendants(pm, rank, x)) == Descendants(pm, rank, x)
  {
    forall y | y in Descendants(pm, rank, x) ensures y in Kids(pm, {x} + Descendants(pm, rank, x)) {
      var z := pm[y].value;
      if z != x {
        DescendsRank(pm, rank, z, x);
      }
    }
  }

  /** The shape of the ancestor chain: it starts at y, each next id is the
      parent of the one before, and it ends at an id whose parent is the
      root or is not registered. */
  lemma {:induction false} PathSteps<Id>(pm: map<Id, Option<Id>>, rank: map<Id, nat>, y: Id)
    requires Ranked(pm, rank)
    ensures var path := Path(pm, rank, y);
      && (path == [] <==> y !in pm)
      && (y in pm ==> path[0] == y)
      && (forall k | 0 <= k < |path| :: path[k] in pm)
      && (forall k | 0 <= k < |path| - 1 :: pm[path[k]] == Some(path[k + 1]))
      && (path != [] ==> pm[path[|path| - 1]].None? || pm[path[|path| - 1]].value !in pm)
    decreases if y in pm then rank[y] + 1 else 0
  {
    if y in pm && pm[y].Some? {
      var z := pm[y].value;
      PathSteps(pm, rank, z);
      var path, tail := Path(pm, rank, y), Path(pm, rank, z);
      assert path == [y] + tail;
      forall k | 0 <= k < |path| - 1 ensures pm[path[k]] == Some(path[k + 1]) {
        if k > 0 {
          assert path[k] == tail[k - 1] && path[k + 1] == tail[k];
        }
      }
    }
  }

  /** Every id after the first on the chain lies above y, strictly higher at
      each step, so the chain never repeats an id. */
  lemma {:induction false} PathAscends<Id>(pm: map<Id, Option<Id>>, rank: map<Id, nat>, y: Id)
    requires Ranked(pm, rank)
    ensures var path := Path(pm, rank, y);
      && (forall k | 1 <= k < |path| :: Descends(pm, rank, y, path[k]))
      && (forall k | 0 <= k < |path| :: path[k] in rank)
      && (forall i, j | 0 <= i < j < |path| :: rank[path[j]] < rank[path[i]])
      && NoDup(path)
    decreases if y in pm then rank[y] + 1 else 0
  {
    if y in pm && pm[y].Some? {
      var z := pm[y].value;
      PathAscends(pm, rank, z);
      PathSteps(pm, rank, z);
      var path, tail := Path(pm, rank, y), Path(pm, rank, z);
      assert path == [y] + tail;
      forall k | 1 <= k < |path| ensures Descends(pm, rank, y, path[k]) {
        assert path[k] == tail[k - 1];
      }
      forall i, j | 0 <= i < j < |path| ensures rank[path[j]] < rank[path[i]] {
        assert path[j] == tail[j - 1];
        if i > 0 {
          assert path[i] == tail[i - 1];
        } else {
          DescendsRank(pm, rank, y, path[j]);
        }
      }
    }
  }

  /** The state of the stack-driven descendant walk from x: `stack` holds
      the ids still to visit, `done` those visited. Both are duplicate free
      and disjoint, together they are exactly the children of x and of the
      visited ids, and all of them lie below x. */
  ghost predicate WalkInv<Id>(pm: map<Id, Option<Id>>, rank: map<Id, nat>, x: Id, stack: seq<Id>, done: seq<Id>)
    requires Ranked(pm, rank)
  {
    && NoDup(stack) && NoDup(done)
    && (forall c | c in stack :: c !in done)
    && Elems(stack) + Elems(done) == Kids(pm, {x} + Elems(done))
    && (forall c | c in stack :: Descends(pm, rank, c, x))
    && (forall c | c in done :: Descends(pm, rank, c, x))
  }

  /** The walk starts from the children of x with nothing visited. */
  lemma WalkStart<Id>(pm: map<Id, Option<Id>>, rank: map<Id, nat>, x: Id, children: seq<Id>)
    requires Ranked(pm, rank)
    requires NoDup(children) && Elems(children) == Kids(pm, {x})
    ensures WalkInv(pm, rank, x, children, [])
  {
    assert Elems<Id>([]) == {};
    forall c | c in children ensures Descends(pm, rank, c, x) {
      assert c in Kids(pm, {x});
    }
  }

  /** One step of the walk: pop the last id of the stack, mark it visited and
      push its children. The invariant is kept, and the visited list, which
      grows by one, stays within the ids of pm. */
  lemma WalkStep<Id>(pm: map<Id, Option<Id>>, rank: map<Id, nat>, x: Id, stack: seq<Id>, done: seq<Id>, children: seq<Id>)
    requires Ranked(pm, rank)
    requires WalkInv(pm, rank, x, stack, done) && stack != []
    requires NoDup(children) && Elems(children) == Kids(pm, {stack[|stack| - 1]})
    ensures var cur := stack[|stack| - 1];
      var stack', done' := stack[..|stack| - 1] + children, done + [cur];
      && cur in pm
      && WalkInv(pm, rank, x, stack', done')
      && |done'| <= |pm|
  {
    var n := |stack|;
    var cur, rest := stack[n - 1], stack[..n - 1];
    assert stack == rest + [cur];
    assert cur in Kids(pm, {x} + Elems(done));
    DescendsRank(pm, rank, cur, x);
    NoDupAppend(rest, [cur]);
    assert cur !in {x} + Elems(done);
    assert forall c | c in rest || c in done :: c in Kids(pm, {x} + Elems(done));
    forall c | c in children ensures c !in rest && c !in done && c != cur && c in pm && Descends(pm, rank, c, x) {
      assert c in Kids(pm, {cur});
    }
    NoDupAppend(rest, children);
    NoDupAppend(done, [cur]);
    var stack', done' := rest + children, done + [cur];
    assert Elems(stack') + Elems(done') == Elems(stack) + Elems(done) + Elems(children);
    assert Kids(pm, {x} + Elems(done')) == Kids(pm, {x} + Elems(done)) + Kids(pm, {cur});
    WalkBound(pm, rank, x, stack', done');
  }

  /** The visited list never holds more ids than pm has. */
  lemma WalkBound<Id>(pm: map<Id, Option<Id>>, rank: map<Id, nat>, x: Id, stack: seq<Id>, done: seq<Id>)
    requires Ranked(pm, rank)
    requires WalkInv(pm, rank, x, stack, done)
    ensures |done| <= |pm|
  {
    assert Elems(done) <= pm.Keys;
    NoDupCard(done);
    SubsetCard(Elems(done), pm.Keys);
  }

  /** When the stack is empty the visited ids are exactly the descendants. */
  lemma WalkDone<Id>(pm: map<Id, Option<Id>>, rank: map<Id, nat>, x: Id, done: seq<Id>)
    requires Ranked(pm, rank)
    requires WalkInv(pm, rank, x, [], done)
    ensures Elems(done) == Descendants(pm, rank, x)
  {
    forall y | y in Descendants(pm, rank, x) ensures y in Elems(done) {
      ClosedContainsDescendants(pm, rank, x, Elems(done), y);
    }
  }

  /** x followed by the finished walk lists x and its descendants, each once. */
  lemma WalkDoneWithRoot<Id>(pm: map<Id, Option<Id>>, rank: map<Id, nat>, x: Id, done: seq<Id>)
    requires Ranked(pm, rank)
    requires WalkInv(pm, rank, x, [], done)
    ensures NoDup([x] + done)
    ensures Elems([x] + done) == {x} + Descendants(pm, rank, x)
  {
    WalkDone(pm, rank, x, done);
    NotOwnDescendant(pm, rank, x);
    NoDupAppend([x], done);
    ElemsAppend([x], done);
    assert Elems([x]) == {x};
  }

  /** The visited ids are in pre-order below x: each one's parent is x or an
      id visited before it. */
  ghost predicate PreOrder<Id>(pm: map<Id, Option<Id>>, x: Id, done: seq<Id>)
  {
    forall k | 0 <= k < |done| ::
      && done[k] in pm
      && (pm[done[k]] == Some(x) || (pm[done[k]].Some? && pm[done[k]].value in done[..k]))
  }

  /** Visiting the top of the stack keeps the visit in pre-order: an id is
      pushed only as a child of x or of an id already visited. */
  lemma PreOrderStep<Id>(pm: map<Id, Option<Id>>, rank: map<Id, nat>, x: Id, stack: seq<Id>, done: seq<Id>)
    requires Ranked(pm, rank)
    requires WalkInv(pm, rank, x, stack, done) && stack != []
    requires PreOrder(pm, x, done)
    ensures PreOrder(pm, x, done + [stack[|stack| - 1]])
  {
    var cur := stack[|stack| - 1];
    var done' := done + [cur];
    assert cur in Kids(pm, {x} + Elems(done));
    forall k | 0 <= k < |done'|
      ensures done'[k] in pm
      ensures pm[done'[k]] == Some(x) || (pm[done'[k]].Some? && pm[done'[k]].value in done'[..k])
    {
      assert done'[..k] == if k < |done| then done[..k] else done;
    }
  }
}
