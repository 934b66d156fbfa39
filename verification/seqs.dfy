/** Sequence facts the store needs: duplicate freedom, the array search
    `indexOf`, and filtering a set of values out of a list. */
module Seqs {

  /** No value occurs twice in s. */
  ghost predicate NoDup<T>(s: seq<T>)
  {
    forall i, j | 0 <= i < j < |s| :: s[i] != s[j]
  }

  /** The values of s, as a set (what `new Set(s)` builds). */
  function Elems<T(==)>(s: seq<T>): set<T>
  {
    set x | x in s
  }

  /** Position of the first occurrence of x in s, or -1 when there is none. */
  function IndexOf<T(==)>(s: seq<T>, x: T): (r: int)
    ensures -1 <= r < |s|
    ensures r == -1 <==> x !in s
    ensures r != -1 ==> s[r] == x && x !in s[..r]
  {
    if s == [] then -1
    else if s[0] == x then 0
    else
      var k := IndexOf(s[1..], x);
      assert s == [s[0]] + s[1..];
      if k == -1 then -1
      else
        assert s[..k + 1] == [s[0]] + s[1..][..k];
        k + 1
  }

  /** s with every value of d filtered out, the others kept in order. */
  function Without<T(==)>(s: seq<T>, d: set<T>): seq<T>
  {
    if s == [] then []
    else (if s[0] in d then [] else [s[0]]) + Without(s[1..], d)
  }

  /** The filter keeps exactly the values of s that are not in d, and never
      lengthens the list. */
  lemma {:induction false} WithoutMembers<T>(s: seq<T>, d: set<T>)
    ensures forall x :: x in Without(s, d) <==> x in s && x !in d
    ensures |Without(s, d)| <= |s|
  {
    if s != [] {
      WithoutMembers(s[1..], d);
      assert s == [s[0]] + s[1..];
    }
  }

  /** The filter keeps c exactly when c is in s and not filtered. */
  lemma Kept<T>(s: seq<T>, d: set<T>, c: T)
    ensures c in Without(s, d) <==> c in s && c !in d
  {
    WithoutMembers(s, d);
  }

  lemma {:induction false} NoDupAppend<T>(a: seq<T>, b: seq<T>)
    ensures NoDup(a + b) <==> NoDup(a) && NoDup(b) && forall x | x in a :: x !in b
  {
    if NoDup(a) && NoDup(b) && forall x | x in a :: x !in b {
      forall i, j | 0 <= i < j < |a + b| ensures (a + b)[i] != (a + b)[j] {
        if j >= |a| && i < |a| {
          assert (a + b)[i] in a && (a + b)[j] in b;
        }
      }
    }
    if NoDup(a + b) {
      forall i, j | 0 <= i < j < |a| ensures a[i] != a[j] {
        assert a[i] == (a + b)[i] && a[j] == (a + b)[j];
      }
      forall i, j | 0 <= i < j < |b| ensures b[i] != b[j] {
        assert b[i] == (a + b)[|a| + i] && b[j] == (a + b)[|a| + j];
      }
      forall i, j | 0 <= i < |a| && 0 <= j < |b| ensures a[i] != b[j] {
        assert a[i] == (a + b)[i] && b[j] == (a + b)[|a| + j];
      }
    }
  }

  lemma {:induction false} WithoutAppend<T>(a: seq<T>, b: seq<T>, d: set<T>)
    ensures Without(a + b, d) == Without(a, d) + Without(b, d)
  {
    if a == [] {
      assert a + b == b;
    } else {
      assert (a + b)[1..] == a[1..] + b;
      WithoutAppend(a[1..], b, d);
    }
  }

  /** Filtering out values that do not occur changes nothing. */
  lemma {:induction false} WithoutAbsent<T>(s: seq<T>, d: set<T>)
    requires forall x | x in s :: x !in d
    ensures Without(s, d) == s
  {
    if s != [] {
      WithoutAbsent(s[1..], d);
    }
  }

  /** Filtering in two rounds is filtering once by the union. */
  lemma {:induction false} WithoutTwice<T>(s: seq<T>, d: set<T>, e: set<T>)
    ensures Without(Without(s, d), e) == Without(s, d + e)
  {
    if s != [] {
      WithoutTwice(s[1..], d, e);
      var head := if s[0] in d then [] else [s[0]];
      WithoutAppend(head, Without(s[1..], d), e);
    }
  }

  /** Adding a value that does not occur in s to the filter changes nothing. */
  lemma {:induction false} WithoutExtraAbsent<T>(s: seq<T>, d: set<T>, e: T)
    requires e !in s
    ensures Without(s, d + {e}) == Without(s, d)
  {
    if s != [] {
      WithoutExtraAbsent(s[1..], d, e);
    }
  }

  lemma {:induction false} WithoutNoDup<T>(s: seq<T>, d: set<T>)
    requires NoDup(s)
    ensures NoDup(Without(s, d))
  {
    if s != [] {
      assert s == [s[0]] + s[1..];
      NoDupAppend([s[0]], s[1..]);
      WithoutNoDup(s[1..], d);
      WithoutMembers(s[1..], d);
      var head := if s[0] in d then [] else [s[0]];
      NoDupAppend(head, Without(s[1..], d));
    }
  }

  /** `splice(pos, 1)` at the one occurrence of a value in a duplicate-free
      list is the same as filtering that value out. */
  lemma {:induction false} SpliceIsWithout<T>(s: seq<T>, pos: nat)
    requires NoDup(s) && pos < |s|
    ensures s[..pos] + s[pos + 1..] == Without(s, {s[pos]})
  {
    var x, t := s[pos], s[1..];
    assert NoDup(t) by {
      forall i, j | 0 <= i < j < |t| ensures t[i] != t[j] {
        assert t[i] == s[i + 1] && t[j] == s[j + 1];
      }
    }
    if pos == 0 {
      forall y | y in t ensures y !in {x} {
        var i :| 0 <= i < |t| && t[i] == y;
        assert t[i] == s[i + 1];
      }
      WithoutAbsent(t, {x});
    } else {
      SpliceIsWithout(t, pos - 1);
      assert t[pos - 1] == x && s[0] != x;
      assert s[..pos] + s[pos + 1..] == [s[0]] + (t[..pos - 1] + t[pos..]);
    }
  }

  lemma ElemsAppend<T>(a: seq<T>, b: seq<T>)
    ensures Elems(a + b) == Elems(a) + Elems(b)
  {
  }

  /** A subset is no larger than its superset. */
  lemma {:induction false} SubsetCard<T>(a: set<T>, b: set<T>)
    requires a <= b
    ensures |a| <= |b|
    decreases a
  {
    if a != {} {
      var x :| x in a;
      SubsetCard(a - {x}, b - {x});
    }
  }

  /** Growing a prefix of a duplicate-free list by one adds a value it did
      not hold yet. */
  lemma PrefixStep<T>(s: seq<T>, j: nat)
    requires NoDup(s) && j < |s|
    ensures s[j] !in Elems(s[..j])
    ensures Elems(s[..j + 1]) == Elems(s[..j]) + {s[j]}
  {
    assert s[..j + 1] == s[..j] + [s[j]];
  }

  /** Removing keys one at a time is removing them all at once. */
  lemma RemoveKeysStep<K, V>(m: map<K, V>, a: set<K>, x: K)
    ensures (m - a) - {x} == m - (a + {x})
  {
  }

  lemma AppendAssoc<T>(a: seq<T>, b: seq<T>, c: seq<T>)
    ensures (a + b) + c == a + (b + c)
  {
  }

  /** A duplicate-free list has as many distinct values as entries. */
  lemma {:induction false} NoDupCard<T>(s: seq<T>)
    requires NoDup(s)
    ensures |Elems(s)| == |s|
  {
    if s != [] {
      assert s == [s[0]] + s[1..];
      NoDupAppend([s[0]], s[1..]);
      NoDupCard(s[1..]);
      assert Elems(s) == {s[0]} + Elems(s[1..]);
      assert s[0] !in Elems(s[1..]);
    }
  }
}
