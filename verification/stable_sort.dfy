/**
 Array.prototype.sort with a numeric comparator `(a, b) => key(a) - key(b)`:
 since ES2019 the sort is stable, so elements with equal keys keep their
 relative order. Modelled as insertion sort over a sequence.
 */
module StableSort {

  /** Ascending by key. */
  predicate SortedBy<T>(s: seq<T>, key: T -> real)
  {
    forall i, j :: 0 <= i < j < |s| ==> key(s[i]) <= key(s[j])
  }

  /** The elements of s whose key is k, in their order in s. */
  function WithKey<T>(s: seq<T>, key: T -> real, k: real): (r: seq<T>)
    ensures |r| <= |s|
    ensures forall i :: 0 <= i < |r| ==> key(r[i]) == k
  {
    if |s| == 0 then []
    else (if key(s[0]) == k then [s[0]] else []) + WithKey(s[1..], key, k)
  }

  lemma {:induction false} WithKeyAppend<T>(s: seq<T>, t: seq<T>, key: T -> real, k: real)
    ensures WithKey(s + t, key, k) == WithKey(s, key, k) + WithKey(t, key, k)
  {
    if |s| == 0 {
      assert s + t == t;
    } else {
      assert (s + t)[1..] == s[1..] + t;
      WithKeyAppend(s[1..], t, key, k);
    }
  }

  /** A key below every key of s has no group in s. */
  lemma {:induction false} WithKeyBelow<T>(s: seq<T>, key: T -> real, k: real)
    requires forall i :: 0 <= i < |s| ==> k < key(s[i])
    ensures WithKey(s, key, k) == []
  {
    if |s| > 0 {
      WithKeyBelow(s[1..], key, k);
    }
  }

  /** A non-empty group is witnessed by an element with that key. */
  lemma {:induction false} WithKeyWitness<T>(s: seq<T>, key: T -> real, k: real)
    requires WithKey(s, key, k) != []
    ensures exists i :: 0 <= i < |s| && key(s[i]) == k
  {
    if key(s[0]) != k {
      WithKeyWitness(s[1..], key, k);
      var i :| 0 <= i < |s[1..]| && key(s[1..][i]) == k;
      assert key(s[i + 1]) == k;
    }
  }

  /** Insert x into sorted s after every element whose key is at most key(x). */
  function Insert<T>(x: T, s: seq<T>, key: T -> real): (r: seq<T>)
    requires SortedBy(s, key)
    ensures SortedBy(r, key)
    ensures multiset(r) == multiset(s) + multiset{x}
    ensures |r| == |s| + 1
  {
    if |s| == 0 then [x]
    else if key(x) < key(s[0]) then [x] + s
    else
      var rest := Insert(x, s[1..], key);
      assert s == [s[0]] + s[1..];
      LowerBound(x, s, rest, key);
      SortedCons(s[0], rest, key);
      [s[0]] + rest
  }

  lemma LowerBound<T>(x: T, s: seq<T>, rest: seq<T>, key: T -> real)
    requires SortedBy(s, key) && |s| > 0 && key(s[0]) <= key(x)
    requires multiset(rest) == multiset(s[1..]) + multiset{x}
    ensures forall i :: 0 <= i < |rest| ==> key(s[0]) <= key(rest[i])
  {
    forall i | 0 <= i < |rest| ensures key(s[0]) <= key(rest[i]) {
      assert rest[i] in multiset(rest);
      if rest[i] != x {
        assert rest[i] in multiset(s[1..]);
        var j :| 0 <= j < |s[1..]| && s[1..][j] == rest[i];
        assert s[j + 1] == rest[i];
      }
    }
  }

  lemma SortedCons<T>(h: T, rest: seq<T>, key: T -> real)
    requires SortedBy(rest, key)
    requires forall i :: 0 <= i < |rest| ==> key(h) <= key(rest[i])
    ensures SortedBy([h] + rest, key)
  {
    var r := [h] + rest;
    forall i, j | 0 <= i < j < |r| ensures key(r[i]) <= key(r[j]) {
      assert r[j] == rest[j - 1];
      if i > 0 {
        assert r[i] == rest[i - 1];
      }
    }
  }

  /** Insertion is stable: x joins its key group after the members already there. */
  lemma {:induction false} InsertGroups<T>(x: T, s: seq<T>, key: T -> real, k: real)
    requires SortedBy(s, key)
    ensures WithKey(Insert(x, s, key), key, k) == WithKey(s, key, k) + WithKey([x], key, k)
  {
    if |s| == 0 {
      assert Insert(x, s, key) == [x];
      assert WithKey(s, key, k) == [];
    } else if key(x) < key(s[0]) {
      InsertFront(x, s, key, k);
    } else {
      var rest := Insert(x, s[1..], key);
      assert SortedBy(s[1..], key);
      InsertGroups(x, s[1..], key, k);
      assert Insert(x, s, key) == [s[0]] + rest;
      var head: seq<T> := if key(s[0]) == k then [s[0]] else [];
      var tail := WithKey(s[1..], key, k);
      var added := WithKey([x], key, k);
      calc {
        WithKey(Insert(x, s, key), key, k);
        { WithKeyCons(s[0], rest, key, k); }
        head + WithKey(rest, key, k);
        head + (tail + added);
        { Assoc(head, tail, added); }
        (head + tail) + added;
        { WithKeyCons(s[0], s[1..], key, k); assert [s[0]] + s[1..] == s; }
        WithKey(s, key, k) + added;
      }
    }
  }

  lemma Assoc<T>(a: seq<T>, b: seq<T>, c: seq<T>)
    ensures a + (b + c) == (a + b) + c
  {
  }

  /** The key group of a list with a head in front: the head, if its key is k, then the
      group of the tail. */
  lemma WithKeyCons<T>(h: T, t: seq<T>, key: T -> real, k: real)
    ensures WithKey([h] + t, key, k) == (if key(h) == k then [h] else []) + WithKey(t, key, k)
  {
    assert ([h] + t)[0] == h;
    assert ([h] + t)[1..] == t;
  }

  lemma InsertFront<T>(x: T, s: seq<T>, key: T -> real, k: real)
    requires SortedBy(s, key) && |s| > 0 && key(x) < key(s[0])
    ensures WithKey([x] + s, key, k) == WithKey(s, key, k) + WithKey([x], key, k)
  {
    WithKeyAppend([x], s, key, k);
    if key(x) == k {
      assert forall i :: 0 <= i < |s| ==> key(s[0]) <= key(s[i]);
      WithKeyBelow(s, key, k);
    }
  }

  /** The stable sort: sorted, a permutation of s, and every key group in input order. */
  function SortBy<T>(s: seq<T>, key: T -> real): (r: seq<T>)
    ensures SortedBy(r, key)
    ensures multiset(r) == multiset(s)
    ensures |r| == |s|
    ensures forall k :: WithKey(r, key, k) == WithKey(s, key, k)
  {
    if |s| == 0 then []
    else
      var init := s[..|s| - 1];
      var last := s[|s| - 1];
      var sortedInit := SortBy(init, key);
      assert s == init + [last];
      assert forall k :: WithKey(Insert(last, sortedInit, key), key, k) == WithKey(s, key, k) by {
        forall k ensures WithKey(Insert(last, sortedInit, key), key, k) == WithKey(s, key, k) {
          WithKeyAppend(init, [last], key, k);
          InsertGroups(last, sortedInit, key, k);
        }
      }
      Insert(last, sortedInit, key)
  }

  /** A sorted sequence is determined by its key groups. */
  lemma {:induction false} SortedUnique<T>(a: seq<T>, b: seq<T>, key: T -> real)
    requires SortedBy(a, key) && SortedBy(b, key)
    requires forall k :: WithKey(a, key, k) == WithKey(b, key, k)
    ensures a == b
    decreases |a|
  {
    if |a| > 0 {
      var k0 := key(a[0]);
      assert WithKey(a, key, k0) != [];
      assert |b| > 0;
      var k1 := key(b[0]);
      assert WithKey(b, key, k1) != [];
      WithKeyWitness(a, key, k1);
      WithKeyWitness(b, key, k0);
      assert k0 == k1;
      assert a[0] == b[0] by {
        assert WithKey(a, key, k0)[0] == a[0];
        assert WithKey(b, key, k0)[0] == b[0];
      }
      forall k
        ensures WithKey(a[1..], key, k) == WithKey(b[1..], key, k)
      {
        assert WithKey(a, key, k) == (if k0 == k then [a[0]] else []) + WithKey(a[1..], key, k);
        assert WithKey(b, key, k) == (if k0 == k then [b[0]] else []) + WithKey(b[1..], key, k);
        assert WithKey(a, key, k) == WithKey(b, key, k);
        if k0 == k {
          assert WithKey(a[1..], key, k) == WithKey(a, key, k)[1..];
          assert WithKey(b[1..], key, k) == WithKey(b, key, k)[1..];
        } else {
          assert WithKey(a[1..], key, k) == WithKey(a, key, k);
          assert WithKey(b[1..], key, k) == WithKey(b, key, k);
        }
      }
      SortedUnique(a[1..], b[1..], key);
      assert a == [a[0]] + a[1..] && b == [b[0]] + b[1..];
    }
  }

  /** Sorting an already sorted sequence leaves it as it is. */
  lemma SortSorted<T>(s: seq<T>, key: T -> real)
    requires SortedBy(s, key)
    ensures SortBy(s, key) == s
  {
    SortedUnique(SortBy(s, key), s, key);
  }

  /** Sorting depends only on the key groups of the input: reordering elements with
      different keys does not change the result. */
  lemma SortByKeyGroups<T>(s: seq<T>, t: seq<T>, key: T -> real)
    requires forall k :: WithKey(s, key, k) == WithKey(t, key, k)
    ensures SortBy(s, key) == SortBy(t, key)
  {
    SortedUnique(SortBy(s, key), SortBy(t, key), key);
  }

  predicate DistinctKeys<T>(s: seq<T>, key: T -> real)
  {
    forall i, j :: 0 <= i < j < |s| ==> key(s[i]) != key(s[j])
  }

  /** With pairwise distinct keys every key group has at most one element, so two
      permutations of each other have the same groups. */
  lemma {:induction false} DistinctKeyGroups<T>(s: seq<T>, t: seq<T>, key: T -> real, k: real)
    requires multiset(s) == multiset(t) && DistinctKeys(s, key) && DistinctKeys(t, key)
    ensures WithKey(s, key, k) == WithKey(t, key, k)
  {
    var gs := WithKey(s, key, k);
    var gt := WithKey(t, key, k);
    GroupOfDistinct(s, key, k);
    GroupOfDistinct(t, key, k);
    if |gs| == 1 {
      assert gs[0] in multiset(s);
      assert gs[0] in multiset(t);
      var j :| 0 <= j < |t| && t[j] == gs[0];
      MemberInGroup(t, key, j);
      assert gt == [gs[0]];
    } else if |gt| == 1 {
      assert gt[0] in multiset(t);
      assert gt[0] in multiset(s);
      var j :| 0 <= j < |s| && s[j] == gt[0];
      MemberInGroup(s, key, j);
    }
  }

  /** Under distinct keys a group is empty or a single element of s. */
  lemma {:induction false} GroupOfDistinct<T>(s: seq<T>, key: T -> real, k: real)
    requires DistinctKeys(s, key)
    ensures |WithKey(s, key, k)| <= 1
    ensures |WithKey(s, key, k)| == 1 ==> WithKey(s, key, k)[0] in s
  {
    if |s| > 0 {
      GroupOfDistinct(s[1..], key, k);
      if key(s[0]) == k {
        WithKeyBelowOrAbove(s[1..], key, k);
      } else if |WithKey(s[1..], key, k)| == 1 {
        assert WithKey(s, key, k) == WithKey(s[1..], key, k);
      }
    }
  }

  lemma {:induction false} WithKeyBelowOrAbove<T>(s: seq<T>, key: T -> real, k: real)
    requires forall i :: 0 <= i < |s| ==> key(s[i]) != k
    ensures WithKey(s, key, k) == []
  {
    if |s| > 0 {
      WithKeyBelowOrAbove(s[1..], key, k);
    }
  }

  /** Under distinct keys an element is the whole group of its key. */
  lemma {:induction false} MemberInGroup<T>(s: seq<T>, key: T -> real, j: nat)
    requires DistinctKeys(s, key) && j < |s|
    ensures WithKey(s, key, key(s[j])) == [s[j]]
  {
    var k := key(s[j]);
    assert s == s[..j] + [s[j]] + s[j + 1..];
    WithKeyAppend(s[..j] + [s[j]], s[j + 1..], key, k);
    WithKeyAppend(s[..j], [s[j]], key, k);
    WithKeyBelowOrAbove(s[..j], key, k);
    WithKeyBelowOrAbove(s[j + 1..], key, k);
  }

  /** With distinct keys, sorting any permutation of s gives the same sequence. */
  lemma SortPermutationInvariant<T>(s: seq<T>, t: seq<T>, key: T -> real)
    requires multiset(s) == multiset(t) && DistinctKeys(s, key) && DistinctKeys(t, key)
    ensures SortBy(s, key) == SortBy(t, key)
  {
    forall k ensures WithKey(s, key, k) == WithKey(t, key, k) {
      DistinctKeyGroups(s, t, key, k);
    }
    SortByKeyGroups(s, t, key);
  }
}
