/**
 * Grouping a sequence by key, the way a dictionary of lists does: keys keep their order of first
 * appearance, members keep theirs, and an element without a key is dropped.
 */
module Groups {
  import opened Wrappers
  import opened Sums

  /** The elements with key `k`, in order. */
  function Select<T, K(==)>(s: seq<T>, key: T -> Option<K>, k: K): seq<T> {
    if s == [] then []
    else
      var n := |s| - 1;
      if key(s[n]) == Some(k) then Select(s[..n], key, k) + [s[n]] else Select(s[..n], key, k)
  }

  /** The keys present, each once, in order of first appearance. */
  function Keys<T, K(==)>(s: seq<T>, key: T -> Option<K>): seq<K> {
    if s == [] then []
    else
      var n := |s| - 1;
      var ks := Keys(s[..n], key);
      if key(s[n]).None? || key(s[n]).value in ks then ks else ks + [key(s[n]).value]
  }

  lemma GroupStep<T, K>(s: seq<T>, x: T, key: T -> Option<K>, k: K)
    ensures Select(s + [x], key, k) == if key(x) == Some(k) then Select(s, key, k) + [x] else Select(s, key, k)
    ensures Keys(s + [x], key) ==
            if key(x).None? || key(x).value in Keys(s, key) then Keys(s, key) else Keys(s, key) + [key(x).value]
  {
    assert (s + [x])[..|s|] == s;
  }

  lemma {:induction false} Members<T, K>(s: seq<T>, key: T -> Option<K>, k: K)
    ensures forall x :: x in Select(s, key, k) <==> x in s && key(x) == Some(k)
    ensures k in Keys(s, key) <==> Select(s, key, k) != []
  {
    if s != [] {
      var n := |s| - 1;
      Members(s[..n], key, k);
      assert forall x :: x in s <==> x in s[..n] || x == s[n];
    }
  }

  lemma {:induction false} KeysAreDistinct<T, K>(s: seq<T>, key: T -> Option<K>)
    ensures Distinct(Keys(s, key))
  {
    if s != [] {
      KeysAreDistinct(s[..|s| - 1], key);
    }
  }

  function GroupTotal<T, K(==)>(s: seq<T>, key: T -> Option<K>, v: T -> real): K -> real {
    k => Sum(Select(s, key, k), v)
  }

  /** Any quantity sums to the same total over groups as over the elements that have a key. */
  lemma {:induction false} GroupingConserves<T, K>(s: seq<T>, key: T -> Option<K>, v: T -> real)
    requires forall x :: x in s && key(x).None? ==> v(x) == 0.0
    ensures Sum(Keys(s, key), GroupTotal(s, key, v)) == Sum(s, v)
  {
    if s == [] {
      assert Keys(s, key) == [];
    } else {
      var before, x := s[..|s| - 1], s[|s| - 1];
      assert s == before + [x] && x in s && forall y :: y in before ==> y in s;
      GroupingConserves(before, key, v);
      GroupTotalsStep(before, x, key, v);
      SumAppend(before, x, v);
    }
  }

  lemma GroupTotalsStep<T, K>(before: seq<T>, x: T, key: T -> Option<K>, v: T -> real)
    requires key(x).None? ==> v(x) == 0.0
    ensures Sum(Keys(before + [x], key), GroupTotal(before + [x], key, v))
            == Sum(Keys(before, key), GroupTotal(before, key, v)) + v(x)
  {
    var ks, was, now := Keys(before, key), GroupTotal(before, key, v), GroupTotal(before + [x], key, v);
    forall k | key(x) != Some(k) ensures now(k) == was(k) {
      GroupStep(before, x, key, k);
    }
    if key(x).None? {
      KeysOfDropped(before, x, key);
      SumCong(ks, was, now);
    } else {
      var k := key(x).value;
      GroupStep(before, x, key, k);
      SumAppend(Select(before, key, k), x, v);
      Members(before, key, k);
      KeysAreDistinct(before, key);
      if k in ks {
        SumChangedOnce(ks, k, was, now);
      } else {
        SumCong(ks, was, now);
        SumAppend(ks, k, now);
      }
    }
  }

  lemma KeysOfDropped<T, K>(s: seq<T>, x: T, key: T -> Option<K>)
    requires key(x).None?
    ensures Keys(s + [x], key) == Keys(s, key)
  {
    assert (s + [x])[..|s|] == s;
  }

  lemma {:induction false} KeyIffPresent<T, K>(s: seq<T>, key: T -> Option<K>, k: K)
    ensures k in Keys(s, key) <==> exists n :: 0 <= n < |s| && key(s[n]) == Some(k)
  {
    if s != [] {
      var n := |s| - 1;
      KeyIffPresent(s[..n], key, k);
      assert forall m :: 0 <= m < n ==> s[m] == s[..n][m];
      assert key(s[n]) == key(s[n]);
    }
  }

  /** Of two keys, the earlier one has an element before any of the later one's. */
  lemma {:induction false} KeysInOrder<T, K>(s: seq<T>, key: T -> Option<K>, i: nat, j: nat)
    requires i < j < |Keys(s, key)|
    ensures exists n :: 0 <= n < |s| && key(s[n]) == Some(Keys(s, key)[i])
                        && forall m :: 0 <= m <= n ==> key(s[m]) != Some(Keys(s, key)[j])
  {
    var before, ks := s[..|s| - 1], Keys(s[..|s| - 1], key);
    if j < |ks| {
      KeysInOrder(before, key, i, j);
      var n :| 0 <= n < |before| && key(before[n]) == Some(ks[i])
               && forall m :: 0 <= m <= n ==> key(before[m]) != Some(ks[j]);
      assert key(s[n]) == Some(ks[i]) && forall m :: 0 <= m <= n ==> s[m] == before[m];
    } else {
      var first, last := ks[i], Keys(s, key)[j];
      KeyIffPresent(before, key, first);
      KeyIffPresent(before, key, last);
      var n :| 0 <= n < |before| && key(before[n]) == Some(first);
      assert key(s[n]) == Some(first) && forall m :: 0 <= m <= n ==> s[m] == before[m];
    }
  }
}
