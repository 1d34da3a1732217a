/** Canonical event timestamps: strictly increasing per symbol, never before the receive time. */
module Canon {
  import opened Wrappers

  function Next(last: Option<int>, recv: int): int {
    if last.None? || recv > last.value then recv else last.value + 1
  }

  /** The canonical timestamps of a sequence of receive times. */
  function Stamps(recvs: seq<int>): (cs: seq<int>)
    ensures |cs| == |recvs|
  {
    if recvs == [] then []
    else
      var cs := Stamps(recvs[..|recvs| - 1]);
      cs + [Next(if cs == [] then None else Some(cs[|cs| - 1]), recvs[|recvs| - 1])]
  }

  ghost predicate Increasing(cs: seq<int>) { forall i, j :: 0 <= i < j < |cs| ==> cs[i] < cs[j] }

  ghost predicate Dominates(cs: seq<int>, recvs: seq<int>)
    requires |cs| == |recvs|
  {
    forall i :: 0 <= i < |cs| ==> cs[i] >= recvs[i]
  }

  lemma {:induction false} StampsIncrease(recvs: seq<int>)
    ensures Increasing(Stamps(recvs)) && Dominates(Stamps(recvs), recvs)
  {
    if recvs != [] {
      StampsIncrease(recvs[..|recvs| - 1]);
    }
  }

  /** The stamps are the least strictly increasing sequence that dominates the receive times. */
  lemma {:induction false} StampsAreLeast(recvs: seq<int>, cs: seq<int>)
    requires |cs| == |recvs|
    ensures Increasing(Stamps(recvs)) && Dominates(Stamps(recvs), recvs)
    ensures Increasing(cs) && Dominates(cs, recvs) ==> Dominates(cs, Stamps(recvs))
  {
    StampsIncrease(recvs);
    if recvs != [] && Increasing(cs) && Dominates(cs, recvs) {
      var n := |recvs| - 1;
      var before := Stamps(recvs[..n]);
      assert Increasing(cs[..n]) && Dominates(cs[..n], recvs[..n]);
      StampsAreLeast(recvs[..n], cs[..n]);
      assert n > 0 ==> cs[n] > cs[n - 1] >= before[n - 1];
      assert cs[n] >= Stamps(recvs)[n];
    }
  }

  /** Stamp `n` is the maximum over i <= n of recv_i + (n - i). */
  lemma {:induction false} StampIsMaximum(recvs: seq<int>, n: nat)
    requires n < |recvs|
    ensures forall i :: 0 <= i <= n ==> recvs[i] + (n - i) <= Stamps(recvs)[n]
    ensures exists i :: 0 <= i <= n && recvs[i] + (n - i) == Stamps(recvs)[n]
  {
    var last := |recvs| - 1;
    if n < last {
      StampIsMaximum(recvs[..last], n);
    } else if n > 0 {
      StampIsMaximum(recvs[..last], n - 1);
      var i :| 0 <= i <= n - 1 && recvs[..last][i] + (n - 1 - i) == Stamps(recvs[..last])[n - 1];
      if Stamps(recvs)[n] == recvs[n] {
        assert recvs[n] + (n - n) == Stamps(recvs)[n];
      } else {
        assert recvs[i] + (n - i) == Stamps(recvs)[n];
      }
    } else {
      assert recvs[0] + (n - 0) == Stamps(recvs)[n];
    }
  }
}
