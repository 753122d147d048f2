/** Runs of characters written into a buffer. */
module Buffers {

  /** now is was, with bytes in place of what was at `from`. */
  predicate Wrote(was: seq<int>, now: seq<int>, from: nat, bytes: seq<int>) {
    && |now| == |was| && from + |bytes| <= |was|
    && now[..from] == was[..from] && now[from..from + |bytes|] == bytes
    && forall i | from + |bytes| <= i < |was| :: now[i] == was[i]
  }

  lemma NothingWritten(was: seq<int>, from: nat)
    requires from <= |was|
    ensures Wrote(was, was, from, [])
  {
  }

  /** A run of bytes, and then another right after it. */
  lemma WroteMore(was: seq<int>, mid: seq<int>, now: seq<int>, from: nat, done: seq<int>, bytes: seq<int>)
    requires Wrote(was, mid, from, done) && Wrote(mid, now, from + |done|, bytes)
    ensures Wrote(was, now, from, done + bytes)
  {
    var m, n := from + |done|, from + |done| + |bytes|;
    assert now[..from] == now[..m][..from];
    assert mid[..from] == mid[..m][..from];
    assert now[from..n] == now[..m][from..] + now[m..n];
    assert mid[from..m] == mid[..m][from..];
  }
}
