/** What a second flush does after one that failed. */
module StreamRetry {
  import opened StreamSpec
  import opened Streams

  /** A failed flush leaves all of the pending bytes pending unless it has sent them all, so the next one
      sends again the `k` bytes that the first had already sent. */
  method FlushAgain(w: BorrowedStream) returns (first: Outcome, second: Outcome, ghost k: nat)
    requires w.Valid()
    modifies w`mOutBuffer, w`mOutIndex, w.mRaw`sink, w.mRaw`replies, w.mRaw`faults, w.mRaw`flushed
    ensures first.Fail? && second.Fail? ==> w.mRaw.faults == old(w.mRaw.faults) + [first.error, second.error]
    ensures w.Valid() && k <= |old(w.Pending())|
    ensures first.Fail? && second.Pass? && k < |old(w.Pending())| ==>
              w.mRaw.sink == old(w.mRaw.sink) + old(w.Pending())[..k] + old(w.Pending())
    ensures first.Fail? && second.Pass? && k == |old(w.Pending())| ==> w.mRaw.sink == old(w.Output())
    ensures first.Pass? && second.Pass? ==> w.mRaw.sink == old(w.Output())
  {
    ghost var pending, sink := w.Pending(), w.mRaw.sink;
    first := w.flush();
    ghost var mid := w.mRaw.sink;
    k := |mid| - |sink|;
    SentSoFar(sink, mid, pending);
    second := w.flush();
    if k < |pending| {
      assert mid != sink + pending;
    }
  }

  lemma SentSoFar(sink: Text, mid: Text, pending: Text)
    requires sink <= mid <= sink + pending
    ensures mid == sink + pending[..|mid| - |sink|]
    ensures |mid| - |sink| == |pending| ==> mid == sink + pending
  {
    var all := sink + pending;
    assert mid == all[..|mid|];
  }

  /** A device that takes one byte, fails, and then takes what it is given, receives that byte twice. */
  method SendsTwice() returns (raw: RawStream, first: Outcome, second: Outcome)
    ensures fresh(raw) && first.Fail?
    ensures raw.sink == "aab"
  {
    raw := new RawStream([]);
    raw.replies := [Take(1), Refuse(5), Take(2)];
    Script();
    var w := new BorrowedStream(raw);
    var n := w.trywrite("ab");
    assert w.Pending() == "ab"[..n] && |w.Pending()| == n;
    assert n == 2 && w.Pending() == "ab";
    first := w.flush();
    assert raw.sink == "a" && w.Pending() == "ab" && raw.replies == [Take(2)];
    second := w.flush();
    assert raw.sink == "a" + "ab"[..2];
    Thrice();
  }

  lemma Thrice()
    ensures "a" + "ab"[..2] == "aab"
  {
  }

  lemma Script()
    ensures Drained(2, [Take(1), Refuse(5), Take(2)]) == Drain(1, false, [Take(2)])
    ensures Drained(2, [Take(2)]) == Drain(2, true, [])
  {
    assert [Take(1), Refuse(5), Take(2)][1..] == [Refuse(5), Take(2)];
    assert [Refuse(5), Take(2)][1..] == [Take(2)];
    assert Drained(1, [Refuse(5), Take(2)]) == Drain(0, false, [Take(2)]);
  }
}
