/** Writing lines with putline and reading them back with getline('\n'). */
module StreamRoundTrip {
  import opened StreamSpec
  import opened Streams

  function Encode(lines: seq<Text>): Text {
    if lines == [] then [] else lines[0] + ['\n'] + Encode(lines[1..])
  }

  /** What `n` calls of getline(eol) return on a byte sequence. */
  function Decode(st: Text, n: nat): (lines: seq<Text>)
    ensures |lines| <= n
  {
    if n == 0 then []
    else
      var i := Find(st, '\n');
      if i == |st| then [] else [st[..i]] + Decode(st[i + 1..], n - 1)
  }

  ghost predicate NewlineFree(lines: seq<Text>) {
    forall l :: l in lines ==> '\n' !in l
  }

  lemma {:induction false} DecodeEncode(lines: seq<Text>)
    requires NewlineFree(lines)
    ensures Decode(Encode(lines), |lines|) == lines
  {
    if lines != [] {
      var st, l := Encode(lines), lines[0];
      assert st[..|l|] == l && st[|l|] == '\n' && st[|l| + 1..] == Encode(lines[1..]);
      FindIs(st, '\n', |l|);
      DecodeEncode(lines[1..]);
    }
  }

  lemma {:induction false} EncodeAppend(lines: seq<Text>, l: Text)
    ensures Encode(lines + [l]) == Encode(lines) + l + ['\n']
  {
    if lines == [] {
      assert lines + [l] == [l] && Encode([l][1..]) == [];
    } else {
      EncodeAppend(lines[1..], l);
      assert (lines + [l])[1..] == lines[1..] + [l];
    }
  }

  method PutLines(w: BorrowedStream, lines: seq<Text>) returns (r: Outcome)
    requires w.Valid()
    modifies w`mOutBuffer, w`mOutIndex, w.mOutBuffer, w.mRaw`sink, w.mRaw`replies, w.mRaw`faults, w.mRaw`flushed
    ensures WriteTold(old(w.mRaw.faults), w.mRaw.faults, r)
    ensures w.Valid() && (w.mOutBuffer == old(w.mOutBuffer) || fresh(w.mOutBuffer))
    ensures r.Pass? && old(w.Pending()) == [] ==> w.mRaw.sink == old(w.mRaw.sink) + Encode(lines) && w.Pending() == []
  {
    for k := 0 to |lines|
      invariant w.Valid() && (w.mOutBuffer == old(w.mOutBuffer) || fresh(w.mOutBuffer))
      invariant w.mRaw.faults == old(w.mRaw.faults)
      invariant old(w.Pending()) == [] ==> w.Pending() == [] && w.mRaw.sink == old(w.mRaw.sink) + Encode(lines[..k])
    {
      r := w.putline(lines[k]);
      if r.Fail? { return; }
      EncodeAppend(lines[..k], lines[k]);
      assert lines[..k + 1] == lines[..k] + [lines[k]];
    }
    assert lines[..|lines|] == lines;
    r := Pass;
  }

  lemma DecodeStep(st: Text, n: nat, line: Text)
    requires n > 0 && line <= st && '\n' !in line && |line| < |st| && st[|line|] == '\n'
    ensures Decode(st, n) == [line] + Decode(st[|line| + 1..], n - 1)
  {
    assert st[..|line|] == line;
    FindIs(st, '\n', |line|);
  }

  lemma DecodeEnds(st: Text, n: nat)
    requires '\n' !in st
    ensures Decode(st, n) == []
  {
  }

  lemma DecodeNone(st: Text)
    ensures Decode(st, 0) == []
  {
  }

  method GetLines(s: BorrowedStream, n: nat) returns (r: Outcome, lines: seq<Text>)
    requires s.Valid()
    modifies s`mInBuffer, s`mInIndex, s`mInEnd, s.mInBuffer, s.mRaw`rest, s.mRaw`faults
    ensures ReadTold(old(s.mRaw.faults), s.mRaw.faults, r)
    ensures s.Valid() && (s.mInBuffer == old(s.mInBuffer) || fresh(s.mInBuffer))
    ensures r.Pass? ==> lines == Decode(old(s.Input()), n) && |lines| == n
    ensures r == Fail(Eof) ==> lines == Decode(old(s.Input()), n) && |lines| < n
    decreases n
  {
    hide Decode, BorrowedStream.Unread, BorrowedStream.Input;
    if n == 0 {
      DecodeNone(s.Input());
      return Pass, [];
    }
    ghost var now := s.Input();
    var line: Text;
    r, line := s.getline('\n');
    if r.Fail? {
      if r.error.Eof? {
        assert line == now;
        DecodeEnds(now, n);
      }
      return r, [];
    }
    DecodeStep(now, n, line);
    r, lines := GetLines(s, n - 1);
    lines := [line] + lines;
  }

  /** The round trip, through two buffered streams whose devices split the data at will: if neither device
      fails, every line is written and read, and the lines come back. `failed` lists the failures of the
      receiving device. */
  method WriteThenRead(lines: seq<Text>, sender: RawStream)
      returns (written: Outcome, read: Outcome, back: seq<Text>, failed: seq<Error>)
    requires NewlineFree(lines) && sender.sink == []
    modifies sender
    ensures written.Pass? <==> sender.faults == old(sender.faults)
    ensures written.Pass? ==>
              if failed == [] then read.Pass? && back == lines else read.Fail? && failed == [read.error]
  {
    read, back, failed := Pass, [], [];
    var w := new BorrowedStream(sender);
    written := PutLines(w, lines);
    if written.Fail? { return; }
    assert sender.sink == Encode(lines);
    var received := new RawStream(sender.sink);
    var s := new BorrowedStream(received);
    assert s.Input() == Encode(lines);
    DecodeEncode(lines);
    read, back := GetLines(s, |lines|);
    failed := received.faults;
  }
}
