/** The buffered stream over a raw stream that reads and writes in chunks of its own choosing. */
module Streams {
  import opened StreamSpec

  const STREAM_BUFFER_SIZE: nat := 8192

  datatype Error = Eof | Io(code: int)

  datatype Outcome = Pass | Fail(error: Error)

  datatype Result<+T> = Ok(value: T) | Err(error: Error)

  /** How the device answers one write: not at all, or by taking up to so many bytes. */
  datatype Reply = Refuse(code: int) | Take(n: nat)

  /** What a failed write leaves in the device's record; one that takes nothing counts as the end of the data. */
  function Fault(answer: Result<nat>): seq<Error> {
    match answer
    case Err(e) => [e]
    case Ok(n) => if n == 0 then [Eof] else []
  }

  /** A reading call fails with the error that the device has answered, or at the end of the data. */
  predicate ReadTold(before: seq<Error>, now: seq<Error>, r: Outcome) {
    now == if r.Fail? && r.error.Io? then before + [r.error] else before
  }

  /** A writing call fails exactly when the device has failed, and with its error. */
  predicate WriteTold(before: seq<Error>, now: seq<Error>, r: Outcome) {
    now == if r.Fail? then before + [r.error] else before
  }

  function Ending<T>(r: Result<T>): Outcome {
    if r.Err? then Fail(r.error) else Pass
  }

  function Answer(reply: Reply, size: nat): Result<nat> {
    match reply
    case Refuse(code) => Err(Io(code))
    case Take(n) => Ok(if n < size then n else size)
  }

  /** The device: `rest` has not been read yet, `sink` has been written. Each call may fail, and decides
      by itself how much of the request it serves. `replies` settles its answers to the next writes, as far as
      it goes; behind that it is free. `faults` records its failures, and `flushed` is what had been written when it
      was last flushed. */
  class RawStream {
    var rest: Text
    var sink: Text
    var replies: seq<Reply>
    var faults: seq<Error>
    var flushed: Text

    constructor (rest: Text)
      ensures this.rest == rest && sink == [] && replies == [] && faults == [] && flushed == []
    {
      this.rest, sink, replies, faults, flushed := rest, [], [], [], [];
    }

    /** Reads into buf[lo..]; zero bytes mean the end of the data, or an empty request. */
    method raw_read(buf: array<char>, lo: nat) returns (r: Result<nat>)
      requires lo <= buf.Length
      modifies this`rest, this`faults, buf
      ensures faults == if r.Err? then old(faults) + [r.error] else old(faults)
      ensures r.Err? ==> r.error.Io? && rest == old(rest) && buf[..] == old(buf[..])
      ensures r.Ok? ==>
                && r.value <= buf.Length - lo && r.value <= |old(rest)|
                && (r.value == 0 ==> lo == buf.Length || old(rest) == [])
                && rest == old(rest)[r.value..]
                && buf[..] == old(buf[..])[..lo] + old(rest)[..r.value] + old(buf[..])[lo + r.value..]
    {
      var failed: bool, wish: nat := *, *;
      if failed {
        faults := faults + [Io(5)];
        return Err(Io(5));
      }
      var n := buf.Length - lo;
      if |rest| < n { n := |rest|; }
      if 0 < wish < n { n := wish; }
      for i := 0 to n
        invariant n <= buf.Length - lo && n <= |rest| && rest == old(rest) && faults == old(faults)
        invariant buf[..lo + i] == old(buf[..lo]) + rest[..i]
        invariant buf[lo + i..] == old(buf[lo + i..])
      {
        buf[lo + i] := rest[i];
      }
      assert buf[..] == buf[..lo + n] + buf[lo + n..];
      assert old(buf[..])[..lo] == old(buf[..lo]) && old(buf[..])[lo + n..] == old(buf[lo + n..]);
      rest := rest[n..];
      return Ok(n);
    }

    method raw_write(data: Text) returns (r: Result<nat>)
      modifies this`sink, this`replies, this`faults
      ensures faults == old(faults) + Fault(r)
      ensures r.Err? ==> r.error.Io? && sink == old(sink)
      ensures r.Ok? ==> r.value <= |data| && sink == old(sink) + data[..r.value]
      ensures old(replies) == [] ==> replies == []
      ensures old(replies) != [] ==> r == Answer(old(replies)[0], |data|) && replies == old(replies)[1..]
    {
      var reply: Reply := *;
      if replies != [] {
        reply, replies := replies[0], replies[1..];
      }
      r := Answer(reply, |data|);
      faults := faults + Fault(r);
      if r.Ok? {
        sink := sink + data[..r.value];
      }
    }

    method raw_flush() returns (r: Outcome)
      modifies this`faults, this`flushed
      ensures WriteTold(old(faults), faults, r) && (r.Fail? ==> r.error.Io?)
      ensures flushed == if r.Pass? then sink else old(flushed)
    {
      var failed: bool := *;
      if failed {
        faults := faults + [Io(5)];
        return Fail(Io(5));
      }
      flushed := sink;
      return Pass;
    }
  }

  /** What becomes of a write of `size` bytes, retried until the device fails, takes nothing or has taken
      them all: how many it took in all, or Unsettled where the replies leave that open. */
  datatype Drain = Drain(sent: nat, done: bool, left: seq<Reply>) | Unsettled

  function Behind(before: nat, d: Drain): Drain {
    match d
    case Drain(sent, done, left) => Drain(before + sent, done, left)
    case Unsettled => Unsettled
  }

  function Drained(size: nat, replies: seq<Reply>): (d: Drain)
    requires size > 0
    ensures d.Drain? ==> d.sent <= size && (d.done <==> d.sent == size)
  {
    if replies == [] then Unsettled
    else
      match Answer(replies[0], size)
      case Err(_) => Drain(0, false, replies[1..])
      case Ok(n) =>
        if n == 0 then Drain(0, false, replies[1..])
        else if n == size then Drain(size, true, replies[1..])
        else Behind(n, Drained(size - n, replies[1..]))
  }

  /** After an answer to a write of the last `size` of `total` bytes: what was settled at first still is. */
  ghost predicate Settled(total: nat, first: Drain, size: nat, answer: Result<nat>, left: seq<Reply>) {
    && 0 < size <= total
    && (first.Drain? ==>
          match answer
          case Err(_) => first == Drain(total - size, false, left)
          case Ok(n) =>
            if n == 0 then first == Drain(total - size, false, left)
            else if n >= size then first == Drain(total, true, left)
            else first == Behind(total - size + n, Drained(size - n, left)))
  }

  function Taken(answer: Result<nat>): nat {
    if answer.Ok? then answer.value else 0
  }

  lemma SettledAtFirst(total: nat, replies: seq<Reply>, answer: Result<nat>, left: seq<Reply>)
    requires total > 0
    requires replies != [] ==> answer == Answer(replies[0], total) && left == replies[1..]
    ensures Settled(total, Drained(total, replies), total, answer, left)
  {
  }

  lemma SettledNext(total: nat, first: Drain, size: nat, n: nat, replies: seq<Reply>, answer: Result<nat>,
      left: seq<Reply>)
    requires 0 < n < size && Settled(total, first, size, Ok(n), replies)
    requires replies != [] ==> answer == Answer(replies[0], size - n) && left == replies[1..]
    ensures Settled(total, first, size - n, answer, left)
  {
  }

  lemma SettledAtLast(total: nat, first: Drain, size: nat, answer: Result<nat>, left: seq<Reply>, sent: nat)
    requires Settled(total, first, size, answer, left)
    requires answer.Ok? ==> answer.value == 0 || answer.value == size
    requires sent == total - size + Taken(answer)
    ensures first.Drain? ==> first == Drain(sent, sent == total, left)
  {
  }

  /** An array of length zero stands for a buffer that has not been allocated. */
  class BorrowedStream {
    var mInBuffer: array<char>
    var mInIndex: nat
    var mInEnd: nat
    var mOutBuffer: array<char>
    var mOutIndex: nat
    const mRaw: RawStream

    ghost predicate Valid()
      reads this
    {
      mInIndex <= mInEnd <= mInBuffer.Length && mOutIndex <= mOutBuffer.Length && mInBuffer != mOutBuffer
    }

    /** The bytes read from the device and not consumed. */
    ghost function Unread(): Text
      requires mInIndex <= mInEnd <= mInBuffer.Length
      reads this`mInBuffer, this`mInIndex, this`mInEnd, mInBuffer
    {
      mInBuffer[mInIndex..mInEnd]
    }

    /** The stream as its reader sees it: everything not yet consumed. */
    ghost function Input(): Text
      requires mInIndex <= mInEnd <= mInBuffer.Length
      reads this`mInBuffer, this`mInIndex, this`mInEnd, mInBuffer, mRaw`rest
    {
      Unread() + mRaw.rest
    }

    ghost function Pending(): Text
      requires mOutIndex <= mOutBuffer.Length
      reads this`mOutBuffer, this`mOutIndex, mOutBuffer
    {
      mOutBuffer[..mOutIndex]
    }

    /** The stream as its writer sees it: everything sent, then everything put. */
    ghost function Output(): Text
      requires mOutIndex <= mOutBuffer.Length
      reads this`mOutBuffer, this`mOutIndex, mOutBuffer, mRaw`sink
    {
      mRaw.sink + Pending()
    }

    constructor (raw: RawStream)
      ensures Valid() && mRaw == raw && Unread() == [] && Pending() == []
      ensures fresh(mInBuffer) && fresh(mOutBuffer) && mInBuffer.Length == mOutBuffer.Length == 0
    {
      mRaw := raw;
      mInBuffer, mOutBuffer := new char[0], new char[0];
      mInIndex, mInEnd, mOutIndex := 0, 0, 0;
    }

    // ----- reading -----

    predicate bufempty()
      reads this
    {
      mInIndex == mInEnd
    }

    method allocinbuf(size: nat)
      requires Valid() && size > 0
      modifies this`mInBuffer, this`mInIndex, this`mInEnd
      ensures Valid() && mInBuffer.Length > 0 && Unread() == old(Unread())
      ensures old(mInBuffer).Length == 0 ==> mInIndex == 0
      ensures old(mInBuffer).Length > 0 ==> mInIndex == old(mInIndex)
      ensures mInBuffer == old(mInBuffer) || fresh(mInBuffer)
    {
      if mInBuffer.Length == 0 {
        mInBuffer := new char[size];
        mInIndex, mInEnd := 0, 0;
      }
    }

    /** One raw read behind the read position. On success the stream continues with what the device had
        left: bytes still unread are overwritten, so nothing is lost exactly when there were none. */
    method fillbuf() returns (r: Outcome)
      requires Valid()
      modifies this`mInBuffer, this`mInIndex, this`mInEnd, mInBuffer, mRaw`rest, mRaw`faults
      ensures ReadTold(old(mRaw.faults), mRaw.faults, r)
      ensures Valid() && mInIndex == old(mInIndex) && (mInBuffer == old(mInBuffer) || fresh(mInBuffer))
      ensures mInBuffer.Length > 0
      ensures r.Pass? ==> Unread() != [] && Input() == old(mRaw.rest) && |mRaw.rest| < |old(mRaw.rest)|
      ensures r.Fail? ==> Input() == old(Input()) && mRaw.rest == old(mRaw.rest)
      ensures r == Fail(Eof) ==> mRaw.rest == [] || mInIndex == mInBuffer.Length
    {
      hide Unread, Input;
      InputNow();
      allocinbuf(STREAM_BUFFER_SIZE);
      InputNow();
      r := readBehind();
    }

    /** The raw read itself, into a buffer that has been allocated. */
    method readBehind() returns (r: Outcome)
      requires Valid()
      modifies this`mInEnd, mInBuffer, mRaw`rest, mRaw`faults
      ensures ReadTold(old(mRaw.faults), mRaw.faults, r) && Valid()
      ensures r.Pass? ==> Unread() != [] && Input() == old(mRaw.rest) && |mRaw.rest| < |old(mRaw.rest)|
      ensures r.Fail? ==> Input() == old(Input()) && mRaw.rest == old(mRaw.rest)
      ensures r == Fail(Eof) ==> mRaw.rest == [] || mInIndex == mInBuffer.Length
    {
      hide Unread, Input;
      InputNow();
      ghost var before, rest := mInBuffer[..], mRaw.rest;
      var n := mRaw.raw_read(mInBuffer, mInIndex);
      InputNow();
      if n.Err? {
        return Fail(n.error);
      }
      Filled(before, mInBuffer[..], mInIndex, n.value, rest);
      if n.value == 0 {
        return Fail(Eof);
      }
      mInEnd := mInIndex + n.value;
      InputNow();
      return Pass;
    }

    lemma InputNow()
      requires mInIndex <= mInEnd <= mInBuffer.Length
      ensures Unread() == mInBuffer[..][mInIndex..mInEnd] && Input() == Unread() + mRaw.rest
    {
    }

    /** The buffer after a read of `n` bytes behind `lo`. */
    lemma Filled(before: Text, now: Text, lo: nat, n: nat, rest: Text)
      requires n <= |rest| && lo + n <= |before| && now == before[..lo] + rest[..n] + before[lo + n..]
      ensures |now| == |before| && now[lo..lo + n] + rest[n..] == rest && (n == 0 ==> now == before)
    {
    }

    /** The inner loop of getline and dropline: the first eol among the unread bytes, or their end. */
    method scan(eol: char) returns (i: nat)
      requires Valid()
      ensures mInIndex <= i <= mInEnd && eol !in Input()[..i - mInIndex]
      ensures i < mInEnd ==> Input()[i - mInIndex] == eol
    {
      i := mInIndex;
      while i < mInEnd && mInBuffer[i] != eol
        invariant mInIndex <= i <= mInEnd && eol !in mInBuffer[mInIndex..i]
      {
        i := i + 1;
      }
      assert Input()[..i - mInIndex] == mInBuffer[mInIndex..i];
    }

    method seenbuf(n: nat)
      requires Valid() && n <= mInEnd - mInIndex
      modifies this`mInIndex
      ensures Valid() && mInIndex == old(mInIndex) + n && Input() == old(Input())[n..]
    {
      ghost var u := Unread();
      mInIndex := mInIndex + n;
      assert Unread() == u[n..];
    }

    /** Copy out `k` buffered bytes and advance: what every reading operation does with its buffer. */
    method take(k: nat) returns (piece: Text)
      requires Valid() && k <= mInEnd - mInIndex
      modifies this`mInIndex
      ensures Valid() && mInIndex == old(mInIndex) + k
      ensures |piece| == k && piece == old(Input())[..k] && Input() == old(Input())[k..]
    {
      piece := mInBuffer[mInIndex..mInIndex + k];
      assert piece == Unread()[..k];
      seenbuf(k);
    }

    /** The same behind what has been copied out of the stream `all` so far. */
    method takeOnto(text: Text, k: nat, ghost all: Text) returns (more: Text)
      requires Valid() && k <= mInEnd - mInIndex
      requires |text| <= |all| && text == all[..|text|] && Input() == all[|text|..]
      modifies this`mInIndex
      ensures Valid() && mInIndex == old(mInIndex) + k && |more| == |text| + k <= |all|
      ensures more == all[..|more|] && Input() == all[|more|..]
    {
      Slices(all, |text|, k);
      var piece := take(k);
      more := text + piece;
    }

    lemma Slices(all: Text, p: nat, k: nat)
      requires p + k <= |all|
      ensures all[..p] + all[p..][..k] == all[..p + k] && all[p..][k..] == all[p + k..]
    {
    }

    /** The step of every reading loop from one buffer to the next, once the unread bytes are dealt with. */
    method refill() returns (r: Outcome)
      requires Valid()
      modifies this`mInBuffer, this`mInIndex, this`mInEnd, mInBuffer, mRaw`rest, mRaw`faults
      ensures ReadTold(old(mRaw.faults), mRaw.faults, r)
      ensures Valid() && (mInBuffer == old(mInBuffer) || fresh(mInBuffer)) && mInIndex == 0
      ensures Input() == old(mRaw.rest)
      ensures old(mInIndex == mInEnd) ==> Input() == old(Input())
      ensures r.Pass? ==> mInIndex < mInEnd && Unread() != [] && |mRaw.rest| < |old(mRaw.rest)|
      ensures r.Fail? ==> Unread() == [] && mRaw.rest == old(mRaw.rest)
      ensures r == Fail(Eof) ==> Input() == []
    {
      mInEnd, mInIndex := 0, 0;
      r := fillbuf();
    }

    /** What the bytes in the buffer settle about a line of which `n` bytes lie behind: it goes on for `k`
        more of them, and ends there or at the end of the buffer. */
    method pass(eol: char, ghost n: nat, ghost all: Text) returns (k: nat, found: bool)
      requires Valid() && n <= |all| && Input() == all[n..] && eol !in all[..n]
      ensures k <= mInEnd - mInIndex && n + k <= |all| && eol !in all[..n + k]
      ensures found ==> k < mInEnd - mInIndex && n + k < |all| && all[n + k] == eol
      ensures !found ==> k == mInEnd - mInIndex
    {
      var i := scan(eol);
      k, found := i - mInIndex, i < mInEnd;
      Slices(all, n, k);
      NotInEither(eol, all[..n], all[n..][..k]);
    }

    lemma NotInEither(c: char, a: Text, b: Text)
      requires c !in a && c !in b
      ensures c !in a + b
    {
    }

    /** Drop `k` more bytes of the stream `all`, of which `n` are gone. */
    method skip(k: nat, ghost n: nat, ghost all: Text)
      requires Valid() && k <= mInEnd - mInIndex && n <= |all| && Input() == all[n..]
      modifies this`mInIndex
      ensures Valid() && mInIndex == old(mInIndex) + k && n + k <= |all| && Input() == all[n + k..]
    {
      Slices(all, n, k);
      seenbuf(k);
    }

    method getchar() returns (r: Result<char>)
      requires Valid()
      modifies this`mInBuffer, this`mInIndex, this`mInEnd, mInBuffer, mRaw`rest, mRaw`faults
      ensures ReadTold(old(mRaw.faults), mRaw.faults, Ending(r))
      ensures Valid() && (mInBuffer == old(mInBuffer) || fresh(mInBuffer))
      ensures r.Ok? ==> old(Input()) == [r.value] + Input()
      ensures r.Err? ==> Input() == old(Input())
      ensures r == Err(Eof) ==> Input() == []
      ensures mRaw.faults == old(mRaw.faults) ==> (r.Ok? <==> old(Input()) != [])
    {
      hide Unread, Input;
      if bufempty() {
        var f := refill();
        if f.Fail? { return Err(f.error); }
      }
      ghost var all := Input();
      FirstUnread();
      HeadOf(all);
      assert all[0..] == all;
      var c := mInBuffer[mInIndex];
      skip(1, 0, all);
      return Ok(c);
    }

    lemma HeadOf(s: Text)
      requires s != []
      ensures s == [s[0]] + s[1..]
    {
    }

    method peekchar() returns (r: Result<char>)
      requires Valid()
      modifies this`mInBuffer, this`mInIndex, this`mInEnd, mInBuffer, mRaw`rest, mRaw`faults
      ensures ReadTold(old(mRaw.faults), mRaw.faults, Ending(r))
      ensures Valid() && (mInBuffer == old(mInBuffer) || fresh(mInBuffer))
      ensures Input() == old(Input())
      ensures r.Ok? ==> Input() != [] && r.value == Input()[0]
      ensures r == Err(Eof) ==> Input() == []
      ensures mRaw.faults == old(mRaw.faults) ==> (r.Ok? <==> old(Input()) != [])
    {
      hide Unread, Input;
      if bufempty() {
        var f := refill();
        if f.Fail? { return Err(f.error); }
      }
      FirstUnread();
      return Ok(mInBuffer[mInIndex]);
    }

    /** getline(s, eol) for a character; `text` is what the call appends to s. */
    method getline(eol: char) returns (r: Outcome, text: Text)
      requires Valid()
      modifies this`mInBuffer, this`mInIndex, this`mInEnd, mInBuffer, mRaw`rest, mRaw`faults
      ensures ReadTold(old(mRaw.faults), mRaw.faults, r)
      ensures Valid() && (mInBuffer == old(mInBuffer) || fresh(mInBuffer))
      ensures text <= old(Input()) && eol !in text
      ensures r.Pass? ==>
                && |text| < |old(Input())| && old(Input())[|text|] == eol
                && Input() == old(Input())[|text| + 1..]
      ensures r.Fail? ==> Input() == old(Input())[|text|..]
      ensures r == Fail(Eof) ==> Input() == []
      ensures mRaw.faults == old(mRaw.faults) ==> (r.Pass? <==> eol in old(Input()))
    {
      hide Unread, Input;
      text := [];
      ghost var all := Input();
      while true
        invariant Valid() && (mInBuffer == old(mInBuffer) || fresh(mInBuffer)) && mRaw.faults == old(mRaw.faults)
        invariant |text| <= |all| && text == all[..|text|] && Input() == all[|text|..] && eol !in text
        decreases |mRaw.rest|
      {
        var k, found := pass(eol, |text|, all);
        text := takeOnto(text, k, all);
        if found {
          skip(1, |text|, all);
          return Pass, text;
        }
        r := refill();
        if r.Fail? {
          return;
        }
      }
    }

    /** dropline(eol) for a character: `n` bytes before the delimiter are discarded. */
    method dropline(eol: char) returns (r: Outcome, ghost n: nat)
      requires Valid()
      modifies this`mInBuffer, this`mInIndex, this`mInEnd, mInBuffer, mRaw`rest, mRaw`faults
      ensures ReadTold(old(mRaw.faults), mRaw.faults, r)
      ensures Valid() && (mInBuffer == old(mInBuffer) || fresh(mInBuffer))
      ensures n <= |old(Input())| && eol !in old(Input())[..n]
      ensures r.Pass? ==> n < |old(Input())| && old(Input())[n] == eol && Input() == old(Input())[n + 1..]
      ensures r.Fail? ==> Input() == old(Input())[n..]
      ensures r == Fail(Eof) ==> Input() == []
      ensures mRaw.faults == old(mRaw.faults) ==> (r.Pass? <==> eol in old(Input()))
    {
      hide Unread, Input;
      n := 0;
      ghost var all := Input();
      while true
        invariant Valid() && (mInBuffer == old(mInBuffer) || fresh(mInBuffer)) && mRaw.faults == old(mRaw.faults)
        invariant n <= |all| && Input() == all[n..] && eol !in all[..n]
        decreases |mRaw.rest|
      {
        var k, found := pass(eol, n, all);
        skip(k, n, all);
        n := n + k;
        if found {
          skip(1, n, all);
          return Pass, n;
        }
        r := refill();
        if r.Fail? {
          return;
        }
      }
    }

    lemma OneMore(eol: Text, i: nat)
      requires 1 <= i < |eol|
      ensures eol[1..i + 1] == eol[1..i] + [eol[i]]
    {
    }

    /** The for loop of the string versions: after the delimiter's first byte, match the others one by
        one. `i` bytes of the delimiter have been matched in all. */
    method matchRest(eol: Text) returns (r: Outcome, i: nat)
      requires Valid() && eol != []
      modifies this`mInBuffer, this`mInIndex, this`mInEnd, mInBuffer, mRaw`rest, mRaw`faults
      ensures ReadTold(old(mRaw.faults), mRaw.faults, r)
      ensures Valid() && (mInBuffer == old(mInBuffer) || fresh(mInBuffer))
      ensures 1 <= i <= |eol| && i - 1 <= |old(Input())| && eol[1..i] == old(Input())[..i - 1]
      ensures Input() == old(Input())[i - 1..]
      ensures r.Pass? && i < |eol| ==> Input() != [] && Input()[0] != eol[i]
      ensures r.Fail? ==> i < |eol|
      ensures r == Fail(Eof) ==> Input() == []
    {
      hide Unread, Input;
      i := 1;
      ghost var all := Input();
      assert eol[1..1] == all[..0] && all[0..] == all;
      while i < |eol|
        invariant Valid() && (mInBuffer == old(mInBuffer) || fresh(mInBuffer)) && mRaw.faults == old(mRaw.faults)
        invariant 1 <= i <= |eol| && i - 1 <= |all| && eol[1..i] == all[..i - 1] && Input() == all[i - 1..]
        decreases |eol| - i
      {
        var same: bool;
        r, same := matchOne(eol, i, all);
        if r.Fail? || !same {
          return;
        }
        i := i + 1;
      }
      return Pass, i;
    }

    /** One round of that loop: the next byte is the delimiter's i-th and is consumed, or it stays. */
    method matchOne(eol: Text, i: nat, ghost all: Text) returns (r: Outcome, same: bool)
      requires Valid() && 1 <= i < |eol| && i - 1 <= |all| && eol[1..i] == all[..i - 1] && Input() == all[i - 1..]
      modifies this`mInBuffer, this`mInIndex, this`mInEnd, mInBuffer, mRaw`rest, mRaw`faults
      ensures ReadTold(old(mRaw.faults), mRaw.faults, r)
      ensures Valid() && (mInBuffer == old(mInBuffer) || fresh(mInBuffer))
      ensures r.Pass? && same ==> i <= |all| && eol[1..i + 1] == all[..i] && Input() == all[i..]
      ensures r.Pass? && !same ==> Input() == all[i - 1..] && Input() != [] && Input()[0] != eol[i]
      ensures r.Fail? ==> Input() == all[i - 1..]
      ensures r == Fail(Eof) ==> Input() == []
    {
      r, same := Pass, false;
      if bufempty() {
        r := refill();
        if r.Fail? {
          return;
        }
      }
      FirstUnread();
      if eol[i] == mInBuffer[mInIndex] {
        same := true;
        OneMore(eol, i);
        OneMoreOf(all, i - 1);
        skip(1, i - 1, all);
      }
    }

    lemma FirstUnread()
      requires Valid() && mInIndex < mInEnd
      ensures Input() != [] && Input()[0] == mInBuffer[mInIndex]
    {
    }

    lemma OneMoreOf(all: Text, p: nat)
      requires p < |all|
      ensures all[..p + 1] == all[..p] + [all[p]] && all[p..][0] == all[p]
    {
    }

    /** Where the scanner stands after one more round: what it will find from here, with the text it
        already has in front, is what it finds in the whole. */
    ghost predicate Leads(eol: Text, all: Text, text: Text, now: Text)
      requires eol != []
    {
      match ScanLine(eol, now)
      case Found(t, rest) => ScanLine(eol, all) == Found(text + t, rest)
      case Missing => ScanLine(eol, all) == Missing
    }

    /** The scanner has `text` of the stream `all` behind it and goes on with `rest`. */
    ghost predicate Behind(eol: Text, all: Text, text: Text, rest: Text)
      requires eol != []
    {
      Leads(eol, all, text, rest) && all == text + rest
    }

    /** How a call for a line of the stream `all` ends: what it has appended, and what is left. On success
        both are the scanner's; at the end of the stream it finds none; on any failure at most a part of the
        delimiter has been consumed besides the text. */
    ghost predicate Ended(eol: Text, all: Text, r: Outcome, text: Text, rest: Text)
      requires eol != []
    {
      && (r.Pass? ==> ScanLine(eol, all) == Found(text, rest))
      && (r == Fail(Eof) ==> ScanLine(eol, all) == Missing && rest == [])
      && (r.Fail? ==> exists k :: 0 <= k < |eol| && all == text + eol[..k] + rest)
    }

    /** One round: `n` bytes of text, then `i` bytes of the delimiter, then a byte that does not match, or
        the end. */
    lemma Round(eol: Text, now: Text, n: nat, i: nat)
      requires eol != [] && n < |now| && now[n] == eol[0] && eol[0] !in now[..n]
      requires 1 <= i <= |eol| && n + i <= |now| && eol[1..i] == now[n + 1..][..i - 1]
      requires i < |eol| && n + i < |now| ==> now[n + i] != eol[i]
      ensures i == |eol| ==> ScanLine(eol, now) == Found(now[..n], now[n + i..])
      ensures i < |eol| && n + i == |now| ==> ScanLine(eol, now) == Missing
      ensures i < |eol| && n + i < |now| ==>
                ScanLine(eol, now) == match ScanLine(eol, now[n + i..])
                                      case Found(t, rest) => Found(now[..n] + eol[..i] + t, rest)
                                      case Missing => Missing
    {
      FindIs(now, eol[0], n);
      MatchedSoFar(eol, now, n, i);
      assert now[n..][..i] == now[n..n + i];
      AgreeIs(eol, now[n..], i);
    }

    lemma NoRound(eol: Text, now: Text)
      requires eol != [] && eol[0] !in now
      ensures ScanLine(eol, now) == Missing
    {
    }

    /** What one pass from the label `again` has found out: `n` bytes of line, then nothing more. */
    lemma LineFails(eol: Text, now: Text, n: nat, r: Outcome)
      requires eol != [] && n <= |now| && eol[0] !in now[..n] && r.Fail?
      requires r == Fail(Eof) ==> now[n..] == []
      ensures Ended(eol, now, r, now[..n], now[n..])
    {
      if r == Fail(Eof) {
        assert now[..n] == now;
        NoRound(eol, now);
      }
      assert now == now[..n] + eol[..0] + now[n..];
    }

    /** Or `n` bytes of line and then `i` bytes of the delimiter. */
    lemma RoundEnds(eol: Text, now: Text, n: nat, i: nat, r: Outcome)
      requires eol != [] && n < |now| && now[n] == eol[0] && eol[0] !in now[..n]
      requires 1 <= i <= |eol| && n + i <= |now| && eol[1..i] == now[n + 1..][..i - 1]
      requires r.Pass? && i < |eol| ==> n + i < |now| && now[n + i] != eol[i]
      requires r.Fail? ==> i < |eol|
      requires r == Fail(Eof) ==> n + i == |now|
      ensures now[n + 1..][i - 1..] == now[n + i..]
      ensures r.Fail? || i == |eol| ==> Ended(eol, now, r, now[..n], now[n + i..])
      ensures r.Pass? && i < |eol| ==> Behind(eol, now, now[..n] + eol[..i], now[n + i..])
    {
      hide ScanLine;
      MatchedSoFar(eol, now, n, i);
      if r.Pass? || r.error.Eof? {
        Round(eol, now, n, i);
      }
    }

    /** One pass from the label `again`: a line up to the delimiter's first byte, then the other bytes. */
    method again(eol: Text) returns (r: Outcome, found: bool, text: Text)
      requires Valid() && eol != []
      modifies this`mInBuffer, this`mInIndex, this`mInEnd, mInBuffer, mRaw`rest, mRaw`faults
      ensures ReadTold(old(mRaw.faults), mRaw.faults, r)
      ensures Valid() && (mInBuffer == old(mInBuffer) || fresh(mInBuffer))
      ensures r.Fail? || found ==> Ended(eol, old(Input()), r, text, Input())
      ensures r.Pass? && !found ==> Behind(eol, old(Input()), text, Input()) && |Input()| < |old(Input())|
    {
      hide Unread, Input, ScanLine, Leads, Behind, Ended;
      ghost var now := Input();
      var i: nat;
      found := false;
      r, text := getline(eol[0]);
      ghost var n := |text|;
      assert text == now[..n];
      if r.Fail? {
        LineFails(eol, now, n, r);
        return;
      }
      r, i := matchRest(eol);
      RoundEnds(eol, now, n, i, r);
      if r.Pass? && i == |eol| {
        found := true;
      } else if r.Pass? {
        text := text + eol[..i];
      }
    }

    /** getline(s, eol) for a string; `text` is what the call appends to s. */
    method getlineUntil(eol: Text) returns (r: Outcome, text: Text)
      requires Valid() && eol != []
      modifies this`mInBuffer, this`mInIndex, this`mInEnd, mInBuffer, mRaw`rest, mRaw`faults
      ensures ReadTold(old(mRaw.faults), mRaw.faults, r)
      ensures Valid() && (mInBuffer == old(mInBuffer) || fresh(mInBuffer))
      ensures Ended(eol, old(Input()), r, text, Input())
      ensures mRaw.faults == old(mRaw.faults) ==> (r.Pass? <==> ScanLine(eol, old(Input())).Found?)
    {
      hide Unread, Input, Behind, Ended;
      text := [];
      ghost var all := Input();
      LeadsStart(eol, all);
      while true
        invariant Valid() && (mInBuffer == old(mInBuffer) || fresh(mInBuffer)) && mRaw.faults == old(mRaw.faults)
        invariant Behind(eol, all, text, Input())
        decreases |Input()|
      {
        ghost var now := Input();
        var found: bool, more: Text;
        r, found, more := again(eol);
        LeadsOn(eol, all, text, now, more, Input(), r);
        text := text + more;
        if r.Fail? || found {
          EndedMeans(eol, all, r, text, Input());
          return;
        }
      }
    }

    lemma EndedMeans(eol: Text, all: Text, r: Outcome, text: Text, rest: Text)
      requires eol != [] && Ended(eol, all, r, text, rest)
      ensures r.Pass? ==> ScanLine(eol, all).Found?
      ensures r == Fail(Eof) ==> ScanLine(eol, all).Missing?
    {
    }

    lemma LeadsStart(eol: Text, all: Text)
      requires eol != []
      ensures Behind(eol, all, [], all)
    {
      hide ScanLine;
      assert [] + all == all;
    }

    /** What holds of the rest of the stream holds of all of it, with the text so far in front. */
    lemma LeadsOn(eol: Text, all: Text, text: Text, now: Text, more: Text, later: Text, r: Outcome)
      requires eol != [] && Behind(eol, all, text, now)
      ensures Behind(eol, now, more, later) ==> Behind(eol, all, text + more, later)
      ensures Ended(eol, now, r, more, later) ==> Ended(eol, all, r, text + more, later)
    {
      hide ScanLine;
      Three(text, more, later);
      if Behind(eol, now, more, later) && ScanLine(eol, later).Found? {
        Three(text, more, ScanLine(eol, later).text);
      }
      if Ended(eol, now, r, more, later) && r.Fail? {
        var k :| 0 <= k < |eol| && now == more + eol[..k] + later;
        Three(text, more, eol[..k]);
        Three(text, more + eol[..k], later);
      }
    }

    lemma Three(a: Text, b: Text, c: Text)
      ensures a + (b + c) == (a + b) + c
    {
    }

    lemma MatchedSoFar(eol: Text, now: Text, n: nat, i: nat)
      requires 1 <= i <= |eol| && n + i <= |now| && now[n] == eol[0]
      requires eol[1..i] == now[n + 1..][..i - 1]
      ensures now[n + 1..][i - 1..] == now[n + i..] && now[n..n + i] == eol[..i]
      ensures now == now[..n] + eol[..i] + now[n + i..]
    {
      var a, b, c := now[n..n + i], eol[..i], now[n + 1..][..i - 1];
      forall x | 0 <= x < i
        ensures a[x] == b[x]
      {
        if x > 0 { assert a[x] == c[x - 1] && b[x] == eol[1..i][x - 1]; }
      }
      assert a == b && now == now[..n] + a + now[n + i..];
    }

    /** The same pass in dropline for a string; `text` is what getline would have appended. */
    method againDrop(eol: Text) returns (r: Outcome, found: bool, ghost text: Text)
      requires Valid() && eol != []
      modifies this`mInBuffer, this`mInIndex, this`mInEnd, mInBuffer, mRaw`rest, mRaw`faults
      ensures ReadTold(old(mRaw.faults), mRaw.faults, r)
      ensures Valid() && (mInBuffer == old(mInBuffer) || fresh(mInBuffer))
      ensures r.Fail? || found ==> Ended(eol, old(Input()), r, text, Input())
      ensures r.Pass? && !found ==> Behind(eol, old(Input()), text, Input()) && |Input()| < |old(Input())|
    {
      hide Unread, Input, ScanLine, Leads, Behind, Ended;
      ghost var now, n := Input(), 0;
      var i: nat;
      found, text := false, [];
      r, n := dropline(eol[0]);
      text := now[..n];
      if r.Fail? {
        LineFails(eol, now, n, r);
        return;
      }
      r, i := matchRest(eol);
      RoundEnds(eol, now, n, i, r);
      if r.Pass? && i == |eol| {
        found := true;
      } else if r.Pass? {
        text := text + eol[..i];
      }
    }

    /** dropline(eol) for a string consumes exactly what getline(s, eol) consumes; `text` is what that
        would have appended. */
    method dropUntil(eol: Text) returns (r: Outcome, ghost text: Text)
      requires Valid() && eol != []
      modifies this`mInBuffer, this`mInIndex, this`mInEnd, mInBuffer, mRaw`rest, mRaw`faults
      ensures ReadTold(old(mRaw.faults), mRaw.faults, r)
      ensures Valid() && (mInBuffer == old(mInBuffer) || fresh(mInBuffer))
      ensures Ended(eol, old(Input()), r, text, Input())
      ensures mRaw.faults == old(mRaw.faults) ==> (r.Pass? <==> ScanLine(eol, old(Input())).Found?)
    {
      hide Unread, Input, Behind, Ended;
      text := [];
      ghost var all := Input();
      LeadsStart(eol, all);
      while true
        invariant Valid() && (mInBuffer == old(mInBuffer) || fresh(mInBuffer)) && mRaw.faults == old(mRaw.faults)
        invariant Behind(eol, all, text, Input())
        decreases |Input()|
      {
        ghost var now, more := Input(), [];
        var found: bool;
        r, found, more := againDrop(eol);
        LeadsOn(eol, all, text, now, more, Input(), r);
        text := text + more;
        if r.Fail? || found {
          EndedMeans(eol, all, r, text, Input());
          return;
        }
      }
    }

    /** getn(s, n); `text` is what the call appends to s. */
    method getn(n: nat) returns (r: Outcome, text: Text)
      requires Valid()
      modifies this`mInBuffer, this`mInIndex, this`mInEnd, mInBuffer, mRaw`rest, mRaw`faults
      ensures ReadTold(old(mRaw.faults), mRaw.faults, r)
      ensures Valid() && (mInBuffer == old(mInBuffer) || fresh(mInBuffer))
      ensures text <= old(Input()) && Input() == old(Input())[|text|..]
      ensures r.Pass? ==> |text| == n
      ensures r.Fail? ==> |text| < n
      ensures r == Fail(Eof) ==> Input() == []
      ensures mRaw.faults == old(mRaw.faults) ==> (r.Pass? <==> n <= |old(Input())|)
    {
      text := [];
      var left: nat := n;
      ghost var all := Input();
      while true
        invariant Valid() && (mInBuffer == old(mInBuffer) || fresh(mInBuffer)) && mRaw.faults == old(mRaw.faults)
        invariant |text| <= |all| && text == all[..|text|] && Input() == all[|text|..] && |text| + left == n
        decreases |mRaw.rest|
      {
        var end := mInIndex + left;
        if end <= mInEnd {
          text := takeOnto(text, left, all);
          return Pass, text;
        }
        left := left - (mInEnd - mInIndex);
        text := takeOnto(text, mInEnd - mInIndex, all);
        r := refill();
        if r.Fail? {
          return;
        }
      }
    }

    method dropn(n: nat) returns (r: Outcome)
      requires Valid()
      modifies this`mInBuffer, this`mInIndex, this`mInEnd, mInBuffer, mRaw`rest, mRaw`faults
      ensures ReadTold(old(mRaw.faults), mRaw.faults, r)
      ensures Valid() && (mInBuffer == old(mInBuffer) || fresh(mInBuffer))
      ensures r.Pass? ==> n <= |old(Input())| && Input() == old(Input())[n..]
      ensures r.Fail? ==> exists k :: 0 <= k < n && k <= |old(Input())| && Input() == old(Input())[k..]
      ensures r == Fail(Eof) ==> |old(Input())| < n && Input() == []
      ensures mRaw.faults == old(mRaw.faults) ==> (r.Pass? <==> n <= |old(Input())|)
    {
      hide Unread, Input;
      var left: nat := n;
      ghost var all := Input();
      ghost var k: nat := 0;
      while true
        invariant Valid() && (mInBuffer == old(mInBuffer) || fresh(mInBuffer)) && mRaw.faults == old(mRaw.faults)
        invariant k <= |all| && Input() == all[k..] && k + left == n
        decreases |mRaw.rest|
      {
        var end := mInIndex + left;
        if end <= mInEnd {
          skip(left, k, all);
          return Pass;
        }
        var m := mInEnd - mInIndex;
        left := left - m;
        skip(m, k, all);
        k := k + m;
        r := refill();
        if r.Fail? {
          return;
        }
      }
    }

    /** getall(s); `text` is what the call appends to s. The end of the data is the normal way out. */
    method getall() returns (r: Outcome, text: Text)
      requires Valid()
      modifies this`mInBuffer, this`mInIndex, this`mInEnd, mInBuffer, mRaw`rest, mRaw`faults
      ensures ReadTold(old(mRaw.faults), mRaw.faults, r)
      ensures Valid() && (mInBuffer == old(mInBuffer) || fresh(mInBuffer))
      ensures r.Pass? ==> text == old(Input()) && Input() == []
      ensures r.Fail? ==> r.error.Io? && text <= old(Input()) && Input() == old(Input())[|text|..]
      ensures mRaw.faults == old(mRaw.faults) ==> r.Pass?
    {
      text := [];
      ghost var all := Input();
      while true
        invariant Valid() && (mInBuffer == old(mInBuffer) || fresh(mInBuffer)) && mRaw.faults == old(mRaw.faults)
        invariant |text| <= |all| && text == all[..|text|] && Input() == all[|text|..]
        decreases |mRaw.rest|
      {
        text := takeOnto(text, mInEnd - mInIndex, all);
        r := refill();
        if r.Fail? {
          if r.error.Eof? { r := Pass; }
          return;
        }
      }
    }

    method dropall() returns (r: Outcome)
      requires Valid()
      modifies this`mInBuffer, this`mInIndex, this`mInEnd, mInBuffer, mRaw`rest, mRaw`faults
      ensures ReadTold(old(mRaw.faults), mRaw.faults, r)
      ensures Valid() && (mInBuffer == old(mInBuffer) || fresh(mInBuffer))
      ensures r.Pass? ==> Input() == []
      ensures r.Fail? ==> r.error.Io? && exists k :: 0 <= k <= |old(Input())| && Input() == old(Input())[k..]
      ensures mRaw.faults == old(mRaw.faults) ==> r.Pass?
    {
      ghost var all, k := Input(), 0;
      while true
        invariant Valid() && (mInBuffer == old(mInBuffer) || fresh(mInBuffer)) && mRaw.faults == old(mRaw.faults)
        invariant 0 <= k <= |all| && Input() == all[k..]
        decreases |mRaw.rest|
      {
        Slices(all, k, |Unread()|);
        k := k + |Unread()|;
        assert mRaw.rest == all[k..];
        r := refill();
        if r.Fail? {
          if r.error.Eof? { r := Pass; }
          return;
        }
      }
    }

    method getchunk() returns (r: Result<Text>)
      requires Valid()
      modifies this`mInBuffer, this`mInIndex, this`mInEnd, mInBuffer, mRaw`rest, mRaw`faults
      ensures ReadTold(old(mRaw.faults), mRaw.faults, Ending(r))
      ensures Valid() && (mInBuffer == old(mInBuffer) || fresh(mInBuffer))
      ensures r.Ok? ==> r.value != [] && r.value <= old(Input()) && Input() == old(Input())[|r.value|..]
      ensures old(Unread()) != [] ==> r == Ok(old(Unread()))
      ensures r.Err? ==> Input() == old(Input())
      ensures r == Err(Eof) ==> Input() == []
      ensures mRaw.faults == old(mRaw.faults) ==> (r.Ok? <==> old(Input()) != [])
    {
      if bufempty() {
        var f := refill();
        if f.Fail? { return Err(f.error); }
      }
      var ret := take(mInEnd - mInIndex);
      return Ok(ret);
    }

    /** tryread(buffer) with room for `size` bytes; `text` is what it stores there. */
    method tryread(size: nat) returns (text: Text)
      requires Valid()
      modifies this`mInIndex
      ensures Valid() && text <= old(Input()) && Input() == old(Input())[|text|..]
      ensures |text| == if size < |old(Unread())| then size else |old(Unread())|
    {
      var n := if size < mInEnd - mInIndex then size else mInEnd - mInIndex;
      text := take(n);
    }

    /** read(buffer): from the buffer if it holds anything, else straight from the device. */
    method read(buffer: array<char>) returns (r: Result<nat>)
      requires Valid() && buffer != mInBuffer && buffer != mOutBuffer
      modifies this`mInIndex, mRaw`rest, mRaw`faults, buffer
      ensures ReadTold(old(mRaw.faults), mRaw.faults, Ending(r))
      ensures Valid()
      ensures r.Ok? ==>
                && r.value <= buffer.Length && buffer[..r.value] <= old(Input())
                && Input() == old(Input())[r.value..]
      ensures r.Ok? && r.value == 0 ==> buffer.Length == 0 || Input() == []
      ensures r.Err? ==> Input() == old(Input())
      ensures mRaw.faults == old(mRaw.faults) ==> r.Ok?
    {
      if !bufempty() {
        var n := if buffer.Length < mInEnd - mInIndex then buffer.Length else mInEnd - mInIndex;
        var piece := take(n);
        for i := 0 to n
          invariant Valid() && n <= buffer.Length && Input() == old(Input())[n..] && mRaw.faults == old(mRaw.faults)
          invariant buffer[..i] == piece[..i]
        {
          buffer[i] := piece[i];
        }
        return Ok(n);
      }
      r := mRaw.raw_read(buffer, 0);
    }

    // ----- writing -----

    predicate buffull()
      reads this
    {
      mOutIndex == mOutBuffer.Length
    }

    method allocoutbuf(size: nat)
      requires Valid() && size > 0
      modifies this`mOutBuffer, this`mOutIndex
      ensures Valid() && Pending() == old(Pending())
      ensures mOutBuffer.Length == if old(mOutBuffer).Length == 0 then size else old(mOutBuffer).Length
      ensures mOutBuffer == old(mOutBuffer) || (fresh(mOutBuffer) && mOutIndex == 0)
      ensures old(mOutBuffer).Length > 0 ==> mOutBuffer == old(mOutBuffer) && mOutIndex == old(mOutIndex)
    {
      if mOutBuffer.Length == 0 {
        mOutBuffer := new char[size];
        mOutIndex := 0;
      }
    }

    /** The copy loops of putspan and trywrite: `data` goes behind what is pending. */
    method store(data: Text)
      requires Valid() && |data| <= mOutBuffer.Length - mOutIndex
      modifies this`mOutIndex, mOutBuffer
      ensures Valid() && Pending() == old(Pending()) + data
    {
      var b := mOutIndex;
      mOutIndex := mOutIndex + |data|;
      for i := 0 to |data|
        invariant mOutBuffer == old(mOutBuffer) && mOutIndex == b + |data| <= mOutBuffer.Length
        invariant mOutBuffer[..b + i] == old(Pending()) + data[..i]
        modifies mOutBuffer
      {
        mOutBuffer[b + i] := data[i];
      }
    }

    /** One raw write of the bytes that are still to be sent of `pending`. */
    method writeRest(buf: Text, ghost pending: Text, ghost before: Text) returns (len: Result<nat>)
      requires |buf| <= |pending| && buf == pending[|pending| - |buf|..]
      requires mRaw.sink == before + pending[..|pending| - |buf|]
      modifies mRaw`sink, mRaw`replies, mRaw`faults
      ensures len.Err? ==> len.error.Io?
      ensures len.Ok? ==> len.value <= |buf|
      ensures mRaw.faults == old(mRaw.faults) + Fault(len)
      ensures mRaw.sink == before + pending[..|pending| - |buf| + Taken(len)]
      ensures old(mRaw.replies) != [] ==>
                len == Answer(old(mRaw.replies)[0], |buf|) && mRaw.replies == old(mRaw.replies)[1..]
    {
      len := mRaw.raw_write(buf);
      if len.Ok? {
        OneWrite(pending, |buf|, len.value);
        assert before + pending[..|pending| - |buf|] + buf[..len.value] ==
               before + (pending[..|pending| - |buf|] + buf[..len.value]);
      }
    }

    /** The write loop of flush: until all of the pending bytes have been taken, or the device fails or takes
        none. */
    method drain() returns (r: Outcome, ghost sent: nat)
      requires Valid() && mOutIndex > 0
      modifies mRaw`sink, mRaw`replies, mRaw`faults
      ensures WriteTold(old(mRaw.faults), mRaw.faults, r)
      ensures sent <= |Pending()| && mRaw.sink == old(mRaw.sink) + Pending()[..sent]
      ensures r.Pass? <==> sent == |Pending()|
      ensures var d := Drained(|Pending()|, old(mRaw.replies)); d.Drain? ==> d == Drain(sent, r.Pass?, mRaw.replies)
    {
      hide Drained, Settled;
      var buf := mOutBuffer[..mOutIndex];
      ghost var pending, first, replies := Pending(), Drained(mOutIndex, mRaw.replies), mRaw.replies;
      ghost var before := mRaw.sink;
      assert before + pending[..0] == before;
      var len: Result<nat> := writeRest(buf, pending, before);
      SettledAtFirst(|pending|, replies, len, mRaw.replies);
      while len.Ok? && len.value > 0 && len.value != |buf|
        invariant 0 < |buf| <= |pending| && buf == pending[|pending| - |buf|..]
        invariant len.Ok? ==> len.value <= |buf|
        invariant mRaw.faults == old(mRaw.faults) + Fault(len)
        invariant mRaw.sink == before + pending[..|pending| - |buf| + Taken(len)]
        invariant Settled(|pending|, first, |buf|, len, mRaw.replies)
        decreases if len.Ok? then |buf| else 0
      {
        ghost var size, n := |buf|, len.value;
        OneWrite(pending, size, n);
        buf := buf[len.value..];
        replies := mRaw.replies;
        len := writeRest(buf, pending, before);
        SettledNext(|pending|, first, size, n, replies, len, mRaw.replies);
      }
      sent := |pending| - |buf| + Taken(len);
      SettledAtLast(|pending|, first, |buf|, len, mRaw.replies, sent);
      if len.Err? {
        return Fail(len.error), sent;
      }
      if len.value == 0 {
        return Fail(Eof), sent;
      }
      return Pass, sent;
    }

    lemma OneWrite(pending: Text, size: nat, n: nat)
      requires n <= size <= |pending|
      ensures var at := |pending| - size;
              && pending[at..][n..] == pending[at + n..] && pending[..at] + pending[at..][..n] == pending[..at + n]
    {
    }

    /** What is sent of the pending bytes, without their being taken out, appears twice in the output. */
    lemma SentPart(pending: Text, sink: Text, sent: nat)
      requires sent < |pending|
      ensures sink + pending[..sent] <= sink + pending
      ensures sink + pending[..sent] + pending == sink + pending <==> sent == 0
      ensures sink + pending[..sent] == sink <==> sent == 0
    {
      assert sink + pending == sink + pending[..sent] + pending[sent..];
      if sent == 0 {
        assert sink + pending[..0] == sink;
      } else {
        assert |sink + pending[..sent] + pending| > |sink + pending|;
        assert |sink + pending[..sent]| > |sink|;
      }
    }

    /** On success everything put so far has been sent, in order. On failure only a prefix of it has; what
        was pending stays pending, unless it was all sent and only the device's own flush failed. */
    method flush() returns (r: Outcome)
      requires Valid()
      modifies this`mOutBuffer, this`mOutIndex, mRaw`sink, mRaw`replies, mRaw`faults, mRaw`flushed
      ensures WriteTold(old(mRaw.faults), mRaw.faults, r)
      ensures Valid() && mOutBuffer.Length > 0 && (mOutBuffer == old(mOutBuffer) || fresh(mOutBuffer))
      ensures old(mOutBuffer).Length > 0 ==> mOutBuffer == old(mOutBuffer)
      ensures r.Pass? ==> Pending() == [] && mRaw.sink == old(Output())
      ensures r.Fail? ==> old(mRaw.sink) <= mRaw.sink <= old(Output())
      ensures r.Fail? ==> Pending() == if mRaw.sink == old(Output()) then [] else old(Pending())
      ensures r.Fail? ==> (Output() == old(Output()) <==> mRaw.sink == old(mRaw.sink) || Pending() == [])
      ensures mRaw.flushed == if r.Pass? && old(Pending()) != [] then mRaw.sink else old(mRaw.flushed)
      ensures old(Pending()) != [] ==>
                match Drained(|old(Pending())|, old(mRaw.replies))
                case Unsettled => true
                case Drain(sent, done, left) =>
                  && mRaw.sink == old(mRaw.sink) + old(Pending())[..sent] && mRaw.replies == left
                  && (if done then Pending() == [] else r.Fail? && Pending() == old(Pending()))
    {
      if mOutBuffer.Length == 0 {
        allocoutbuf(STREAM_BUFFER_SIZE);
        return Pass;
      }
      if mOutIndex != 0 {
        ghost var sent: nat;
        r, sent := drain();
        if r.Fail? {
          SentPart(old(Pending()), old(mRaw.sink), sent);
          return;
        }
        assert old(Pending())[..sent] == old(Pending());
        mOutIndex := 0;
        r := mRaw.raw_flush();
        return;
      }
      return Pass;
    }

    method putchar(c: char) returns (r: Outcome)
      requires Valid()
      modifies this`mOutBuffer, this`mOutIndex, mOutBuffer, mRaw`sink, mRaw`replies, mRaw`faults, mRaw`flushed
      ensures WriteTold(old(mRaw.faults), mRaw.faults, r)
      ensures Valid() && (mOutBuffer == old(mOutBuffer) || fresh(mOutBuffer))
      ensures r.Pass? ==> Output() == old(Output()) + [c] && Pending() != []
      ensures !old(buffull()) ==> r.Pass? && mRaw.sink == old(mRaw.sink)
      ensures old(mRaw.sink) <= mRaw.sink <= old(Output())
    {
      if buffull() {
        r := flush();
        if r.Fail? { return; }
      }
      store([c]);
      return Pass;
    }

    lemma StoreFirst(before: Text, p: Text, n: nat)
      requires n <= |p|
      ensures before + p == before + p[..n] + p[n..]
    {
    }

    /** The copy of as many bytes as the buffer has room for. */
    method putFirst(p: Text, n: nat)
      requires Valid() && n <= |p| && n <= mOutBuffer.Length - mOutIndex
      modifies this`mOutIndex, mOutBuffer
      ensures Valid() && mOutIndex == old(mOutIndex) + n && Output() == old(Output()) + p[..n]
    {
      store(p[..n]);
    }

    /** One round of putspan's loop: fill the buffer from `p` and flush it. */
    method putRound(p: Text) returns (r: Outcome, rest: Text)
      requires Valid() && |p| > mOutBuffer.Length - mOutIndex
      modifies this`mOutBuffer, this`mOutIndex, mOutBuffer, mRaw`sink, mRaw`replies, mRaw`faults, mRaw`flushed
      ensures WriteTold(old(mRaw.faults), mRaw.faults, r)
      ensures Valid() && (mOutBuffer == old(mOutBuffer) || fresh(mOutBuffer)) && mOutBuffer.Length > 0
      ensures old(mOutBuffer).Length > 0 ==> mOutBuffer == old(mOutBuffer)
      ensures rest == p[old(mOutBuffer.Length - mOutIndex)..]
      ensures r.Pass? ==> Output() + rest == old(Output()) + p && mOutIndex == 0
      ensures old(mRaw.sink) <= mRaw.sink <= old(Output()) + p
    {
      var room := mOutBuffer.Length - mOutIndex;
      StoreFirst(Output(), p, room);
      putFirst(p, room);
      rest := p[room..];
      r := flush();
      if r.Pass? {
        mOutIndex := 0;
        assert Output() == mRaw.sink;
      }
    }

    /** On success exactly s has been put; on failure what has been sent is still a prefix of the stream
        that success would have produced. */
    method putspan(s: Text) returns (r: Outcome)
      requires Valid()
      modifies this`mOutBuffer, this`mOutIndex, mOutBuffer, mRaw`sink, mRaw`replies, mRaw`faults, mRaw`flushed
      ensures WriteTold(old(mRaw.faults), mRaw.faults, r)
      ensures Valid() && (mOutBuffer == old(mOutBuffer) || fresh(mOutBuffer))
      ensures r.Pass? ==> Output() == old(Output()) + s && (s != [] ==> Pending() != [])
      ensures |s| <= old(mOutBuffer.Length - mOutIndex) ==> r.Pass? && mRaw.sink == old(mRaw.sink)
      ensures old(mRaw.sink) <= mRaw.sink <= old(Output()) + s
    {
      var p := s;
      ghost var all := Output() + s;
      while true
        invariant Valid() && (mOutBuffer == old(mOutBuffer) || fresh(mOutBuffer)) && mRaw.faults == old(mRaw.faults)
        invariant p == s || p != []
        invariant |s| <= old(mOutBuffer.Length - mOutIndex) ==>
                    && p == s && mRaw.sink == old(mRaw.sink)
                    && mOutBuffer.Length - mOutIndex == old(mOutBuffer.Length - mOutIndex)
        invariant Output() + p == all && old(mRaw.sink) <= mRaw.sink
        decreases |p|, if mOutBuffer.Length == 0 then 2 else if mOutIndex > 0 then 1 else 0
      {
        if |p| <= mOutBuffer.Length - mOutIndex {
          putFirst(p, |p|);
          return Pass;
        }
        r, p := putRound(p);
        if r.Fail? { return; }
      }
    }

    /** trywrite(s): as much of s as fits, without touching the device. */
    method trywrite(s: Text) returns (n: nat)
      requires Valid()
      modifies this`mOutBuffer, this`mOutIndex, mOutBuffer
      ensures Valid() && (mOutBuffer == old(mOutBuffer) || fresh(mOutBuffer))
      ensures n <= |s| && Output() == old(Output()) + s[..n] && Pending() == old(Pending()) + s[..n]
      ensures mOutBuffer.Length == if old(mOutBuffer).Length == 0 then STREAM_BUFFER_SIZE else old(mOutBuffer).Length
      ensures n == |s| || mOutIndex == mOutBuffer.Length
    {
      if mOutBuffer.Length == 0 {
        allocoutbuf(STREAM_BUFFER_SIZE);
      }
      var nMax := mOutBuffer.Length - mOutIndex;
      if |s| <= nMax {
        store(s);
        assert s[..|s|] == s;
        return |s|;
      }
      store(s[..nMax]);
      return nMax;
    }

    method puts(s: Text) returns (r: Outcome)
      requires Valid()
      modifies this`mOutBuffer, this`mOutIndex, mOutBuffer, mRaw`sink, mRaw`replies, mRaw`faults, mRaw`flushed
      ensures WriteTold(old(mRaw.faults), mRaw.faults, r)
      ensures Valid() && (mOutBuffer == old(mOutBuffer) || fresh(mOutBuffer))
      ensures r.Pass? ==> Output() == old(Output()) + s && (s != [] ==> Pending() != [])
      ensures |s| <= old(mOutBuffer.Length - mOutIndex) ==> r.Pass? && mRaw.sink == old(mRaw.sink)
      ensures old(mRaw.sink) <= mRaw.sink <= old(Output()) + s
    {
      r := putspan(s);
    }

    method putchunk(s: Text) returns (r: Outcome)
      requires Valid()
      modifies this`mOutBuffer, this`mOutIndex, mOutBuffer, mRaw`sink, mRaw`replies, mRaw`faults, mRaw`flushed
      ensures WriteTold(old(mRaw.faults), mRaw.faults, r)
      ensures Valid() && (mOutBuffer == old(mOutBuffer) || fresh(mOutBuffer))
      ensures r.Pass? ==> Pending() == [] && mRaw.sink == old(Output()) + s
      ensures r.Pass? && s != [] ==> mRaw.flushed == mRaw.sink
      ensures old(mRaw.sink) <= mRaw.sink <= old(Output()) + s
    {
      r := puts(s);
      if r.Fail? { return; }
      r := flush();
    }

    method putline(s: Text) returns (r: Outcome)
      requires Valid()
      modifies this`mOutBuffer, this`mOutIndex, mOutBuffer, mRaw`sink, mRaw`replies, mRaw`faults, mRaw`flushed
      ensures WriteTold(old(mRaw.faults), mRaw.faults, r)
      ensures Valid() && (mOutBuffer == old(mOutBuffer) || fresh(mOutBuffer))
      ensures r.Pass? ==> Pending() == [] && mRaw.flushed == mRaw.sink == old(Output()) + s + ['\n']
      ensures old(mRaw.sink) <= mRaw.sink <= old(Output()) + s + ['\n']
    {
      r := puts(s);
      if r.Fail? { return; }
      r := putchar('\n');
      if r.Fail? { return; }
      r := flush();
    }
  }
}
