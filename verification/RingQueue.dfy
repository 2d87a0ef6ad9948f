/** RingQueue: the bounded circular buffer under Queue. The cursors walk maxSize + 1 positions, so the
    model's array has maxSize + 1 slots; the source allocates maxSize. */
module RingQueues {
  import opened Moduli
  import opened Options

  /** What the cursors enclose, oldest first. */
  function Enclosed<T>(slots: seq<T>, r: nat, w: nat): seq<T>
    requires r < |slots| && w < |slots|
  {
    if r <= w then slots[r..w] else slots[r..] + slots[..w]
  }

  class RingQueue<T(0)> {
    const mHead: array<T>
    const maxSize: nat
    var mRead: nat
    var mWrite: nat
    /** The stored values, oldest first. */
    ghost var contents: seq<T>

    ghost predicate Valid()
      reads this, mHead
    {
      && mHead.Length == maxSize + 1 && mRead <= maxSize && mWrite <= maxSize
      && contents == Enclosed(mHead[..], mRead, mWrite) && |contents| <= maxSize
    }

    constructor (maxSize: nat)
      ensures Valid() && this.maxSize == maxSize && contents == [] && fresh(mHead)
    {
      this.maxSize := maxSize;
      mHead := new T[maxSize + 1];
      mRead, mWrite, contents := 0, 0, [];
    }

    predicate empty()
      requires Valid()
      reads this, mHead
      ensures empty() <==> contents == []
    {
      mRead == mWrite
    }

    predicate full()
      requires Valid()
      reads this, mHead
      ensures full() <==> |contents| == maxSize
    {
      var nextWrite := if mWrite == maxSize then 0 else mWrite + 1;
      nextWrite == mRead
    }

    method push(value: T) returns (ok: bool)
      requires Valid()
      modifies this`mWrite, this`contents, mHead
      ensures Valid() && (ok <==> |old(contents)| < maxSize)
      ensures contents == if ok then old(contents) + [value] else old(contents)
    {
      var nextWrite := if mWrite == maxSize then 0 else mWrite + 1;
      if nextWrite == mRead {
        return false;
      }
      mHead[mWrite] := value;
      mWrite := nextWrite;
      contents := contents + [value];
      return true;
    }

    method pop() returns (r: Option<T>)
      requires Valid()
      modifies this`mRead, this`contents
      ensures Valid() && (r.None? <==> old(contents) == [])
      ensures r.Some? ==> r.value == old(contents)[0] && contents == old(contents)[1..]
      ensures r.None? ==> contents == []
    {
      if mRead == mWrite {
        return None;
      }
      var p := mHead[mRead];
      mRead := if mRead == maxSize then 0 else mRead + 1;
      contents := contents[1..];
      return Some(p);
    }

    /** size() as written: the difference of the cursors modulo maxSize. */
    function size(): nat
      requires Valid() && maxSize > 0
      reads this, mHead
    {
      (mWrite as int - mRead + maxSize) % maxSize
    }

    /** size() is the number of stored elements exactly when the write cursor has not wrapped behind
        the read cursor and the queue is not full. */
    lemma SizeExact()
      requires Valid() && maxSize > 0
      ensures size() == |contents| <==> mRead <= mWrite && |contents| < maxSize
    {
      var d := mWrite as int - mRead;
      if d == maxSize {
        DivModOf(maxSize, 2, 0);
      } else if d >= 0 {
        DivModOf(maxSize, 1, d);
      } else {
        DivModOf(maxSize, 0, d + maxSize);
      }
    }
  }
}
