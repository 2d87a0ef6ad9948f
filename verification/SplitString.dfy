/** SplitString: the iterator over the parts of a text between delimiters, and collect(). A char delimiter
    is a text of length one. */
module SplitStrings {
  import opened Options
  import opened StreamSpec

  /** string_view::find. */
  function FindText(s: Text, d: Text): (pos: Option<nat>)
    ensures match pos
            case Some(i) => IsFirst(d, s, i)
            case None => forall k: nat :: !OccursAt(d, s, k)
  {
    if OccursAt(d, s, 0) then Some(0)
    else if s == [] then None
    else
      Shift(d, s, 1);
      match FindText(s[1..], d)
      case Some(i) => AtFront(d, s, i); Some(i + 1)
      case None => NotBehind(d, s); None
  }

  lemma AtFront(d: Text, s: Text, i: nat)
    requires s != [] && !OccursAt(d, s, 0) && IsFirst(d, s[1..], i)
    ensures IsFirst(d, s, i + 1)
  {
    Shift(d, s, 1);
    forall k: nat | k < i + 1
      ensures !OccursAt(d, s, k)
    {
      if k > 0 {
        assert !OccursAt(d, s[1..], k - 1);
      }
    }
  }

  lemma NotBehind(d: Text, s: Text)
    requires s != [] && !OccursAt(d, s, 0) && forall k: nat :: !OccursAt(d, s[1..], k)
    ensures forall k: nat :: !OccursAt(d, s, k)
  {
    Shift(d, s, 1);
    forall k: nat
      ensures !OccursAt(d, s, k)
    {
      if k > 0 {
        assert !OccursAt(d, s[1..], k - 1);
      }
    }
  }

  lemma FirstIsOne(s: Text, d: Text, i: nat)
    requires IsFirst(d, s, i)
    ensures FindText(s, d) == Some(i)
  {
    assert FindText(s, d).Some?;
  }

  predicate Contains(s: Text, d: Text) {
    exists k: nat :: k <= |s| && OccursAt(d, s, k)
  }

  /** The parts between the delimiters. */
  function Split(s: Text, d: Text): (parts: seq<Text>)
    requires d != []
    ensures parts != []
    decreases |s|
  {
    match FindText(s, d)
    case None => [s]
    case Some(i) => [s[..i]] + Split(s[i + |d|..], d)
  }

  function Join(parts: seq<Text>, d: Text): Text
    requires parts != []
  {
    if |parts| == 1 then parts[0] else parts[0] + d + Join(parts[1..], d)
  }

  lemma JoinFront(p: Text, parts: seq<Text>, d: Text)
    requires parts != []
    ensures Join([p] + parts, d) == p + d + Join(parts, d)
  {
    assert ([p] + parts)[1..] == parts;
  }

  /** Joining the parts with the delimiter restores the text. */
  lemma {:induction false} JoinSplit(s: Text, d: Text)
    requires d != []
    ensures Join(Split(s, d), d) == s
    decreases |s|
  {
    hide FindText;
    match FindText(s, d)
    case None =>
    case Some(i) =>
      var rest := s[i + |d|..];
      JoinSplit(rest, d);
      assert Split(s, d) == [s[..i]] + Split(rest, d);
      JoinFront(s[..i], Split(rest, d), d);
      assert s == s[..i] + s[i..i + |d|] + rest;
  }

  /** No part contains the delimiter. */
  lemma {:induction false} PartsAreFree(s: Text, d: Text)
    requires d != []
    ensures forall p :: p in Split(s, d) ==> !Contains(p, d)
    decreases |s|
  {
    hide FindText, Contains, OccursAt;
    match FindText(s, d)
    case None => NoneContained(s, d);
    case Some(i) =>
      FirstPartFree(s, d, i);
      PartsAreFree(s[i + |d|..], d);
  }

  lemma NoneContained(s: Text, d: Text)
    requires forall k: nat :: !OccursAt(d, s, k)
    ensures !Contains(s, d)
  {
  }

  lemma FirstPartFree(s: Text, d: Text, i: nat)
    requires d != [] && IsFirst(d, s, i)
    ensures i + |d| <= |s| && !Contains(s[..i], d)
  {
    forall k: nat
      ensures !OccursAt(d, s[..i], k)
    {
      if k + |d| <= i {
        assert s[..i][k..k + |d|] == s[k..k + |d|];
        assert !OccursAt(d, s, k);
      }
    }
  }

  /** A delimiter put behind `p` is the first one there, not one that begins inside `p`. */
  predicate EndsCleanly(p: Text, d: Text) {
    IsFirst(d, p + d, |p|)
  }

  lemma CleanInFront(p: Text, d: Text, rest: Text)
    ensures EndsCleanly(p, d) <==> IsFirst(d, p + d + rest, |p|)
  {
    var a, b := p + d, p + d + rest;
    forall k: nat | k <= |p|
      ensures OccursAt(d, a, k) <==> OccursAt(d, b, k)
    {
      assert a[k..k + |d|] == b[k..k + |d|];
    }
  }

  /** Splitting the join of a list gives the list back, exactly when no delimiter begins inside a part
      that has one behind it and none lies in the last part. */
  lemma {:induction false} SplitJoinExactly(parts: seq<Text>, d: Text)
    requires d != [] && parts != []
    ensures Split(Join(parts, d), d) == parts <==>
            (forall i :: 0 <= i < |parts| - 1 ==> EndsCleanly(parts[i], d)) && !Contains(parts[|parts| - 1], d)
  {
    hide FindText, Split, EndsCleanly, Contains;
    var p := parts[0];
    if |parts| > 1 {
      var tail := parts[1..];
      SplitJoinExactly(tail, d);
      SplitInFront(p, d, Join(tail, d));
      assert parts == [p] + tail;
      if EndsCleanly(p, d) {
        TailCondition(parts, d);
      }
    } else {
      assert parts == [p];
      WholeOrSplit(p, d);
    }
  }

  /** The first part of `p`, a delimiter and some rest is `p` exactly when the delimiter is the first one;
      then the other parts are those of the rest. */
  lemma SplitInFront(p: Text, d: Text, rest: Text)
    requires d != []
    ensures EndsCleanly(p, d) ==> Split(p + d + rest, d) == [p] + Split(rest, d)
    ensures !EndsCleanly(p, d) ==> Split(p + d + rest, d)[0] != p
  {
    var s := p + d + rest;
    CleanInFront(p, d, rest);
    assert s[..|p|] == p && s[|p|..|p| + |d|] == d && s[|p| + |d|..] == rest;
    if EndsCleanly(p, d) {
      FirstIsOne(s, d, |p|);
    } else {
      HeadDiffers(s, d, p);
    }
  }

  lemma TailCondition(parts: seq<Text>, d: Text)
    requires |parts| > 1 && EndsCleanly(parts[0], d)
    ensures (forall i :: 0 <= i < |parts[1..]| - 1 ==> EndsCleanly(parts[1..][i], d)) <==>
            (forall i :: 0 <= i < |parts| - 1 ==> EndsCleanly(parts[i], d))
  {
    var tail := parts[1..];
    if forall i :: 0 <= i < |tail| - 1 ==> EndsCleanly(tail[i], d) {
      forall i | 0 <= i < |parts| - 1
        ensures EndsCleanly(parts[i], d)
      {
        if i > 0 {
          assert parts[i] == tail[i - 1];
        }
      }
    }
  }

  lemma HeadDiffers(s: Text, d: Text, p: Text)
    requires d != [] && p <= s && !IsFirst(d, s, |p|) && OccursAt(d, s, |p|)
    ensures Split(s, d)[0] != p
  {
    var i := FindText(s, d).value;
    assert Split(s, d)[0] == s[..i];
  }

  lemma WholeOrSplit(p: Text, d: Text)
    requires d != []
    ensures Split(p, d) == [p] <==> !Contains(p, d)
  {
    match FindText(p, d)
    case None =>
    case Some(i) =>
      assert OccursAt(d, p, i) && |Split(p, d)| > 1;
  }

  /** For a char delimiter: splitting the join of a list gives it back exactly when no part has the char. */
  lemma CharRoundTrip(parts: seq<Text>, c: char)
    requires parts != []
    ensures Split(Join(parts, [c]), [c]) == parts <==> forall p :: p in parts ==> c !in p
  {
    SplitJoinExactly(parts, [c]);
    forall p
      ensures EndsCleanly(p, [c]) <==> c !in p
      ensures Contains(p, [c]) <==> c in p
    {
      CharClean(p, c);
    }
    var n := |parts|;
    assert parts[n - 1] in parts;
    assert forall i :: 0 <= i < n - 1 ==> parts[i] in parts;
  }

  lemma CharClean(p: Text, c: char)
    ensures EndsCleanly(p, [c]) <==> c !in p
    ensures Contains(p, [c]) <==> c in p
  {
    var s := p + [c];
    assert forall k: nat :: k < |s| ==> (OccursAt([c], s, k) <==> s[k] == c);
    assert forall k: nat :: k < |p| ==> (OccursAt([c], p, k) <==> p[k] == c);
    assert forall k: nat :: k < |p| ==> s[k] == p[k];
    if c in p {
      var k :| 0 <= k < |p| && p[k] == c;
      assert OccursAt([c], s, k) && OccursAt([c], p, k);
    }
  }

  // ----- the iterator -----

  datatype Cursor = Cursor(s: Text, current: Text, ended: bool, toBeEnded: bool)

  /** What one find_next() does to the iterator. */
  function Next(c: Cursor, d: Text): Cursor {
    match FindText(c.s, d)
    case None => Cursor([], c.s, c.toBeEnded, true)
    case Some(i) => Cursor(c.s[i + |d|..], c.s[..i], c.ended, c.toBeEnded)
  }

  /** The iterator after `n` more find_next() calls. */
  function After(c: Cursor, d: Text, n: nat): Cursor
    decreases n
  {
    if n == 0 then c else After(Next(c, d), d, n - 1)
  }

  function Begin(s: Text, d: Text): Cursor {
    Next(Cursor(s, [], false, false), d)
  }

  /** The parts the iterator has yet to show, the current one first. */
  function Ahead(c: Cursor, d: Text): seq<Text>
    requires d != []
  {
    if c.ended then [] else [c.current] + if c.toBeEnded then [] else Split(c.s, d)
  }

  lemma NextShows(c: Cursor, d: Text)
    requires d != [] && !c.ended && !c.toBeEnded
    ensures Ahead(Next(c, d), d) == Split(c.s, d)
  {
    hide FindText;
    match FindText(c.s, d)
    case None =>
    case Some(i) =>
      assert Next(c, d) == Cursor(c.s[i + |d|..], c.s[..i], false, false);
  }

  lemma BeginAhead(s: Text, d: Text)
    requires d != []
    ensures Ahead(Begin(s, d), d) == Split(s, d)
    ensures Begin(s, d).toBeEnded ==> Begin(s, d).s == []
  {
    hide FindText, Split;
    NextShows(Cursor(s, [], false, false), d);
  }

  /** Each step drops exactly the current part. */
  lemma NextAhead(c: Cursor, d: Text)
    requires d != [] && !c.ended && (c.toBeEnded ==> c.s == [])
    ensures Ahead(c, d) == [c.current] + Ahead(Next(c, d), d)
    ensures Next(c, d).toBeEnded ==> Next(c, d).s == []
  {
    if c.toBeEnded {
      assert FindText([], d) == None by {
        assert !OccursAt(d, [], 0);
      }
      assert Ahead(c, d) == [c.current] && Ahead(Next(c, d), d) == [];
    } else {
      NextShows(c, d);
    }
  }

  /** The iterator ends at all exactly when the delimiter is not empty. */
  lemma EndsExactly(s: Text, d: Text)
    ensures (exists n: nat :: After(Begin(s, d), d, n).ended) <==> d != []
  {
    if d == [] {
      forall n: nat
        ensures !After(Begin(s, d), d, n).ended
      {
        EmptyNeverEnds(Begin(s, d), n);
      }
    } else {
      BeginAhead(s, d);
      WalksAll(Begin(s, d), d);
      assert After(Begin(s, d), d, |Ahead(Begin(s, d), d)|).ended;
    }
  }

  lemma {:induction false} EmptyNeverEnds(c: Cursor, n: nat)
    requires !c.ended
    ensures !After(c, [], n).ended
    decreases n
  {
    if n > 0 {
      FirstIsOne(c.s, [], 0);
      EmptyNeverEnds(Next(c, []), n - 1);
    }
  }

  lemma {:induction false} WalksAll(c: Cursor, d: Text)
    requires d != [] && (c.toBeEnded ==> c.s == [])
    ensures After(c, d, |Ahead(c, d)|).ended
    decreases |Ahead(c, d)|
  {
    if !c.ended {
      var n := Next(c, d);
      NextAhead(c, d);
      assert |Ahead(c, d)| == 1 + |Ahead(n, d)|;
      WalksAll(n, d);
    }
  }

  /** SplitString::iterator. */
  class SplitIterator {
    var s: Text
    const delimiter: Text
    var current: Text
    var ended: bool
    var toBeEnded: bool

    function Abs(): Cursor
      reads this
    {
      Cursor(s, current, ended, toBeEnded)
    }

    constructor (s: Text, delimiter: Text)
      ensures Abs() == Begin(s, delimiter) && this.delimiter == delimiter
    {
      this.s, this.delimiter := s, delimiter;
      current, ended, toBeEnded := [], false, false;
      new;
      find_next();
    }

    method find_next()
      modifies this
      ensures Abs() == Next(old(Abs()), delimiter)
    {
      var pos := FindText(s, delimiter);
      match pos
      case None =>
        current := s;
        s := [];
        ended := toBeEnded;
        toBeEnded := true;
      case Some(i) =>
        current := s[..i];
        s := s[i + |delimiter|..];
    }
  }

  lemma NothingAhead(c: Cursor, d: Text)
    requires d != [] && c.ended
    ensures Ahead(c, d) == []
  {
  }

  lemma Onto(parts: seq<Text>, p: Text, more: seq<Text>)
    ensures parts + ([p] + more) == (parts + [p]) + more
  {
  }

  /** collect() returns exactly the parts, and comes to an end. */
  method collect(s: Text, delimiter: Text) returns (result: seq<Text>)
    requires delimiter != []
    ensures result == Split(s, delimiter)
  {
    hide Ahead, Split, FindText, Next, Begin;
    result := [];
    var it := new SplitIterator(s, delimiter);
    BeginAhead(s, delimiter);
    while !it.ended
      invariant it.delimiter == delimiter && (it.toBeEnded ==> it.s == [])
      invariant result + Ahead(it.Abs(), delimiter) == Split(s, delimiter)
      decreases |Ahead(it.Abs(), delimiter)|
    {
      ghost var here := it.Abs();
      NextAhead(here, delimiter);
      Onto(result, it.current, Ahead(Next(here, delimiter), delimiter));
      result := result + [it.current];
      it.find_next();
    }
    NothingAhead(it.Abs(), delimiter);
    assert result + [] == result;
  }
}
