/** What the buffered stream's text operations mean on the byte sequence behind it, independent of how
    the bytes are cut into chunks. */
module StreamSpec {

  type Text = seq<char>

  /** The first position of `c`, or the length. */
  function Find(s: Text, c: char): (i: nat)
    ensures i <= |s| && c !in s[..i] && (i < |s| ==> s[i] == c)
  {
    if s == [] || s[0] == c then 0 else 1 + Find(s[1..], c)
  }

  lemma {:induction false} FindIs(s: Text, c: char, i: nat)
    requires i < |s| && s[i] == c && c !in s[..i]
    ensures Find(s, c) == i
  {
    if i > 0 {
      assert s[..i] == [s[0]] + s[1..][..i - 1];
      FindIs(s[1..], c, i - 1);
    }
  }

  /** How far two texts agree. */
  function Agree(a: Text, b: Text): (m: nat)
    ensures m <= |a| && m <= |b| && a[..m] == b[..m]
    ensures m < |a| && m < |b| ==> a[m] != b[m]
  {
    if a == [] || b == [] || a[0] != b[0] then 0 else 1 + Agree(a[1..], b[1..])
  }

  lemma {:induction false} AgreeIs(a: Text, b: Text, m: nat)
    requires m <= |a| && m <= |b| && a[..m] == b[..m]
    requires m == |a| || m == |b| || a[m] != b[m]
    ensures Agree(a, b) == m
  {
    if m > 0 {
      assert a[0] == a[..m][0] == b[..m][0] == b[0];
      assert a[1..][..m - 1] == a[..m][1..] && b[1..][..m - 1] == b[..m][1..];
      AgreeIs(a[1..], b[1..], m - 1);
    }
  }

  datatype Line = Found(text: Text, rest: Text) | Missing

  /** getline(s, eol) for a string: look for the delimiter's first byte, match on; at a mismatch what has
      matched so far is text, and the search goes on from the mismatch. */
  function ScanLine(eol: Text, st: Text): Line
    requires eol != []
    decreases |st|
  {
    var i := Find(st, eol[0]);
    if i == |st| then Missing
    else
      var m := Agree(eol, st[i..]);
      AgreesOnce(eol, st, i);
      if m == |eol| then Found(st[..i], st[i + m..])
      else if i + m == |st| then Missing
      else
        match ScanLine(eol, st[i + m..])
        case Found(text, rest) => Found(st[..i] + eol[..m] + text, rest)
        case Missing => Missing
  }

  lemma AgreesOnce(eol: Text, st: Text, i: nat)
    requires eol != [] && i < |st| && st[i] == eol[0]
    ensures Agree(eol, st[i..]) > 0
  {
  }

  /** On success exactly the text and the delimiter have been consumed. */
  lemma {:induction false} ScanConserves(eol: Text, st: Text)
    requires eol != [] && ScanLine(eol, st).Found?
    ensures st == ScanLine(eol, st).text + eol + ScanLine(eol, st).rest
    decreases |st|
  {
    var i := Find(st, eol[0]);
    var m := Agree(eol, st[i..]);
    AgreesOnce(eol, st, i);
    Cut(eol, st, i, m);
    if m == |eol| {
      assert eol[..m] == eol;
    } else {
      var later := ScanLine(eol, st[i + m..]);
      ScanConserves(eol, st[i + m..]);
      assert ScanLine(eol, st) == Found(st[..i] + eol[..m] + later.text, later.rest);
      Join(st[..i] + eol[..m], later.text, eol, later.rest);
    }
  }

  lemma Cut(eol: Text, st: Text, i: nat, m: nat)
    requires i <= |st| && m == Agree(eol, st[i..])
    ensures st == st[..i] + eol[..m] + st[i + m..]
  {
    assert st[i..][..m] == eol[..m] && st[i..][m..] == st[i + m..];
  }

  lemma Join(a: Text, b: Text, c: Text, d: Text)
    ensures a + (b + c + d) == a + b + c + d
  {
  }

  // ----- first occurrences -----

  predicate OccursAt(d: Text, st: Text, i: nat) {
    i + |d| <= |st| && st[i..i + |d|] == d
  }

  predicate IsFirst(d: Text, st: Text, i: nat) {
    OccursAt(d, st, i) && forall k :: 0 <= k < i ==> !OccursAt(d, st, k)
  }

  /** The line that ends at the delimiter's first occurrence. */
  ghost predicate EndsAtFirst(eol: Text, st: Text, line: Line) {
    match line
    case Found(text, rest) => IsFirst(eol, st, |text|) && text == st[..|text|] && rest == st[|text| + |eol|..]
    case Missing => forall k: nat :: !OccursAt(eol, st, k)
  }

  /** Wherever the first byte recurs in the delimiter, the delimiter overlaps itself. */
  predicate Restartable(eol: Text)
    requires eol != []
  {
    forall j :: 0 < j < |eol| && eol[j] == eol[0] ==> eol[j..] == eol[..|eol| - j]
  }

  lemma NotAt(d: Text, st: Text, k: nat, x: nat)
    requires x < |d| && (k + x < |st| ==> st[k + x] != d[x])
    ensures !OccursAt(d, st, k)
  {
    if k + |d| <= |st| {
      assert st[k..k + |d|][x] == st[k + x];
    }
  }

  lemma AgreeAt(a: Text, b: Text, x: nat)
    requires x < Agree(a, b)
    ensures a[x] == b[x]
  {
    var m := Agree(a, b);
    assert a[..m][x] == b[..m][x];
  }

  lemma AgreeStops(a: Text, b: Text, x: nat)
    requires x < |a| && x < |b| && a[x] != b[x]
    ensures Agree(a, b) <= x
  {
    if x < Agree(a, b) {
      AgreeAt(a, b, x);
    }
  }

  lemma {:induction false} AgreeReaches(a: Text, b: Text, j: nat)
    requires j <= |a| && j <= |b| && forall x :: 0 <= x < j ==> a[x] == b[x]
    ensures j <= Agree(a, b)
  {
    if j > 0 {
      AgreeReaches(a[1..], b[1..], j - 1);
    }
  }

  lemma OverlapAt(eol: Text, j: nat, m: nat)
    requires eol != [] && Restartable(eol) && 0 < j <= m < |eol| && eol[j] == eol[0]
    ensures eol[m] == eol[m - j]
  {
    assert eol[j..][m - j] == eol[..|eol| - j][m - j];
  }

  /** An occurrence cannot begin inside what the scanner skips. */
  lemma SkipsNothing(eol: Text, st: Text, i: nat, m: nat, k: nat)
    requires eol != [] && Restartable(eol)
    requires i < |st| && eol[0] !in st[..i] && m == Agree(eol, st[i..]) && m < |eol|
    requires k < i + m
    ensures !OccursAt(eol, st, k)
  {
    hide Agree, Restartable, OccursAt;
    if k < i {
      assert st[k] == st[..i][k];
      NotAt(eol, st, k, 0);
    } else {
      var j := k - i;
      AgreeAt(eol, st[i..], j);
      assert st[i..][j] == st[k];
      if j > 0 && eol[j] != eol[0] {
        NotAt(eol, st, k, 0);
      } else {
        if j > 0 {
          OverlapAt(eol, j, m);
        }
        assert k + (m - j) == i + m;
        assert i + m < |st| ==> st[i..][m] == st[i + m];
        NotAt(eol, st, k, m - j);
      }
    }
  }

  /** If every recurrence of its first byte makes the delimiter overlap itself, the line ends at the
      delimiter's first occurrence in the stream. */
  lemma {:induction false} ScanFindsFirst(eol: Text, st: Text)
    requires eol != [] && Restartable(eol)
    ensures EndsAtFirst(eol, st, ScanLine(eol, st))
    decreases |st|
  {
    var i := Find(st, eol[0]);
    if i == |st| {
      forall k: nat
        ensures !OccursAt(eol, st, k)
      {
        assert k < |st| ==> st[..i][k] == st[k];
        NotAt(eol, st, k, 0);
      }
    } else {
      var m := Agree(eol, st[i..]);
      AgreesOnce(eol, st, i);
      if m == |eol| {
        assert st[i..i + m] == st[i..][..m];
        forall k | 0 <= k < i
          ensures !OccursAt(eol, st, k)
        {
          assert st[k] == st[..i][k];
          NotAt(eol, st, k, 0);
        }
      } else {
        ScanSkips(eol, st, i, m);
      }
    }
  }

  lemma {:induction false} ScanSkips(eol: Text, st: Text, i: nat, m: nat)
    requires eol != [] && Restartable(eol)
    requires i == Find(st, eol[0]) < |st| && m == Agree(eol, st[i..]) && 0 < m < |eol|
    ensures EndsAtFirst(eol, st, ScanLine(eol, st))
    decreases |st|, 0
  {
    var a := i + m;
    forall k: nat | k < a
      ensures !OccursAt(eol, st, k)
    {
      SkipsNothing(eol, st, i, m, k);
    }
    if a < |st| {
      ScanFindsFirst(eol, st[a..]);
      Cut(eol, st, i, m);
      assert st[..a] == st[..i] + eol[..m];
      FirstBehind(eol, st, a, ScanLine(eol, st[a..]));
    } else {
      forall k: nat
        ensures !OccursAt(eol, st, k)
      {
      }
    }
  }

  /** A line found behind a stretch in which no occurrence begins. */
  lemma FirstBehind(eol: Text, st: Text, a: nat, line: Line)
    requires eol != [] && a <= |st| && EndsAtFirst(eol, st[a..], line)
    requires forall k: nat :: k < a ==> !OccursAt(eol, st, k)
    ensures EndsAtFirst(eol, st,
              match line case Found(text, rest) => Found(st[..a] + text, rest) case Missing => Missing)
  {
    Shift(eol, st, a);
    match line
    case Found(text, rest) =>
      var e := a + |text|;
      assert OccursAt(eol, st, e);
      forall k: nat | k < e
        ensures !OccursAt(eol, st, k)
      {
        if k >= a {
          assert !OccursAt(eol, st[a..], k - a);
        }
      }
      assert st[..a] + text == st[..e];
      assert rest == st[e + |eol|..];
    case Missing =>
      forall k: nat
        ensures !OccursAt(eol, st, k)
      {
        if k >= a {
          assert !OccursAt(eol, st[a..], k - a);
        }
      }
  }

  lemma Shift(eol: Text, st: Text, a: nat)
    requires a <= |st|
    ensures forall k: nat :: OccursAt(eol, st[a..], k) <==> OccursAt(eol, st, a + k)
  {
    forall k: nat
      ensures OccursAt(eol, st[a..], k) <==> OccursAt(eol, st, a + k)
    {
      if a + k + |eol| <= |st| {
        assert st[a..][k..k + |eol|] == st[a + k..a + k + |eol|];
      }
    }
  }

  /** If the first byte recurs at `j` without such an overlap, the delimiter is missed in the stream made
      of its first `j` bytes and itself. */
  lemma ScanMisses(eol: Text, j: nat)
    requires 0 < j < |eol| && eol[j] == eol[0] && eol[j..] != eol[..|eol| - j]
    ensures !EndsAtFirst(eol, eol[..j] + eol, ScanLine(eol, eol[..j] + eol))
  {
    hide ScanLine, Agree;
    var st := eol[..j] + eol;
    assert OccursAt(eol, st, j);
    PrefixTwice(eol, j);
    var x := Differs(eol[j..], eol[..|eol| - j]);
    assert eol[j..][x] == eol[j + x] && st[j + x] == eol[x];
    AgreeStops(eol, st, j + x);
    ScanPasses(eol, st);
  }

  lemma PrefixTwice(eol: Text, j: nat)
    requires 0 < j < |eol| && eol[j] == eol[0]
    ensures j < Agree(eol, eol[..j] + eol)
  {
    var a, b := eol, eol[..j] + eol;
    forall x | 0 <= x < j + 1
      ensures a[x] == b[x]
    {
      if x < j { assert b[x] == eol[..j][x]; } else { assert b[x] == eol[0]; }
    }
    AgreeReaches(a, b, j + 1);
  }

  /** A partial match at the front becomes text. */
  lemma ScanPasses(eol: Text, st: Text)
    requires eol != [] && st != [] && st[0] == eol[0] && Agree(eol, st) < |eol|
    ensures ScanLine(eol, st).Found? ==> |ScanLine(eol, st).text| >= Agree(eol, st)
  {
    FindIs(st, eol[0], 0);
    assert st[0..] == st;
  }

  lemma Differs(a: Text, b: Text) returns (x: nat)
    requires |a| == |b| && a != b
    ensures x < |a| && a[x] != b[x]
  {
    x :| x < |a| && a[x] != b[x];
  }

  /** getline(s, eol) ends at the first occurrence of eol in every stream, exactly when eol is restartable. */
  lemma FirstOccurrenceExactly(eol: Text)
    requires eol != []
    ensures (forall st :: EndsAtFirst(eol, st, ScanLine(eol, st))) <==> Restartable(eol)
  {
    if Restartable(eol) {
      forall st
        ensures EndsAtFirst(eol, st, ScanLine(eol, st))
      {
        ScanFindsFirst(eol, st);
      }
    } else {
      var j :| 0 < j < |eol| && eol[j] == eol[0] && eol[j..] != eol[..|eol| - j];
      ScanMisses(eol, j);
    }
  }
}
