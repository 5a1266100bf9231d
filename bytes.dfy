/** Byte strings and the three operations of Go's `bytes` package that the
    keyed-record codec relies on: `Index` (first occurrence of a separator),
    `SplitN` and `Join`. */
module Bytes {

  type byte = b: int | 0 <= b < 256

  type Bytes = seq<byte>

  datatype Option<+T> = None | Some(value: T)

  /** The tab byte, '\t'. */
  const Tab: byte := 9

  /** `d` occurs in `s` starting at index `i`. */
  predicate OccursAt(s: Bytes, d: Bytes, i: int) {
    0 <= i && i + |d| <= |s| && s[i..i + |d|] == d
  }

  /** `d` occurs somewhere in `s`. */
  ghost predicate Contains(s: Bytes, d: Bytes) {
    exists i :: OccursAt(s, d, i)
  }

  /** Index of the first occurrence of the non-empty separator `d` in `s`
      at or after `from`. */
  function FirstIndexFrom(s: Bytes, d: Bytes, from: nat): (r: Option<nat>)
    requires |d| > 0
    ensures r.Some? ==> from <= r.value && OccursAt(s, d, r.value)
    ensures r.Some? ==> forall j :: from <= j < r.value ==> !OccursAt(s, d, j)
    ensures r.None? ==> forall j :: from <= j ==> !OccursAt(s, d, j)
    decreases |s| - from
  {
    if |s| < from + |d| then None
    else if s[from..from + |d|] == d then Some(from)
    else FirstIndexFrom(s, d, from + 1)
  }

  /** Index of the first (leftmost) occurrence of the non-empty separator `d`
      in `s`, as Go's `bytes.Index`; `None` where Go answers -1. */
  function FirstIndexOf(s: Bytes, d: Bytes): (r: Option<nat>)
    requires |d| > 0
    ensures r.Some? ==> OccursAt(s, d, r.value)
    ensures r.Some? ==> forall j :: 0 <= j < r.value ==> !OccursAt(s, d, j)
    ensures r.None? ==> !Contains(s, d)
  {
    FirstIndexFrom(s, d, 0)
  }

  /** An occurrence that no earlier occurrence precedes is what FirstIndexOf finds. */
  lemma FirstIndexOfUnique(s: Bytes, d: Bytes, i: nat)
    requires |d| > 0
    requires OccursAt(s, d, i)
    requires forall j :: 0 <= j < i ==> !OccursAt(s, d, j)
    ensures FirstIndexOf(s, d) == Some(i)
  {
  }

  /** Occurrences inside a prefix are occurrences in the whole sequence. */
  lemma OccursAtPrefix(p: Bytes, q: Bytes, d: Bytes, i: int)
    requires OccursAt(p, d, i)
    ensures OccursAt(p + q, d, i)
  {
    assert (p + q)[i..i + |d|] == p[i..i + |d|];
  }

  /** The bytes before the first occurrence of `d` contain no occurrence of `d`. */
  lemma BeforeFirstHasNone(s: Bytes, d: Bytes, m: nat)
    requires |d| > 0 && FirstIndexOf(s, d) == Some(m)
    ensures !Contains(s[..m], d)
  {
    assert s[..m] + s[m..] == s;
    forall j | OccursAt(s[..m], d, j) ensures false {
      OccursAtPrefix(s[..m], s[m..], d, j);
    }
  }

  /** Sum of the lengths of `parts`. */
  function TotalLength(parts: seq<Bytes>): nat {
    if parts == [] then 0 else |parts[0]| + TotalLength(parts[1..])
  }

  /** Go's `bytes.Join`: the parts with one copy of `sep` between each
      neighbouring pair. */
  function Join(parts: seq<Bytes>, sep: Bytes): (r: Bytes)
  {
    if |parts| == 0 then []
    else if |parts| == 1 then parts[0]
    else parts[0] + sep + Join(parts[1..], sep)
  }

  /** The length of a join: every part once, and one separator fewer than parts. */
  lemma {:induction false} JoinLength(parts: seq<Bytes>, sep: Bytes)
    requires |parts| > 0
    ensures |Join(parts, sep)| + |sep| == TotalLength(parts) + |parts| * |sep|
  {
    if |parts| > 1 {
      JoinLength(parts[1..], sep);
    }
  }

  /** Joining a non-empty tail after a first part. */
  lemma JoinCons(p: Bytes, rest: seq<Bytes>, sep: Bytes)
    requires |rest| > 0
    ensures Join([p] + rest, sep) == p + sep + Join(rest, sep)
  {
    assert ([p] + rest)[1..] == rest;
  }

  /** Joining two parts puts one separator between them. */
  lemma JoinPair(a: Bytes, b: Bytes, sep: Bytes)
    ensures Join([a, b], sep) == a + sep + b
  {
    assert [a, b][1..] == [b];
  }

  /** `s` is the bytes before an occurrence of `d`, `d`, and the bytes after it. */
  lemma CutAroundOccurrence(s: Bytes, d: Bytes, m: nat)
    requires OccursAt(s, d, m)
    ensures s == s[..m] + d + s[m + |d|..]
  {
    assert s == s[..m] + s[m..m + |d|] + s[m + |d|..];
  }

  /** Cutting `s` at an occurrence of `sep` and joining the pieces back gives `s`. */
  lemma JoinAtOccurrence(s: Bytes, sep: Bytes, m: nat, rest: seq<Bytes>)
    requires OccursAt(s, sep, m)
    requires |rest| > 0 && Join(rest, sep) == s[m + |sep|..]
    ensures Join([s[..m]] + rest, sep) == s
  {
    var a, b := s[..m], s[m + |sep|..];
    JoinCons(a, rest, sep);
    CutAroundOccurrence(s, sep, m);
    assert Join([a] + rest, sep) == a + sep + b;
  }

  /** Go's `bytes.SplitN` with a non-empty separator and a count `n >= 0`:
      at most `n` pieces, cut at the first `n - 1` occurrences of `sep`
      from the left; the last piece keeps every later occurrence. */
  function SplitN(s: Bytes, sep: Bytes, n: nat): (parts: seq<Bytes>)
    requires |sep| > 0
    ensures n == 0 ==> parts == []
    ensures n > 0 ==> 1 <= |parts| <= n
    decreases n
  {
    if n == 0 then []
    else if n == 1 then [s]
    else
      match FirstIndexOf(s, sep)
      case None => [s]
      case Some(m) =>
        [s[..m]] + SplitN(s[m + |sep|..], sep, n - 1)
  }

  /** SplitN with a count of at least two and a separator that occurs cuts
      off the bytes before the first occurrence. */
  lemma SplitNAtFirst(s: Bytes, sep: Bytes, n: nat, m: nat, t: Bytes)
    requires |sep| > 0 && n >= 2 && FirstIndexOf(s, sep) == Some(m) && t == s[m + |sep|..]
    ensures SplitN(s, sep, n) == [s[..m]] + SplitN(t, sep, n - 1)
  {
    var rest := SplitN(t, sep, n - 1);
    assert SplitN(s, sep, n) == [s[..m]] + rest;
  }

  /** SplitN returns more than one piece only when it was allowed to cut and
      found an occurrence to cut at. */
  lemma SplitNMoreThanOne(s: Bytes, sep: Bytes, n: nat)
    requires |sep| > 0 && |SplitN(s, sep, n)| > 1
    ensures n >= 2 && FirstIndexOf(s, sep).Some?
  {
  }

  /** Every piece of SplitN but the last was cut off before an occurrence of
      `sep`, so none of them contains `sep`. */
  lemma {:induction false} SplitNPiecesBeforeLast(s: Bytes, sep: Bytes, n: nat, k: nat)
    requires |sep| > 0 && k + 1 < |SplitN(s, sep, n)|
    ensures !Contains(SplitN(s, sep, n)[k], sep)
  {
    SplitNMoreThanOne(s, sep, n);
    var m: nat := FirstIndexOf(s, sep).value;
    var t := s[m + |sep|..];
    SplitNAtFirst(s, sep, n, m, t);
    if k == 0 {
      BeforeFirstHasNone(s, sep, m);
    } else {
      SplitNPiecesBeforeLast(t, sep, n - 1, k - 1);
    }
  }

  /** With a count of one, or no occurrence, SplitN returns the input as its
      one piece, and joining that piece gives back the input. */
  lemma SplitNUncut(s: Bytes, sep: Bytes, n: nat)
    requires |sep| > 0 && n > 0 && (n == 1 || FirstIndexOf(s, sep).None?)
    ensures SplitN(s, sep, n) == [s] && Join(SplitN(s, sep, n), sep) == s
  {
    assert SplitN(s, sep, n) == [s];
    assert Join([s], sep) == s;
  }

  /** The inductive step of SplitNThenJoin: if the pieces after the first
      occurrence join back to the rest, all pieces join back to `s`. */
  lemma SplitNThenJoinStep(s: Bytes, sep: Bytes, n: nat, m: nat, t: Bytes)
    requires |sep| > 0 && n >= 2 && FirstIndexOf(s, sep) == Some(m)
    requires t == s[m + |sep|..] && Join(SplitN(t, sep, n - 1), sep) == t
    ensures Join(SplitN(s, sep, n), sep) == s
  {
    SplitNAtFirst(s, sep, n, m, t);
    JoinAtOccurrence(s, sep, m, SplitN(t, sep, n - 1));
  }

  /** Joining the pieces of SplitN with the separator gives back the input. */
  lemma {:induction false} SplitNThenJoin(s: Bytes, sep: Bytes, n: nat)
    requires |sep| > 0 && n > 0
    ensures Join(SplitN(s, sep, n), sep) == s
  {
    var first := FirstIndexOf(s, sep);
    if n == 1 || first.None? {
      SplitNUncut(s, sep, n);
    } else {
      var m: nat := first.value;
      var t := s[m + |sep|..];
      SplitNThenJoin(t, sep, n - 1);
      SplitNThenJoinStep(s, sep, n, m, t);
    }
  }

  /** Where SplitN cuts: for every piece but the last, the first occurrence
      of `sep` in what is left from that piece on sits right after it. */
  lemma {:induction false} SplitNCutsAtFirst(s: Bytes, sep: Bytes, n: nat, k: nat)
    requires |sep| > 0 && k + 1 < |SplitN(s, sep, n)|
    ensures FirstIndexOf(Join(SplitN(s, sep, n)[k..], sep), sep) == Some(|SplitN(s, sep, n)[k]|)
  {
    SplitNMoreThanOne(s, sep, n);
    var m: nat := FirstIndexOf(s, sep).value;
    var t := s[m + |sep|..];
    SplitNAtFirst(s, sep, n, m, t);
    var parts := SplitN(s, sep, n);
    var rest := SplitN(t, sep, n - 1);
    if k == 0 {
      assert parts[0..] == parts && |parts[0]| == m;
      SplitNThenJoin(s, sep, n);
    } else {
      assert parts[k..] == rest[k - 1..] && parts[k] == rest[k - 1];
      SplitNCutsAtFirst(t, sep, n - 1, k - 1);
    }
  }

  /** The inductive step of SplitNLastUncut: after a cut, if the split of
      what follows the cut ends in a piece free of `sep` whenever it stops
      short of its count, so does the whole split. */
  lemma SplitNLastUncutStep(s: Bytes, sep: Bytes, n: nat, m: nat, t: Bytes)
    requires |sep| > 0 && n >= 2 && FirstIndexOf(s, sep) == Some(m) && t == s[m + |sep|..]
    requires |SplitN(t, sep, n - 1)| < n - 1
             ==> !Contains(SplitN(t, sep, n - 1)[|SplitN(t, sep, n - 1)| - 1], sep)
    ensures |SplitN(s, sep, n)| < n ==> !Contains(SplitN(s, sep, n)[|SplitN(s, sep, n)| - 1], sep)
  {
    SplitNAtFirst(s, sep, n, m, t);
    var parts, rest := SplitN(s, sep, n), SplitN(t, sep, n - 1);
    assert parts[|parts| - 1] == rest[|rest| - 1];
  }

  /** When SplitN returns fewer than `n` pieces it ran out of occurrences:
      the last piece holds no `sep`. */
  lemma {:induction false} SplitNLastUncut(s: Bytes, sep: Bytes, n: nat)
    requires |sep| > 0 && n > 0
    ensures |SplitN(s, sep, n)| < n ==> !Contains(SplitN(s, sep, n)[|SplitN(s, sep, n)| - 1], sep)
  {
    var first := FirstIndexOf(s, sep);
    if n == 1 || first.None? {
      SplitNUncut(s, sep, n);
    } else {
      var m: nat := first.value;
      var t := s[m + |sep|..];
      SplitNLastUncut(t, sep, n - 1);
      SplitNLastUncutStep(s, sep, n, m, t);
    }
  }

  /** Every part but the last ends right before the first occurrence of
      `sep` in the join of the parts from it on. */
  ghost predicate CutsAtFirst(parts: seq<Bytes>, sep: Bytes)
    requires |sep| > 0
  {
    forall k {:trigger FirstIndexOf(Join(parts[k..], sep), sep)} :: 0 <= k < |parts| - 1 ==>
      FirstIndexOf(Join(parts[k..], sep), sep) == Some(|parts[k]|)
  }

  /** What `bytes.SplitN(s, sep, n)` promises, stated without computing it:
      no pieces for a count of 0; otherwise between one and `n` pieces that
      join back to `s`, each cut at the first occurrence left, and a last
      piece free of `sep` unless the count ran out. */
  ghost predicate IsSplitN(s: Bytes, sep: Bytes, n: nat, parts: seq<Bytes>)
    requires |sep| > 0
  {
    if n == 0 then parts == []
    else
      1 <= |parts| <= n && Join(parts, sep) == s && CutsAtFirst(parts, sep)
      && (|parts| < n ==> !Contains(parts[|parts| - 1], sep))
  }

  /** Dropping the first part keeps the cut property of the others. */
  lemma CutsAtFirstTail(parts: seq<Bytes>, sep: Bytes)
    requires |sep| > 0 && |parts| > 0 && CutsAtFirst(parts, sep)
    ensures CutsAtFirst(parts[1..], sep)
  {
    var tail := parts[1..];
    forall k | 0 <= k < |tail| - 1
      ensures FirstIndexOf(Join(tail[k..], sep), sep) == Some(|tail[k]|)
    {
      assert tail[k..] == parts[k + 1..];
    }
  }

  /** With more than one part, the first part ends at the first occurrence
      of `sep` in the whole join. */
  lemma CutsAtFirstHead(parts: seq<Bytes>, sep: Bytes)
    requires |sep| > 0 && CutsAtFirst(parts, sep)
    ensures |parts| > 1 ==> FirstIndexOf(Join(parts, sep), sep) == Some(|parts[0]|)
  {
    if |parts| > 1 {
      assert parts[0..] == parts;
    }
  }

  /** Pieces meeting the SplitN promise with more than one piece: the first
      ends at the first occurrence, and the rest meet the promise for what
      follows that occurrence, with a count one lower. */
  lemma IsSplitNStep(s: Bytes, sep: Bytes, n: nat, parts: seq<Bytes>, m: nat, t: Bytes, tail: seq<Bytes>)
    requires |sep| > 0 && n > 0 && |parts| > 1 && IsSplitN(s, sep, n, parts)
    requires m == |parts[0]| && t == s[m + |sep|..] && tail == parts[1..]
    ensures n >= 2 && FirstIndexOf(s, sep) == Some(m) && s[..m] == parts[0]
    ensures IsSplitN(t, sep, n - 1, tail)
  {
    var p := parts[0];
    CutsAtFirstHead(parts, sep);
    assert parts == [p] + tail;
    JoinCons(p, tail, sep);
    assert s == p + sep + Join(tail, sep);
    CutsAtFirstTail(parts, sep);
    assert parts[|parts| - 1] == tail[|tail| - 1];
  }

  /** A single piece meeting the SplitN promise is the input, and then no
      other number of pieces meets it. */
  lemma IsSplitNSingle(s: Bytes, sep: Bytes, n: nat, p: seq<Bytes>, q: seq<Bytes>)
    requires |sep| > 0 && n > 0 && |p| == 1 && IsSplitN(s, sep, n, p) && IsSplitN(s, sep, n, q)
    ensures p == q == [s]
  {
    assert p == [s];
    CutsAtFirstHead(q, sep);
    if n > 1 {
      assert !Contains(s, sep);
    }
    assert |q| == 1;
  }

  /** At most one list of pieces meets the SplitN promise. */
  lemma {:induction false} IsSplitNSame(s: Bytes, sep: Bytes, n: nat, p: seq<Bytes>, q: seq<Bytes>)
    requires |sep| > 0 && IsSplitN(s, sep, n, p) && IsSplitN(s, sep, n, q)
    ensures p == q
  {
    if n > 0 && |p| == 1 {
      IsSplitNSingle(s, sep, n, p, q);
    } else if n > 0 && |q| == 1 {
      IsSplitNSingle(s, sep, n, q, p);
    } else if n > 0 {
      var m: nat := |p[0]|;
      var t := s[m + |sep|..];
      var pt, qt := p[1..], q[1..];
      IsSplitNStep(s, sep, n, p, m, t, pt);
      CutsAtFirstHead(q, sep);
      IsSplitNStep(s, sep, n, q, m, t, qt);
      IsSplitNSame(t, sep, n - 1, pt, qt);
      assert p == [p[0]] + pt;
      assert q == [q[0]] + qt;
    }
  }

  /** SplitN keeps the promise. */
  lemma SplitNKeepsPromise(s: Bytes, sep: Bytes, n: nat)
    requires |sep| > 0
    ensures IsSplitN(s, sep, n, SplitN(s, sep, n))
  {
    var parts := SplitN(s, sep, n);
    if n > 0 {
      SplitNThenJoin(s, sep, n);
      forall k | 0 <= k < |parts| - 1
        ensures FirstIndexOf(Join(parts[k..], sep), sep) == Some(|parts[k]|)
      {
        SplitNCutsAtFirst(s, sep, n, k);
      }
      if |parts| < n {
        SplitNLastUncut(s, sep, n);
      }
    }
  }

  /** SplitN keeps its promise, and is the only list of pieces that does. */
  lemma SplitNCharacterised(s: Bytes, sep: Bytes, n: nat, parts: seq<Bytes>)
    requires |sep| > 0
    ensures IsSplitN(s, sep, n, parts) <==> parts == SplitN(s, sep, n)
  {
    SplitNKeepsPromise(s, sep, n);
    if IsSplitN(s, sep, n, parts) {
      IsSplitNSame(s, sep, n, parts, SplitN(s, sep, n));
    }
  }

  /** Splitting a join into as many pieces as were joined gives the parts
      back exactly when each part ends before the first occurrence of `sep`
      in the rest of the join. */
  lemma JoinThenSplitN(parts: seq<Bytes>, sep: Bytes)
    requires |sep| > 0 && |parts| > 0
    ensures SplitN(Join(parts, sep), sep, |parts|) == parts <==> CutsAtFirst(parts, sep)
  {
    SplitNCharacterised(Join(parts, sep), sep, |parts|, parts);
  }
}
