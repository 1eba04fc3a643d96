/**
 * The specification of `piece`: splitting a Latin-1 subject on a literal,
 * possibly multi-byte delimiter, stated as pure recursive functions.
 *
 * `Split` is the reference definition the scanning loop of `piece` is proved
 * against; `Join` is its inverse; `Leftmost` says which partitions of a
 * subject a leftmost, non-overlapping scan can produce.
 */
module Segments {

  /** A Latin-1 character: one byte of a string passed with ERL_NIF_LATIN1. */
  type Latin1 = c: char | c <= '\U{FF}' witness 'a'

  type Bytes = seq<Latin1>

  /** The terminating byte of a C string. */
  const NUL: Latin1 := '\0'

  /**
   * The inner `for` loop of `piece` succeeds at cursor position `i`: every
   * delimiter byte is present, is not the terminating NUL, and equals the
   * subject byte at the same offset. A candidate running past the end of the
   * subject reaches the NUL and fails, hence `i + |d| <= |s|`.
   */
  predicate DelimAt(s: Bytes, d: Bytes, i: nat)
  {
    i + |d| <= |s| && forall k :: 0 <= k < |d| ==> s[i + k] == d[k] && s[i + k] != NUL
  }

  /**
   * The segments of `s`, scanning left to right: a delimiter match at the
   * front yields an empty first segment and the scan resumes after the
   * delimiter; otherwise the first byte belongs to the first segment.
   * The final segment is always present, so the result is never empty.
   */
  function Split(s: Bytes, d: Bytes): (r: seq<Bytes>)
    requires |d| >= 1
    ensures |r| >= 1
    decreases |s|
  {
    if |s| == 0 then [[]]
    else if DelimAt(s, d, 0) then [[]] + Split(s[|d|..], d)
    else
      var rest := Split(s[1..], d);
      [[s[0]] + rest[0]] + rest[1..]
  }

  /** The segments with the delimiter between consecutive ones. */
  function Join(parts: seq<Bytes>, d: Bytes): Bytes
  {
    if |parts| == 0 then []
    else if |parts| == 1 then parts[0]
    else parts[0] + d + Join(parts[1..], d)
  }

  /**
   * No segment starts or contains a delimiter match that a left-to-right scan
   * would have taken first: inside each segment, the text from the segment's
   * start to the end of the subject has no match before the segment ends.
   */
  ghost predicate Leftmost(parts: seq<Bytes>, d: Bytes)
  {
    |parts| == 0 ||
    ((forall i :: 0 <= i < |parts[0]| ==> !DelimAt(Join(parts, d), d, i)) && Leftmost(parts[1..], d))
  }

  /** Total number of bytes in the segments. */
  function TotalLength(parts: seq<Bytes>): nat
  {
    if |parts| == 0 then 0 else |parts[0]| + TotalLength(parts[1..])
  }

  // ---------------------------------------------------------------------
  // Matching relative to a suffix of the subject

  /** A match `p` bytes into `s` is a match at the same offset of `s[p..]`. */
  lemma DelimAtDrop(s: Bytes, d: Bytes, p: nat, i: nat)
    requires p <= |s|
    ensures DelimAt(s, d, p + i) == DelimAt(s[p..], d, i)
  {
    DelimAtSlice(s, d, p + i);
    DelimAtSlice(s[p..], d, i);
    if p + i + |d| <= |s| {
      assert s[p..][i..i + |d|] == s[p + i..p + i + |d|];
    }
  }

  /** The byte-by-byte test read as a whole: the slice equals the delimiter. */
  lemma DelimAtSlice(s: Bytes, d: Bytes, i: nat)
    ensures DelimAt(s, d, i) <==> i + |d| <= |s| && s[i..i + |d|] == d && NUL !in d
  {
    if i + |d| <= |s| && s[i..i + |d|] == d && NUL !in d {
      forall k | 0 <= k < |d|
        ensures s[i + k] == d[k] && s[i + k] != NUL
      {
        assert s[i..i + |d|][k] == d[k];
      }
    }
    if DelimAt(s, d, i) {
      assert s[i..i + |d|] == d;
      assert forall k :: 0 <= k < |d| ==> d[k] != NUL;
    }
  }

  /** A match inside `u` stays a match when more bytes follow. */
  lemma DelimAtPrefix(u: Bytes, t: Bytes, d: Bytes, i: nat)
    ensures DelimAt(u, d, i) ==> DelimAt(u + t, d, i)
  {
    DelimAtSlice(u, d, i);
    DelimAtSlice(u + t, d, i);
    if DelimAt(u, d, i) {
      assert (u + t)[i..i + |d|] == u[i..i + |d|];
    }
  }

  /** A match at `pos` ends the current segment; the scan resumes after it. */
  lemma SplitAtMatch(s: Bytes, d: Bytes, pos: nat)
    requires |d| >= 1 && pos <= |s| && DelimAt(s, d, pos)
    ensures pos + |d| <= |s|
    ensures Split(s[pos..], d) == [[]] + Split(s[pos + |d|..], d)
  {
    DelimAtDrop(s, d, pos, 0);
    var rest := s[pos..];
    assert DelimAt(rest, d, 0);
    assert |rest| != 0;
    assert Split(rest, d) == [[]] + Split(rest[|d|..], d);
    assert rest[|d|..] == s[pos + |d|..];
  }

  /** No match at `pos`: the byte there belongs to the current segment. */
  lemma SplitNoMatch(s: Bytes, d: Bytes, pos: nat)
    requires |d| >= 1 && pos < |s| && !DelimAt(s, d, pos)
    ensures Split(s[pos..], d) == [[s[pos]] + Split(s[pos + 1..], d)[0]] + Split(s[pos + 1..], d)[1..]
  {
    DelimAtDrop(s, d, pos, 0);
    var rest := s[pos..];
    assert rest[1..] == s[pos + 1..] && rest[0] == s[pos];
  }

  /** Prepending bytes that hold no match shifts every match of the rest. */
  lemma DelimAtAppend(u: Bytes, t: Bytes, d: Bytes, i: nat)
    ensures DelimAt(u + t, d, |u| + i) == DelimAt(t, d, i)
  {
    assert (u + t)[|u|..] == t;
    DelimAtDrop(u + t, d, |u|, i);
  }

  // ---------------------------------------------------------------------
  // Join is the inverse of Split

  /** Gluing bytes onto the first segment glues them onto the joined text. */
  lemma {:induction false} JoinCons(x: Bytes, parts: seq<Bytes>, d: Bytes)
    requires |parts| >= 1
    ensures Join([x + parts[0]] + parts[1..], d) == x + Join(parts, d)
  {
    var q := [x + parts[0]] + parts[1..];
    assert q[1..] == parts[1..];
    if |parts| > 1 {
      assert Join(q, d) == (x + parts[0]) + d + Join(parts[1..], d);
      assert Join(parts, d) == parts[0] + d + Join(parts[1..], d);
    }
  }

  /**
   * Round trip: joining the segments with the delimiter reconstructs the
   * subject exactly.
   */
  lemma {:induction false} JoinSplit(s: Bytes, d: Bytes)
    requires |d| >= 1
    ensures Join(Split(s, d), d) == s
    decreases |s|
  {
    if |s| == 0 {
    } else if DelimAt(s, d, 0) {
      var rest := Split(s[|d|..], d);
      JoinSplit(s[|d|..], d);
      assert s[..|d|] == d;
      assert ([[]] + rest)[1..] == rest;
      calc {
        Join(Split(s, d), d);
        Join([[]] + rest, d);
        [] + d + Join(rest, d);
        s[..|d|] + s[|d|..];
        s;
      }
    } else {
      var rest := Split(s[1..], d);
      JoinSplit(s[1..], d);
      JoinCons([s[0]], rest, d);
      assert [s[0]] + s[1..] == s;
    }
  }

  // ---------------------------------------------------------------------
  // Split is exactly the leftmost, non-overlapping partition

  /** Split's segments leave no match for the scan to have taken earlier. */
  lemma {:induction false} SplitIsLeftmost(s: Bytes, d: Bytes)
    requires |d| >= 1
    ensures Leftmost(Split(s, d), d)
    decreases |s|
  {
    if |s| == 0 {
      assert Split(s, d)[1..] == [];
    } else if DelimAt(s, d, 0) {
      var rest := Split(s[|d|..], d);
      SplitIsLeftmost(s[|d|..], d);
      assert ([[]] + rest)[1..] == rest;
    } else {
      var rest := Split(s[1..], d);
      var parts := Split(s, d);
      SplitIsLeftmost(s[1..], d);
      assert parts[1..] == rest[1..];
      JoinSplit(s, d);
      JoinSplit(s[1..], d);
      forall i | 0 <= i < |parts[0]|
        ensures !DelimAt(Join(parts, d), d, i)
      {
        if i > 0 {
          DelimAtAppend([s[0]], s[1..], d, i - 1);
          assert [s[0]] + s[1..] == s;
        }
      }
    }
  }

  /**
   * When no match starts inside `u`, the bytes of `u` open the first segment
   * and the scan continues on `t` as if `u` were not there.
   */
  lemma {:induction false} SplitPrefix(u: Bytes, t: Bytes, d: Bytes)
    requires |d| >= 1
    requires forall i :: 0 <= i < |u| ==> !DelimAt(u + t, d, i)
    ensures Split(u + t, d) == [u + Split(t, d)[0]] + Split(t, d)[1..]
    decreases |u|
  {
    if |u| == 0 {
      assert u + t == t;
      assert u + Split(t, d)[0] == Split(t, d)[0];
      assert Split(t, d) == [Split(t, d)[0]] + Split(t, d)[1..];
    } else {
      var u' := u[1..];
      assert (u + t)[1..] == u' + t;
      forall i | 0 <= i < |u'|
        ensures !DelimAt(u' + t, d, i)
      {
        DelimAtDrop(u + t, d, 1, i);
      }
      SplitPrefix(u', t, d);
      assert [u[0]] + (u' + Split(t, d)[0]) == u + Split(t, d)[0];
    }
  }

  /** A subject with no match at all is a single segment. */
  lemma NoMatchSingleSegment(s: Bytes, d: Bytes)
    requires |d| >= 1
    requires forall i :: 0 <= i < |s| ==> !DelimAt(s, d, i)
    ensures Split(s, d) == [s]
  {
    assert s + [] == s;
    SplitPrefix(s, [], d);
  }

  /**
   * Split is characterised by three facts: it is non-empty, it joins back to
   * the subject, and it is leftmost. Any partition with those facts is the
   * one Split returns (for a delimiter the C test can match at all, i.e. one
   * without a NUL byte).
   */
  lemma {:induction false} LeftmostUnique(s: Bytes, d: Bytes, parts: seq<Bytes>)
    requires |d| >= 1 && NUL !in d
    requires |parts| >= 1 && Join(parts, d) == s && Leftmost(parts, d)
    ensures parts == Split(s, d)
    decreases |parts|
  {
    var p0 := parts[0];
    if |parts| == 1 {
      assert p0 + [] == s;
      SplitPrefix(p0, [], d);
    } else {
      var j := Join(parts[1..], d);
      assert s == p0 + (d + j);
      SplitPrefix(p0, d + j, d);
      assert DelimAt(d + j, d, 0);
      assert (d + j)[|d|..] == j;
      LeftmostUnique(j, d, parts[1..]);
      assert Split(d + j, d) == [[]] + parts[1..];
      assert ([[]] + parts[1..])[1..] == parts[1..];
      assert p0 + [] == p0;
      assert parts == [p0] + parts[1..];
    }
  }

  /** Both directions: a partition is Split's result iff it has the three facts. */
  lemma SplitCharacterization(s: Bytes, d: Bytes, parts: seq<Bytes>)
    requires |d| >= 1 && NUL !in d
    ensures parts == Split(s, d) <==> (|parts| >= 1 && Join(parts, d) == s && Leftmost(parts, d))
  {
    if parts == Split(s, d) {
      JoinSplit(s, d);
      SplitIsLeftmost(s, d);
    }
    if |parts| >= 1 && Join(parts, d) == s && Leftmost(parts, d) {
      LeftmostUnique(s, d, parts);
    }
  }

  // ---------------------------------------------------------------------
  // Segments never hold the delimiter

  lemma {:induction false} LeftmostSegment(parts: seq<Bytes>, d: Bytes, k: nat, i: nat)
    requires |d| >= 1 && Leftmost(parts, d) && k < |parts|
    ensures !DelimAt(parts[k], d, i)
    decreases k
  {
    if k > 0 {
      assert parts[1..][k - 1] == parts[k];
      LeftmostSegment(parts[1..], d, k - 1, i);
    } else {
      var j := Join(parts, d);
      assert parts[0] + j[|parts[0]|..] == j;
      DelimAtPrefix(parts[0], j[|parts[0]|..], d, i);
    }
  }

  /**
   * No segment contains the delimiter as a contiguous substring: every byte
   * collected into a segment came from a position where the match failed.
   */
  lemma NoSegmentContainsDelim(s: Bytes, d: Bytes, k: nat, i: nat)
    requires |d| >= 1 && k < |Split(s, d)|
    ensures !DelimAt(Split(s, d)[k], d, i)
  {
    SplitIsLeftmost(s, d);
    LeftmostSegment(Split(s, d), d, k, i);
  }

  // ---------------------------------------------------------------------
  // Sizes

  lemma {:induction false} JoinLength(parts: seq<Bytes>, d: Bytes)
    requires |parts| >= 1
    ensures |Join(parts, d)| == TotalLength(parts) + (|parts| - 1) * |d|
    decreases |parts|
  {
    if |parts| > 1 {
      JoinLength(parts[1..], d);
      assert (|parts| - 1) * |d| == (|parts| - 2) * |d| + |d|;
    }
  }

  lemma {:induction false} SegmentWithinTotal(parts: seq<Bytes>, k: nat)
    requires k < |parts|
    ensures |parts[k]| <= TotalLength(parts)
    decreases k
  {
    if k > 0 {
      SegmentWithinTotal(parts[1..], k - 1);
    }
  }

  /**
   * Every segment and every delimiter occurrence consumed is paid for by
   * subject bytes: the number of delimiter matches times |d| fits in |s|,
   * and each segment is at most |s| minus those delimiter bytes.
   */
  lemma SplitSizes(s: Bytes, d: Bytes, k: nat)
    requires |d| >= 1 && k < |Split(s, d)|
    ensures (|Split(s, d)| - 1) * |d| <= |s|
    ensures |Split(s, d)[k]| <= |s| - (|Split(s, d)| - 1) * |d|
  {
    JoinSplit(s, d);
    JoinLength(Split(s, d), d);
    SegmentWithinTotal(Split(s, d), k);
  }
}
