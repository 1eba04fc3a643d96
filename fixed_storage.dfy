/**
 * The scan of `piece` as written, with its fixed-size storage: the segment
 * accumulator `buf[256]` and the result array `result[MAXITEMS]`, neither
 * bounds-checked, and the extra loop iteration at the terminating NUL of
 * the subject.
 *
 * The model follows every write the C loop makes and reports whether one of
 * them falls outside its array. The lemmas exhibit inputs that pass the
 * size validation and still overflow; IterateAsWritten shows that an empty
 * delimiter never moves the cursor and keeps writing `result`.
 */
module FixedStorage {
  import opened Segments
  import opened EpieceNif

  /** Capacity of the accumulator `buf`, including its terminating NUL. */
  const BufSize: nat := 256
  /** Capacity of the result array. */
  const MaxItems: nat := MaxInput / 2

  /**
   * Every write stays in bounds: at most MaxItems segments are stored, a
   * segment followed by a delimiter occupies its bytes and a NUL, and the
   * final segment also receives the subject's own NUL (the extra iteration)
   * before its terminating NUL.
   */
  predicate FitsFixedStorage(parts: seq<Bytes>)
    requires |parts| >= 1
  {
    && |parts| <= MaxItems
    && (forall k :: 0 <= k < |parts| - 1 ==> |parts[k]| + 1 <= BufSize)
    && |parts[|parts| - 1]| + 2 <= BufSize
  }

  /** The segments stored so far and the accumulator length are in bounds. */
  ghost predicate WithinCapacity(stored: seq<Bytes>, bufLen: nat)
  {
    && |stored| <= MaxItems
    && (forall k :: 0 <= k < |stored| ==> |stored[k]| < BufSize)
    && bufLen < BufSize
  }

  /**
   * The C loop as written: the cursor runs up to and including the position
   * of the terminating NUL; a match emits `buf` into `result[n++]`; otherwise
   * `buf[bufLen++] = *pos++; buf[bufLen] = 0`. After the loop `buf` is
   * stored once more. `items` is the number of entries written to `result`;
   * `overflow` is set when a write lands outside `buf` or `result`.
   */
  method ScanFixedStorage(s: Bytes, d: Bytes) returns (items: nat, overflow: bool)
    requires |d| >= 1
    ensures items == |Split(s, d)|
    ensures overflow <==> !FitsFixedStorage(Split(s, d))
  {
    var pos := 0;
    var bufLen := 0;
    var n := 0;
    overflow := false;
    ghost var stored: seq<Bytes> := [];
    ghost var buf: Bytes := [];
    ResumeAtStart(s, d);
    while pos <= |s|
      invariant 0 <= pos <= |s| + 1
      invariant bufLen == |buf| && n == |stored|
      invariant pos <= |s| ==> Split(s, d) == Resume(stored, buf, Split(s[pos..], d))
      invariant pos == |s| + 1 ==> |buf| >= 1 && Split(s, d) == stored + [buf[..|buf| - 1]]
      invariant overflow <==> !WithinCapacity(stored, bufLen)
      decreases |s| + 1 - pos
    {
      var follows := MatchAt(s, d, pos);
      if follows {
        // result [n++] = ...; bufLen = 0; pos += delimLen;
        ResumeAfterMatch(s, d, pos, stored, buf);
        WithinCapacityStore(stored, buf);
        if n >= MaxItems {
          overflow := true;
        }
        stored := stored + [buf];
        n := n + 1;
        bufLen := 0;
        buf := [];
        pos := pos + |d|;
      } else {
        // buf [bufLen++] = *pos++; buf [bufLen] = 0;
        if bufLen + 1 >= BufSize {
          overflow := true;
        }
        if pos < |s| {
          ResumeAfterByte(s, d, pos, stored, buf);
          buf := buf + [s[pos]];
        } else {
          // the terminating NUL of the subject
          ResumeAtEnd(s, d, stored, buf);
          assert (buf + [NUL])[..|buf|] == buf;
          buf := buf + [NUL];
        }
        bufLen := bufLen + 1;
        pos := pos + 1;
      }
    }
    // result [n++] = ... (the final emit)
    WithinCapacityStore(stored, buf);
    if n >= MaxItems {
      overflow := true;
    }
    ghost var parts := Split(s, d);
    assert parts[..|parts| - 1] == stored && parts[|parts| - 1] == buf[..|buf| - 1];
    stored := stored + [buf];
    n := n + 1;
    items := n;
    FitsFixedStorageStored(parts, buf);
  }

  /** Storing the accumulator as one more segment, and resetting it. */
  lemma WithinCapacityStore(stored: seq<Bytes>, buf: Bytes)
    ensures WithinCapacity(stored + [buf], 0) <==> WithinCapacity(stored, |buf|) && |stored| < MaxItems
  {
    var t := stored + [buf];
    assert t[|stored|] == buf;
    assert forall k :: 0 <= k < |stored| ==> t[k] == stored[k];
  }

  /**
   * What the C code stores at the end, the leading segments and the final
   * accumulator holding the subject's NUL, is in bounds exactly when the
   * segments fit.
   */
  lemma FitsFixedStorageStored(parts: seq<Bytes>, buf: Bytes)
    requires |parts| >= 1 && |buf| == |parts[|parts| - 1]| + 1
    ensures WithinCapacity(parts[..|parts| - 1] + [buf], 0) <==> FitsFixedStorage(parts)
  {
    var t := parts[..|parts| - 1] + [buf];
    assert t[|parts| - 1] == buf;
    assert forall k :: 0 <= k < |parts| - 1 ==> t[k] == parts[k];
  }

  // ---------------------------------------------------------------------
  // Inputs that pass validation and overflow anyway

  /**
   * A final segment of 255 bytes passes validation but overflows `buf`: the
   * extra iteration appends the subject's NUL as byte 256 and then writes a
   * terminator at index 256.
   */
  lemma FinalSegmentOverflowsBuffer(s: Bytes)
    requires s == seq(255, _ => 'a')
    ensures FitsWithNul(s, MaxInput) && FitsWithNul([','], MaxDelim)
    ensures !FitsFixedStorage(Split(s, [',']))
  {
    forall i | 0 <= i < |s|
      ensures !DelimAt(s, [','], i)
    {
      DelimAtSlice(s, [','], i);
      if i + 1 <= |s| {
        assert s[i..i + 1][0] == 'a';
      }
    }
    NoMatchSingleSegment(s, [',']);
  }

  /** n one-byte delimiters in a row give n + 1 (empty) segments. */
  lemma {:induction false} OnlyDelimiters(n: nat, c: Latin1)
    requires c != NUL
    ensures |Split(seq(n, _ => c), [c])| == n + 1
  {
    var s := seq(n, _ => c);
    if n > 0 {
      assert DelimAt(s, [c], 0);
      assert s[1..] == seq(n - 1, _ => c);
      OnlyDelimiters(n - 1, c);
    }
  }

  /**
   * MAXITEMS one-byte delimiters pass validation but produce MAXITEMS + 1
   * segments, one more than `result` can hold.
   */
  lemma ResultArrayOverflows(s: Bytes)
    requires s == seq(MaxItems, _ => ',')
    ensures FitsWithNul(s, MaxInput) && FitsWithNul([','], MaxDelim)
    ensures |Split(s, [','])| == MaxItems + 1
    ensures !FitsFixedStorage(Split(s, [',']))
  {
    OnlyDelimiters(MaxItems, ',');
  }

  /**
   * The first `steps` iterations of the outer loop as written, counting only
   * the cursor and the result index: a match stores `result[n++]` and adds
   * the delimiter length to the cursor, otherwise the cursor moves one byte.
   * The loop may stop earlier, when the cursor has passed the terminating
   * NUL; `running` says whether it would still go on. With an empty
   * delimiter every iteration matches without moving the cursor, so after
   * MaxItems + 1 iterations the loop is still running and has written
   * `result[MaxItems]`, past the end of the array.
   */
  method IterateAsWritten(s: Bytes, d: Bytes, steps: nat) returns (pos: nat, n: nat, running: bool)
    ensures running <==> pos <= |s|
    ensures n <= steps
    ensures |d| == 0 ==> pos == 0 && n == steps && running
  {
    pos, n := 0, 0;
    var i := 0;
    while i < steps && pos <= |s|
      invariant 0 <= i <= steps && n <= i
      invariant |d| == 0 ==> pos == 0 && n == i
    {
      var follows := MatchAt(s, d, pos);
      if follows {
        // result [n++] = ...; pos += delimLen;
        n := n + 1;
        pos := pos + |d|;
      } else {
        // buf [bufLen++] = *pos++;
        pos := pos + 1;
      }
      i := i + 1;
    }
    running := pos <= |s|;
  }
}
