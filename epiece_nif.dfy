/**
 * The `piece` NIF: argument and size validation, then a left-to-right scan
 * that collects bytes into an accumulator and emits it at every delimiter
 * match, then emits what remains.
 *
 * The accumulator and the list of segments are growable sequences here; the
 * fixed-size buffers of the original and their overflows are modelled in
 * module FixedStorage.
 */
module EpieceNif {
  import opened Segments

  /** Size of the subject buffer, including the terminating NUL. */
  const MaxInput: nat := 1024 * 1024
  /** Size of the delimiter buffer, including the terminating NUL. */
  const MaxDelim: nat := 128

  /** Why a call is answered with `badarg`. */
  datatype BadArg =
    | WrongArity        // not exactly two arguments
    | SubjectTooLong    // subject and its NUL do not fit MaxInput bytes
    | DelimiterTooLong  // delimiter and its NUL do not fit MaxDelim bytes
    | EmptyDelimiter    // the scan would never advance

  datatype Result<T> = Ok(value: T) | Err(error: BadArg)

  /**
   * `enif_get_string` copies a string and its terminating NUL into a buffer
   * of `capacity` bytes, and reports truncation when they do not fit.
   */
  predicate FitsWithNul(s: Bytes, capacity: nat)
  {
    |s| + 1 <= capacity
  }

  /**
   * The inner `for` loop: compares the delimiter byte by byte against the
   * subject at `pos`, stopping at the first byte that is the terminating NUL
   * (the end of the subject, or a NUL inside it) or differs.
   */
  method MatchAt(s: Bytes, d: Bytes, pos: nat) returns (follows: bool)
    requires pos <= |s|
    ensures follows == DelimAt(s, d, pos)
  {
    var j := 0;
    follows := true;
    while j < |d|
      invariant 0 <= j <= |d|
      invariant pos + j <= |s|
      invariant s[pos..pos + j] == d[..j] && NUL !in d[..j]
    {
      if pos + j == |s| || s[pos + j] == NUL || s[pos + j] != d[j] {
        follows := false;
        DelimAtSlice(s, d, pos);
        assert !DelimAt(s, d, pos) by {
          if pos + |d| <= |s| && s[pos..pos + |d|] == d {
            assert s[pos..pos + |d|][j] == s[pos + j];
          }
        }
        return;
      }
      assert s[pos..pos + j + 1] == s[pos..pos + j] + [s[pos + j]];
      assert d[..j + 1] == d[..j] + [d[j]];
      j := j + 1;
    }
    assert d[..j] == d;
    DelimAtSlice(s, d, pos);
  }

  /**
   * The outer loop and the final emit: `segments` are the segments of `s`
   * as Split defines them. The loop keeps the segments emitted so far, the
   * accumulator and the segments of the unscanned rest together equal to
   * the segments of the whole subject.
   */
  method Scan(s: Bytes, d: Bytes) returns (segments: seq<Bytes>)
    requires |d| >= 1
    ensures segments == Split(s, d)
  {
    var pos := 0;
    var buf: Bytes := [];
    segments := [];
    ResumeAtStart(s, d);
    while pos < |s|
      invariant 0 <= pos <= |s|
      invariant Split(s, d) == Resume(segments, buf, Split(s[pos..], d))
      decreases |s| - pos
    {
      var follows := MatchAt(s, d, pos);
      if follows {
        ResumeAfterMatch(s, d, pos, segments, buf);
        segments := segments + [buf];
        buf := [];
        pos := pos + |d|;
      } else {
        ResumeAfterByte(s, d, pos, segments, buf);
        buf := buf + [s[pos]];
        pos := pos + 1;
      }
    }
    ResumeAtEnd(s, d, segments, buf);
    segments := segments + [buf];
  }

  /**
   * The segments of the whole subject, seen part-way through the scan:
   * those already emitted, then the accumulator continued by the first
   * segment of the unscanned rest, then the rest's remaining segments.
   */
  ghost function Resume(done: seq<Bytes>, acc: Bytes, rest: seq<Bytes>): seq<Bytes>
    requires |rest| >= 1
  {
    done + [acc + rest[0]] + rest[1..]
  }

  lemma ResumeAtStart(s: Bytes, d: Bytes)
    requires |d| >= 1
    ensures Split(s, d) == Resume([], [], Split(s[0..], d))
  {
    assert s[0..] == s;
    ResumeNothing(Split(s, d));
  }

  lemma ResumeNothing(parts: seq<Bytes>)
    requires |parts| >= 1
    ensures Resume([], [], parts) == parts
  {
    assert [] + parts[0] == parts[0];
    assert [parts[0]] + parts[1..] == parts;
  }

  /** A match at the cursor: the accumulator becomes a finished segment. */
  lemma ResumeAfterMatch(s: Bytes, d: Bytes, pos: nat, done: seq<Bytes>, acc: Bytes)
    requires |d| >= 1 && pos <= |s| && DelimAt(s, d, pos)
    ensures pos + |d| <= |s|
    ensures Resume(done, acc, Split(s[pos..], d)) == Resume(done + [acc], [], Split(s[pos + |d|..], d))
  {
    SplitAtMatch(s, d, pos);
    ResumeEmitted(done, acc, Split(s[pos + |d|..], d));
  }

  lemma ResumeEmitted(done: seq<Bytes>, acc: Bytes, later: seq<Bytes>)
    requires |later| >= 1
    ensures Resume(done, acc, [[]] + later) == Resume(done + [acc], [], later)
  {
    calc {
      Resume(done, acc, [[]] + later);
      done + [acc + []] + later;
      { assert acc + [] == acc; }
      done + [acc] + later;
      { assert [] + later[0] == later[0]; assert [later[0]] + later[1..] == later; }
      (done + [acc]) + [[] + later[0]] + later[1..];
      Resume(done + [acc], [], later);
    }
  }

  /** No match at the cursor: the byte there joins the accumulator. */
  lemma ResumeAfterByte(s: Bytes, d: Bytes, pos: nat, done: seq<Bytes>, acc: Bytes)
    requires |d| >= 1 && pos < |s| && !DelimAt(s, d, pos)
    ensures Resume(done, acc, Split(s[pos..], d)) == Resume(done, acc + [s[pos]], Split(s[pos + 1..], d))
  {
    SplitNoMatch(s, d, pos);
    ResumeGrown(done, acc, s[pos], Split(s[pos + 1..], d));
  }

  lemma ResumeGrown(done: seq<Bytes>, acc: Bytes, b: Latin1, later: seq<Bytes>)
    requires |later| >= 1
    ensures Resume(done, acc, [[b] + later[0]] + later[1..]) == Resume(done, acc + [b], later)
  {
    assert acc + ([b] + later[0]) == (acc + [b]) + later[0];
  }

  /** At the end of the subject only the accumulator is left to emit. */
  lemma ResumeAtEnd(s: Bytes, d: Bytes, done: seq<Bytes>, acc: Bytes)
    requires |d| >= 1
    ensures Resume(done, acc, Split(s[|s|..], d)) == done + [acc]
  {
    assert s[|s|..] == [];
    assert acc + [] == acc;
  }

  /**
   * The whole call: `args` are the arguments the runtime passes. Validation
   * happens before any scanning and in this order: arity, subject size,
   * delimiter size; an empty delimiter is rejected as well. A call that
   * passes returns the segments of the subject.
   */
  method Piece(args: seq<Bytes>) returns (r: Result<seq<Bytes>>)
    ensures |args| != 2 ==> r == Err(WrongArity)
    ensures |args| == 2 && !FitsWithNul(args[0], MaxInput) ==> r == Err(SubjectTooLong)
    ensures |args| == 2 && FitsWithNul(args[0], MaxInput) && !FitsWithNul(args[1], MaxDelim) ==>
              r == Err(DelimiterTooLong)
    ensures |args| == 2 && FitsWithNul(args[0], MaxInput) && FitsWithNul(args[1], MaxDelim) && |args[1]| == 0 ==>
              r == Err(EmptyDelimiter)
    ensures r.Ok? <==> |args| == 2 && |args[0]| < MaxInput && 1 <= |args[1]| < MaxDelim
    ensures r.Ok? ==> |r.value| >= 1 && Join(r.value, args[1]) == args[0]
    ensures r.Ok? ==> r.value == Split(args[0], args[1])
  {
    if |args| != 2 {
      return Err(WrongArity);
    }
    var subject, delim := args[0], args[1];
    if !FitsWithNul(subject, MaxInput) {
      return Err(SubjectTooLong);
    }
    if !FitsWithNul(delim, MaxDelim) {
      return Err(DelimiterTooLong);
    }
    if |delim| == 0 {
      return Err(EmptyDelimiter);
    }
    var segments := Scan(subject, delim);
    JoinSplit(subject, delim);
    r := Ok(segments);
  }
}
