# epiece: splitting a Latin-1 string on a literal delimiter

This project models the `piece` native function of the Erlang library
idealib_erl (`c_src/epiece_nif.c`). `piece(Subject, Delimiter)` splits a
Latin-1 string on a literal delimiter, which may be several bytes long, and
returns the list of segments in order. It answers `badarg` when it gets the
wrong number of arguments or when the subject or the delimiter is too long
for its fixed buffers.

The model has four modules:

- `Segments` (segments.dfy) is the specification. `DelimAt` is the match
  test of the inner loop. `Split` is the segments as a left-to-right,
  leftmost, non-overlapping scan produces them, and `Join` is its inverse.
  `Leftmost` describes the partitions such a scan can produce. The lemmas
  prove the round trip, that Split is exactly the leftmost partition (both
  directions), that no segment holds the delimiter, and size bounds.
- `EpieceNif` (epiece_nif.dfy) is the code itself. `MatchAt` is the inner
  `for` loop. `Scan` is the outer loop with its accumulator and the final
  emit, proved equal to `Split`. `Piece` is the whole call: validation in
  the source's order, then the scan.
- `FixedStorage` (fixed_storage.dfy) is the scan as written, with its fixed
  buffers `buf[256]` and `result[MAXITEMS]` and the extra iteration at the
  subject's terminating NUL. It reports whether a write lands outside its
  array. Its lemmas show inputs that pass validation and still overflow.
- `SplitExamples` (examples.dfy) proves concrete splits.

Bytes are Latin-1 characters, a subset type of `char` up to U+00FF. Where
descriptions of `piece` give the limits as 1,048,576 subject bytes and 128
delimiter bytes, the model follows the code. `enif_get_string` must also
store the terminating NUL, so the largest accepted subject has 1,048,575
bytes and the largest accepted delimiter has 127 bytes (`FitsWithNul`).
The code answers `badarg` in every error case. The model keeps the reason
(`WrongArity`, `SubjectTooLong`, `DelimiterTooLong`, `EmptyDelimiter`).

The match test keeps the code's check for a NUL byte
(`c_src/epiece_nif.c:60`). A candidate that would run past the end of the
subject reaches the NUL and fails. A delimiter that contains a NUL byte
never matches.

## Model

| member | source | states |
|---|---|---|
| `Segments.Split` | c_src/epiece_nif.c:55-78 | The result is never empty: the final accumulator is emitted unconditionally, so even the empty subject gives one segment |
| `Segments.DelimAtSlice` | c_src/epiece_nif.c:59-61 | The byte-by-byte match test holds exactly when all of the delimiter fits before the end of the subject, equals the subject's bytes there, and contains no NUL byte |
| `Segments.SplitAtMatch` | c_src/epiece_nif.c:65-67 | A match at the cursor closes the current segment with what was accumulated, opens an empty one and resumes `|d|` bytes later, which stays within the subject |
| `Segments.SplitNoMatch` | c_src/epiece_nif.c:69-72 | No match at the cursor: the byte there opens or extends the current segment, and the scan continues one byte later |
| `Segments.SplitPrefix` | c_src/epiece_nif.c:69-72 | Bytes at which no match starts are all collected into the current segment, and the scan continues as if they were not there |
| `Segments.JoinSplit` | c_src/epiece_nif.c:55-78 | Round trip: joining the segments with the delimiter between consecutive ones gives back the subject exactly |
| `Segments.SplitIsLeftmost` | c_src/epiece_nif.c:55-74 | Matching is leftmost: within each segment no match starts before the segment ends, even one overlapping the following delimiter |
| `Segments.LeftmostUnique` | c_src/epiece_nif.c:55-78 | Any non-empty, leftmost partition that joins back to the subject is the result of Split (for a delimiter without a NUL byte) |
| `Segments.SplitCharacterization` | c_src/epiece_nif.c:55-78 | Both directions: a list of segments is Split's result if and only if it is non-empty, joins back to the subject and is leftmost |
| `Segments.NoSegmentContainsDelim` | c_src/epiece_nif.c:59-72 | No emitted segment contains a match of the delimiter at any offset |
| `Segments.SplitSizes` | c_src/epiece_nif.c:55-78 | The number of matches times the delimiter length is at most the subject length, and every segment is at most the subject length minus those delimiter bytes |
| `EpieceNif.MatchAt` | c_src/epiece_nif.c:59-61 | The inner loop sets its flag to true exactly when the delimiter matches at the cursor; with an empty delimiter it stays true |
| `EpieceNif.ResumeAtStart` | c_src/epiece_nif.c:55-56 | With nothing emitted, an empty accumulator and the cursor at 0, the loop invariant holds |
| `EpieceNif.ResumeAfterMatch` | c_src/epiece_nif.c:65-67 | Emitting the accumulator, clearing it and skipping the delimiter keeps the loop invariant |
| `EpieceNif.ResumeAfterByte` | c_src/epiece_nif.c:69-72 | Appending the byte at the cursor to the accumulator and advancing by one keeps the loop invariant |
| `EpieceNif.ResumeAtEnd` | c_src/epiece_nif.c:76-78 | At the end of the subject the segments are those emitted followed by the accumulator |
| `EpieceNif.Scan` | c_src/epiece_nif.c:51-78 | The scan loop with growable accumulator and result returns exactly Split of the subject; it terminates because every step advances the cursor by `|d| >= 1` or by 1 |
| `EpieceNif.Piece` | c_src/epiece_nif.c:37-81 | Wrong arity, a subject or delimiter too long for its buffer with its NUL, and an empty delimiter are rejected in that order before any scanning; every other call succeeds with Split's segments, which are non-empty and join back to the subject |
| `FixedStorage.ScanFixedStorage` | c_src/epiece_nif.c:51-78 | The loop as written, including the iteration at the terminating NUL, writes one result entry per segment, and overflows `buf` or `result` exactly when the segments do not fit the fixed storage |
| `Segments.NoMatchSingleSegment` | c_src/epiece_nif.c:69-78 | A subject without any match comes back as a single segment |
| `FixedStorage.FinalSegmentOverflowsBuffer` | c_src/epiece_nif.c:54-78 | A 255-byte subject with no delimiter passes validation but overflows `buf` |
| `FixedStorage.OnlyDelimiters` | c_src/epiece_nif.c:65-67 | A subject of n one-byte delimiters gives n + 1 segments |
| `FixedStorage.ResultArrayOverflows` | c_src/epiece_nif.c:43-78 | A subject of MAXITEMS one-byte delimiters passes validation but gives MAXITEMS + 1 segments, more than `result` holds |
| `FixedStorage.IterateAsWritten` | c_src/epiece_nif.c:54-74 | Running the outer loop as written for any number of iterations writes at most one `result` entry per iteration; with an empty delimiter every iteration matches, the cursor stays at 0, the loop is still running and exactly one `result` entry was written per iteration, so MaxItems + 1 iterations write past the end of `result` |
| `SplitExamples.BasicSplit` | c_src/epiece_nif.c:55-78 | "a,b,c" split on "," gives ["a", "b", "c"] |
| `SplitExamples.EmptySegmentsAtEdges` | c_src/epiece_nif.c:65-78 | ",a," gives ["", "a", ""] and ",a,," gives ["", "a", "", ""] |
| `SplitExamples.AdjacentDelimiters` | c_src/epiece_nif.c:65-67 | "a,,b" gives ["a", "", "b"] |
| `SplitExamples.NoOccurrence` | c_src/epiece_nif.c:76-78 | "abc" gives ["abc"] and "" gives [""] |
| `SplitExamples.MultiByteDelimiter` | c_src/epiece_nif.c:59-67 | "a::b::c" split on "::" gives ["a", "b", "c"] |
| `SplitExamples.LeftmostNonOverlapping` | c_src/epiece_nif.c:59-72 | "aaa" split on "aa" gives ["", "a"]: after a match the cursor jumps past the whole delimiter |

## Left out

- The runtime lifecycle hooks `load`, `upgrade`, `reload` and `unload`, the table `nif_funcs` and `ERL_NIF_INIT` (`c_src/epiece_nif.c:17-35, 83-87`). They carry no logic.
- Term marshalling: `enif_get_string`, `enif_make_string` and `enif_make_list_from_array`. Arguments are given as Latin-1 byte sequences and the result is a sequence of them. So a non-string argument is not modelled. For such an argument `enif_get_string` returns 0, which passes the `< 0` test, and the length is then taken as -1. A non-string subject gives `dataLen` = -1: the scan loop never runs and the call returns `[""]` instead of `badarg`. A non-string delimiter gives `delimLen` = -1: the inner loop never runs, so every position matches, and `pos += delimLen` moves the cursor backwards, so the loop does not end.
- `enif_make_string` ends each segment at its first NUL byte. The model returns segments whole, so a subject with embedded NUL bytes gives longer segments here than in Erlang.
- `EpieceNif.Scan` runs `while pos < |s|`. The code also runs one iteration at the terminating NUL, which only appends that NUL to `buf`, and `enif_make_string` hides it. That iteration is modelled in `FixedStorage.ScanFixedStorage`, where it matters for the buffer size.
- `EpieceNif.Piece` rejects an empty delimiter with `EmptyDelimiter`. The code does not reject it; its loop then never ends (see Findings).
- `EpieceNif.Scan` keeps the accumulator and the result in growable sequences instead of `buf[256]` and `result[MAXITEMS]`. `FixedStorage` records the overflows only as a flag. The memory corruption that follows an overflow is not modelled.
- The megabyte-sized stack arrays and the O(|s|·|d|) cost of the naive search are not modelled.

## Findings

| source | as written | input that shows it | evidently intended | confidence | as-written member | corrected member |
|---|---|---|---|---|---|---|
| c_src/epiece_nif.c:59-67 | With an empty delimiter the inner loop compares nothing, so the match flag stays true. `pos += delimLen` then adds 0, so the loop never ends and writes `result[n++]` once per iteration, past `result[MAXITEMS - 1]` after MAXITEMS + 1 iterations | any subject with delimiter "" | an empty delimiter is rejected or given a defined meaning | high; not executed | `FixedStorage.IterateAsWritten` | `EpieceNif.Piece` |
| c_src/epiece_nif.c:54-78 | `buf[256]` is filled without a bounds check. The iteration at the terminating NUL appends one more byte, so a final segment of 255 bytes already writes `buf[256]` | subject of 255 "a" bytes, delimiter "," | segments of any length up to the subject length | high; not executed | `FixedStorage.FinalSegmentOverflowsBuffer` | `EpieceNif.Scan` |
| c_src/epiece_nif.c:43-78 | `result` has MAXITEMS = 524,288 entries. A subject of k one-byte delimiters gives k + 1 segments | subject of 524,288 "," bytes, delimiter "," | any number of segments the subject can produce | high; not executed | `FixedStorage.ResultArrayOverflows` | `EpieceNif.Scan` |
