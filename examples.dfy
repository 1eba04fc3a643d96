/**
 * Concrete splits: the ordinary case, empty segments at the edges and
 * between adjacent delimiters, no occurrence, the empty subject, a
 * multi-byte delimiter, and overlapping candidates.
 *
 * Each example is computed from the back of the subject to the front with
 * the two steps of Split: a byte that cannot start a match joins the first
 * segment, a delimiter at the front opens an empty one.
 */
module SplitExamples {
  import opened Segments

  /** A byte that cannot start a match is prepended to the first segment. */
  lemma ConsByte(c: Latin1, t: Bytes, d: Bytes, first: Bytes, more: seq<Bytes>)
    requires |d| >= 1 && (c != d[0] || 1 + |t| < |d|)
    requires Split(t, d) == [first] + more
    ensures Split([c] + t, d) == [[c] + first] + more
  {
    var s := [c] + t;
    assert s[1..] == t && s[0] == c;
    assert !DelimAt(s, d, 0) by {
      DelimAtSlice(s, d, 0);
      if |d| <= |s| {
        assert s[..|d|][0] == c;
      }
    }
  }

  /** A delimiter in front of `t` adds an empty segment in front of its segments. */
  lemma ConsDelimiter(t: Bytes, d: Bytes, parts: seq<Bytes>)
    requires |d| >= 1 && NUL !in d && Split(t, d) == parts
    ensures Split(d + t, d) == [[]] + parts
  {
    var s := d + t;
    assert s[..|d|] == d && s[0..] == s && s[|d|..] == t;
    DelimAtSlice(s, d, 0);
    SplitAtMatch(s, d, 0);
  }

  lemma BasicSplit()
    ensures Split("a,b,c", ",") == ["a", "b", "c"]
  {
    ConsByte('c', "", ",", "", []);
    assert ['c'] + "" == "c";
    ConsDelimiter("c", ",", ["c"]);
    assert "," + "c" == ",c";
    ConsByte('b', ",c", ",", "", ["c"]);
    assert ['b'] + ",c" == "b,c" && ['b'] + "" == "b";
    ConsDelimiter("b,c", ",", ["b", "c"]);
    assert "," + "b,c" == ",b,c";
    ConsByte('a', ",b,c", ",", "", ["b", "c"]);
    assert ['a'] + ",b,c" == "a,b,c" && ['a'] + "" == "a";
  }

  lemma EmptySegmentsAtEdges()
    ensures Split(",a,", ",") == ["", "a", ""]
    ensures Split(",a,,", ",") == ["", "a", "", ""]
  {
    ConsDelimiter("", ",", [""]);
    assert "," + "" == ",";
    ConsByte('a', ",", ",", "", [""]);
    assert ['a'] + "," == "a," && ['a'] + "" == "a";
    ConsDelimiter("a,", ",", ["a", ""]);
    assert "," + "a," == ",a,";

    ConsDelimiter(",", ",", ["", ""]);
    assert "," + "," == ",,";
    ConsByte('a', ",,", ",", "", ["", ""]);
    assert ['a'] + ",," == "a,,";
    ConsDelimiter("a,,", ",", ["a", "", ""]);
    assert "," + "a,," == ",a,,";
  }

  lemma AdjacentDelimiters()
    ensures Split("a,,b", ",") == ["a", "", "b"]
  {
    ConsByte('b', "", ",", "", []);
    assert ['b'] + "" == "b";
    ConsDelimiter("b", ",", ["b"]);
    assert "," + "b" == ",b";
    ConsDelimiter(",b", ",", ["", "b"]);
    assert "," + ",b" == ",,b";
    ConsByte('a', ",,b", ",", "", ["", "b"]);
    assert ['a'] + ",,b" == "a,,b" && ['a'] + "" == "a";
  }

  lemma NoOccurrence()
    ensures Split("abc", ",") == ["abc"]
    ensures Split("", ",") == [""]
  {
    ConsByte('c', "", ",", "", []);
    assert ['c'] + "" == "c";
    ConsByte('b', "c", ",", "c", []);
    assert ['b'] + "c" == "bc";
    ConsByte('a', "bc", ",", "bc", []);
    assert ['a'] + "bc" == "abc";
  }

  lemma MultiByteDelimiter()
    ensures Split("a::b::c", "::") == ["a", "b", "c"]
  {
    ConsByte('c', "", "::", "", []);
    assert ['c'] + "" == "c";
    ConsDelimiter("c", "::", ["c"]);
    assert "::" + "c" == "::c";
    ConsByte('b', "::c", "::", "", ["c"]);
    assert ['b'] + "::c" == "b::c" && ['b'] + "" == "b";
    ConsDelimiter("b::c", "::", ["b", "c"]);
    assert "::" + "b::c" == "::b::c";
    ConsByte('a', "::b::c", "::", "", ["b", "c"]);
    assert ['a'] + "::b::c" == "a::b::c" && ['a'] + "" == "a";
  }

  lemma LeftmostNonOverlapping()
    ensures Split("aaa", "aa") == ["", "a"]
  {
    ConsByte('a', "", "aa", "", []);
    assert ['a'] + "" == "a";
    ConsDelimiter("a", "aa", ["a"]);
    assert "aa" + "a" == "aaa";
  }
}
