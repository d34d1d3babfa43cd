/**
 * The extractor: `pattern_query = re.compile(r"^.*Query(.+)")` applied with
 * `findall` to a stripped log line, and the captured text stripped again.
 *
 * In a Python regular expression `.` matches every character except a line
 * feed, and `^` (without MULTILINE) only matches at position 0, so a match
 * lies inside the text before the first line feed. Because `.*` is greedy
 * and backtracks one character at a time, the `Query` it settles on is the
 * rightmost one that still leaves at least one character for `(.+)`, and
 * the greedy `(.+)` then captures everything up to that line's end.
 */
module Extractor {
  import opened Wrappers
  import opened Text

  const MARKER: string := "Query"

  /** `Query` occurs in `s` at position `i`. */
  predicate MarkerAt(s: string, i: nat)
  {
    i + |MARKER| <= |s| && s[i..i + |MARKER|] == MARKER
  }

  /** `Query` occurs at `i` in `line` with at least one character after it. */
  predicate CaptureStart(line: string, i: nat)
  {
    MarkerAt(line, i) && i + |MARKER| < |line|
  }

  /** The part of `s` that `.` can walk over from position 0: everything
      before the first line feed. */
  function FirstLine(s: string): (r: string)
    ensures |r| <= |s| && r == s[..|r|]
    ensures forall i :: 0 <= i < |r| ==> r[i] != '\n'
    ensures |r| < |s| ==> s[|r|] == '\n'
  {
    if s == [] || s[0] == '\n' then [] else [s[0]] + FirstLine(s[1..])
  }

  /** The last position below `n` where `Query` occurs in `s`, scanning
      downwards as the backtracking of `.*` does. */
  function LastMarkerBelow(s: string, n: nat): (r: Option<nat>)
    ensures r.Some? ==> r.value < n && MarkerAt(s, r.value) &&
                        forall j :: r.value < j < n ==> !MarkerAt(s, j)
    ensures r.None? ==> forall j :: 0 <= j < n ==> !MarkerAt(s, j)
  {
    if n == 0 then None
    else if MarkerAt(s, n - 1) then Some(n - 1)
    else LastMarkerBelow(s, n - 1)
  }

  /** A line with no line feed in it (every line read from a file, once
      stripped) is searched as a whole. */
  lemma {:induction false} FirstLineWhole(s: string)
    requires forall i :: 0 <= i < |s| ==> s[i] != '\n'
    ensures FirstLine(s) == s
  {
    if s != [] {
      FirstLineWhole(s[1..]);
      assert s == [s[0]] + s[1..];
    }
  }

  /** `pattern_query.findall(l)`: `Some(capture)` for the single match, or
      `None` for an empty list. The capture starts right after the rightmost
      `Query` of the first line that has a character after it, and runs to the
      end of that line. */
  function MatchQuery(l: string): (r: Option<string>)
    ensures r.None? <==> forall i :: 0 <= i < |FirstLine(l)| ==> !CaptureStart(FirstLine(l), i)
    ensures r.Some? ==>
      var line := FirstLine(l);
      var i := |line| - |r.value| - |MARKER|;
      0 <= i && r.value != [] && r.value == line[i + |MARKER|..] && CaptureStart(line, i) &&
      forall j :: i < j < |line| ==> !CaptureStart(line, j)
  {
    var line := FirstLine(l);
    if |line| <= |MARKER| then None
    else match LastMarkerBelow(line, |line| - |MARKER|)
      case None => None
      case Some(i) =>
        assert CaptureStart(line, i);
        Some(line[i + |MARKER|..])
  }

  /** What `process_file` makes of one raw line: the line is stripped, the
      pattern is applied, and on a match the capture is stripped again;
      `None` means the line is dropped. A fragment never has whitespace at
      either end. */
  function Fragment(rawLine: string): (r: Option<string>)
    ensures r.None? <==> MatchQuery(Strip(rawLine)).None?
    ensures r.Some? ==> r.value == [] || (!IsSpace(r.value[0]) && !IsSpace(r.value[|r.value| - 1]))
  {
    match MatchQuery(Strip(rawLine))
    case None => None
    case Some(capture) => Some(Strip(capture))
  }

  /** Every occurrence of `Query` starts with a `Q`. */
  lemma MarkerStartsWithQ(s: string, i: nat)
    requires MarkerAt(s, i)
    ensures s[i] == 'Q'
  {
    assert s[i] == s[i..i + |MARKER|][0];
  }

  /** A line with no line feed, a `Query` at `i` with text after it, and no
      `Q` after that marker, has the text after the marker as its capture. */
  lemma MatchQueryAt(s: string, i: nat)
    requires forall k :: 0 <= k < |s| ==> s[k] != '\n'
    requires CaptureStart(s, i)
    requires forall k :: i < k < |s| - |MARKER| ==> s[k] != 'Q'
    ensures MatchQuery(s) == Some(s[i + |MARKER|..])
  {
    FirstLineWhole(s);
    forall j | i < j < |s| - |MARKER| ensures !MarkerAt(s, j) {
      if MarkerAt(s, j) {
        MarkerStartsWithQ(s, j);
        assert false;
      }
    }
    assert LastMarkerBelow(s, |s| - |MARKER|) == Some(i);
  }

  /** A `Query` with nothing after it gives no match: `(.+)` needs at least
      one character. */
  lemma MarkerAtEnd(p: string)
    requires forall k :: 0 <= k < |p| ==> p[k] != '\n' && p[k] != 'Q'
    ensures MatchQuery(p + MARKER) == None
  {
    var s := p + MARKER;
    assert forall k :: 0 <= k < |s| ==> s[k] != '\n' by {
      forall k | 0 <= k < |s| ensures s[k] != '\n' {
        if k < |p| {
          assert s[k] == p[k];
        } else {
          assert s[k] == MARKER[k - |p|];
        }
      }
    }
    FirstLineWhole(s);
    forall i | 0 <= i < |s| ensures !CaptureStart(s, i) {
      if i < |p| {
        assert s[i] == p[i];
      }
      if CaptureStart(s, i) {
        MarkerStartsWithQ(s, i);
      }
    }
  }

  /** A log line `p + "Query" + t` with no line feed, no surrounding
      whitespace, and no `Q` after the marker yields the stripped `t`. */
  lemma FragmentOfLogLine(p: string, t: string)
    requires var s := p + MARKER + t;
      (forall i :: 0 <= i < |s| ==> s[i] != '\n') && !IsSpace(s[0]) && !IsSpace(s[|s| - 1])
    requires t != [] && forall i :: 0 <= i < |t| ==> t[i] != 'Q'
    ensures Fragment(p + MARKER + t) == Some(Strip(t))
  {
    var s := p + MARKER + t;
    var i := |p|;
    StripUnpadded(s);
    assert CaptureStart(s, i) by {
      assert s[i..i + |MARKER|] == MARKER;
    }
    assert s[i + |MARKER|..] == t;
    assert forall k :: i < k < |s| ==> s[k] != 'Q' by {
      forall k | i < k < |s| ensures s[k] != 'Q' {
        if k < i + |MARKER| {
          assert s[k] == MARKER[k - i];
        } else {
          assert s[k] == t[k - i - |MARKER|];
        }
      }
    }
    MatchQueryAt(s, i);
  }

  /** A line read from a file has no line feed before its last character;
      the fragment of such a line, if any, is never empty: the stripped
      line ends with a non-whitespace character, and so does the capture. */
  lemma FragmentNonEmpty(rawLine: string)
    requires forall k :: 0 <= k < |rawLine| - 1 ==> rawLine[k] != '\n'
    ensures Fragment(rawLine).Some? ==> Fragment(rawLine).value != []
  {
    var s := Strip(rawLine);
    match MatchQuery(s)
    case None =>
    case Some(c) =>
      StripNoLineFeed(rawLine);
      FirstLineWhole(s);
      assert c[|c| - 1] == s[|s| - 1];
      StripKeepsLast(c);
  }

  /** Stripping removes a final line feed, so a line with no other line
      feed has none left. */
  lemma StripNoLineFeed(rawLine: string)
    requires forall k :: 0 <= k < |rawLine| - 1 ==> rawLine[k] != '\n'
    ensures forall k :: 0 <= k < |Strip(rawLine)| ==> Strip(rawLine)[k] != '\n'
  {
    var s := Strip(rawLine);
    var n := LeadingSpaces(rawLine);
    forall k | 0 <= k < |s| ensures s[k] != '\n' {
      assert s[k] == rawLine[n + k];
      if k == |s| - 1 {
        assert !IsSpace(s[k]);
      }
    }
  }

  /** `f` applied to each element of `xs`, in order. */
  function MapSeq<A, B>(f: A -> B, xs: seq<A>): (ys: seq<B>)
    ensures |ys| == |xs|
  {
    seq(|xs|, i requires 0 <= i < |xs| => f(xs[i]))
  }

  /** Mapping is done element by element, so it distributes over `+`. */
  lemma MapSeqAppend<A, B>(f: A -> B, a: seq<A>, b: seq<A>)
    ensures MapSeq(f, a + b) == MapSeq(f, a) + MapSeq(f, b)
  {
    forall i | 0 <= i < |a| + |b|
      ensures MapSeq(f, a + b)[i] == (MapSeq(f, a) + MapSeq(f, b))[i]
    {
      if i < |a| {
        assert (a + b)[i] == a[i];
      } else {
        assert (a + b)[i] == b[i - |a|];
      }
    }
  }

  /** The values held by the `Some` entries of `rs`, in order. */
  function Present(rs: seq<Option<string>>): (fs: seq<string>)
    ensures |fs| <= |rs|
  {
    if rs == [] then []
    else
      var fs := Present(rs[..|rs| - 1]);
      match rs[|rs| - 1]
      case None => fs
      case Some(f) => fs + [f]
  }

  /** The fragments of the matching lines, in file order: what
      `process_file` hands to the aggregator. */
  function Fragments(lines: seq<string>): (fs: seq<string>)
    ensures |fs| <= |lines|
  {
    Present(MapSeq(Fragment, lines))
  }

  /** Entries with no value contribute nothing. */
  lemma {:induction false} PresentAllNone(rs: seq<Option<string>>)
    requires forall i :: 0 <= i < |rs| ==> rs[i].None?
    ensures Present(rs) == []
  {
    if rs != [] {
      PresentAllNone(rs[..|rs| - 1]);
    }
  }

  /** When every entry holds a value, those values are collected in order. */
  lemma {:induction false} PresentAllSome(rs: seq<Option<string>>, fs: seq<string>)
    requires |fs| == |rs|
    requires forall i :: 0 <= i < |rs| ==> rs[i] == Some(fs[i])
    ensures Present(rs) == fs
  {
    if rs != [] {
      var n := |rs| - 1;
      PresentAllSome(rs[..n], fs[..n]);
      assert fs == fs[..n] + [fs[n]];
    }
  }

  /** Collecting is done entry by entry, so it distributes over `+`. */
  lemma {:induction false} PresentAppend(a: seq<Option<string>>, b: seq<Option<string>>)
    ensures Present(a + b) == Present(a) + Present(b)
    decreases |b|
  {
    if b == [] {
      assert a + b == a;
    } else {
      var b' := b[..|b| - 1];
      assert (a + b)[..|a + b| - 1] == a + b';
      assert (a + b)[|a + b| - 1] == b[|b| - 1];
      PresentAppend(a, b');
    }
  }

  /** One more line adds its fragment, if it has one, at the end. */
  lemma FragmentsSnoc(lines: seq<string>, l: string)
    ensures Fragments(lines + [l]) ==
              match Fragment(l) case None => Fragments(lines) case Some(f) => Fragments(lines) + [f]
  {
    MapSeqAppend(Fragment, lines, [l]);
    PresentAppend(MapSeq(Fragment, lines), MapSeq(Fragment, [l]));
    assert MapSeq(Fragment, [l]) == [Fragment(l)];
    assert MapSeq(Fragment, [l])[..0] == [];
  }

  /** A file in which no line matches has no fragments. */
  lemma NoMatchNoFragments(lines: seq<string>)
    requires forall i :: 0 <= i < |lines| ==> Fragment(lines[i]).None?
    ensures Fragments(lines) == []
  {
    PresentAllNone(MapSeq(Fragment, lines));
  }

  /** A file in which every line matches has one fragment per line, in
      file order. */
  lemma AllLinesMatch(lines: seq<string>, fs: seq<string>)
    requires |fs| == |lines|
    requires forall i :: 0 <= i < |lines| ==> Fragment(lines[i]) == Some(fs[i])
    ensures Fragments(lines) == fs
  {
    PresentAllSome(MapSeq(Fragment, lines), fs);
  }

  /** A file's fragments are the fragments of its first part followed by
      those of the rest: each line contributes independently, and a line
      without a match contributes nothing. */
  lemma FragmentsAppend(a: seq<string>, b: seq<string>)
    ensures Fragments(a + b) == Fragments(a) + Fragments(b)
  {
    MapSeqAppend(Fragment, a, b);
    PresentAppend(MapSeq(Fragment, a), MapSeq(Fragment, b));
  }

  /** The number of lines that have a match. */
  function MatchingLines(lines: seq<string>): nat
  {
    if lines == [] then 0
    else MatchingLines(lines[1..]) + (if Fragment(lines[0]).Some? then 1 else 0)
  }

  /** There is exactly one fragment per matching line. */
  lemma {:induction false} FragmentsCount(lines: seq<string>)
    ensures |Fragments(lines)| == MatchingLines(lines)
  {
    if lines != [] {
      FragmentsCount(lines[1..]);
      FragmentsAppend([lines[0]], lines[1..]);
      assert [lines[0]] + lines[1..] == lines;
      FragmentsSnoc([], lines[0]);
      assert [] + [lines[0]] == [lines[0]];
    }
  }
}
