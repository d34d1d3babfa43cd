/**
 * Whole-file facts about the analyser and worked examples that pin down
 * its behaviour on concrete log lines.
 */
module Scenarios {
  import opened Wrappers
  import opened Extractor
  import opened Tables
  import opened Sorter
  import opened Aggregation
  import opened AggregationLemmas
  import opened Analyzer

  /** A line without a match leaves the table exactly as it was, in either mode. */
  lemma NonMatchingLineIgnored(lineFunc: LineFunc, ratio: Similarity, lines: seq<string>, l: string)
    requires Fragment(l).None?
    ensures Aggregate(lineFunc, ratio, Fragments(lines + [l])) == Aggregate(lineFunc, ratio, Fragments(lines))
  {
    FragmentsSnoc(lines, l);
  }

  /** Exact mode over a file: the counts add up to the number of matching lines. */
  lemma ExactTotalIsMatchingLines(lines: seq<string>)
    ensures ExactCounts(Fragments(lines)).Total() == MatchingLines(lines)
  {
    FragmentsCount(lines);
    ExactCountsTotal(Fragments(lines));
  }

  /** The capture follows the rightmost `Query` that has text after it,
      and is stripped. */
  lemma RightmostMarker(line: string)
    requires line == "Query x Query y"
    ensures Fragment(line) == Some("y")
  {
    assert Text.Strip(line) == line by { Text.StripUnpadded(line); }
    assert MatchQuery(line) == Some(" y") by {
      assert CaptureStart(line, 8) by { assert line[8..13] == MARKER; }
      assert forall k :: 8 < k < |line| ==> line[k] != 'Q';
      assert forall k :: 0 <= k < |line| ==> line[k] != '\n';
      MatchQueryAt(line, 8);
      assert line[13..] == " y";
    }
    assert Text.Strip(" y") == "y" by {
      Text.StripLeadingSpace(" y");
      assert " y"[1..] == "y";
      Text.StripUnpadded("y");
    }
  }

  /** Whitespace after a final `Query` is stripped away, so an earlier
      `Query` with text after it supplies the capture, and the final
      `Query` becomes part of the fragment. */
  lemma EarlierMarkerUsed(t: string, w: string)
    requires t != [] && forall k :: 0 <= k < |t| ==> t[k] != '\n' && t[k] != 'Q'
    requires forall k :: 0 <= k < |w| ==> Text.IsSpace(w[k])
    ensures Fragment(MARKER + t + MARKER + w) == Some(Text.Strip(t + MARKER))
  {
    var s := MARKER + t + MARKER;
    assert MARKER + t + MARKER + w == s + w;
    assert s[0] == 'Q' && s[|s| - 1] == 'y';
    Text.StripTrailingSpaces(s, w);
    MatchEarlierMarker(t);
  }

  /** The match step of `EarlierMarkerUsed`: the final `Query` has nothing
      after it, so the capture starts after the first one. */
  lemma MatchEarlierMarker(t: string)
    requires t != [] && forall k :: 0 <= k < |t| ==> t[k] != '\n' && t[k] != 'Q'
    ensures MatchQuery(MARKER + t + MARKER) == Some(t + MARKER)
  {
    var u := t + MARKER;
    var s := MARKER + u;
    assert s[|MARKER|..] == u;
    assert s == MARKER + t + MARKER;
    MarkerTextMarkerStart(t);
    MarkerTextMarkerChars(t);
    MatchQueryAt(s, 0);
  }

  /** `Query`, then non-empty `t`, then `Query`: a capture can start at 0. */
  lemma MarkerTextMarkerStart(t: string)
    requires t != []
    ensures CaptureStart(MARKER + t + MARKER, 0)
  {
    var s := MARKER + t + MARKER;
    assert s[0..|MARKER|] == MARKER;
  }

  /** `Query`, then `t`, then `Query`: no line feed, and no `Q` between the
      two markers' first characters. */
  lemma MarkerTextMarkerChars(t: string)
    requires forall k :: 0 <= k < |t| ==> t[k] != '\n' && t[k] != 'Q'
    ensures forall k :: 0 <= k < |MARKER + t + MARKER| ==> (MARKER + t + MARKER)[k] != '\n'
    ensures forall k :: 0 < k < |MARKER + t| ==> (MARKER + t + MARKER)[k] != 'Q'
  {
    var s := MARKER + t + MARKER;
    forall k | 0 <= k < |s| ensures s[k] != '\n' && (0 < k < |s| - |MARKER| ==> s[k] != 'Q') {
      if k < |MARKER| {
        assert s[k] == MARKER[k];
      } else if k < |MARKER| + |t| {
        assert s[k] == t[k - |MARKER|];
      } else {
        assert s[k] == MARKER[k - |MARKER| - |t|];
      }
    }
  }

  /** A line whose `Query` is followed only by whitespace is dropped: the
      strip removes that whitespace before the pattern is applied. */
  lemma TrailingMarkerDropped(p: string, w: string)
    requires p != [] && !Text.IsSpace(p[0])
    requires forall k :: 0 <= k < |p| ==> p[k] != '\n' && p[k] != 'Q'
    requires forall k :: 0 <= k < |w| ==> Text.IsSpace(w[k])
    ensures Fragment(p + MARKER + w) == None
  {
    var s := p + MARKER;
    assert s[0] == p[0] && s[|s| - 1] == 'y';
    Text.StripTrailingSpaces(s, w);
    MarkerAtEnd(p);
  }

  /** A query text with no `Q`, no line feed and no surrounding whitespace,
      written after `... Query `, is extracted unchanged. */
  lemma UsualLine(q: string)
    requires PlainQuery(q)
    ensures Fragment("... Query " + q) == Some(q)
  {
    var t := " " + q;
    assert "... Query " + q == "... " + MARKER + t;
    assert Text.Strip(t) == q by {
      Text.StripLeadingSpace(t);
      assert t[1..] == q;
      Text.StripUnpadded(q);
    }
    var s := "... " + MARKER + t;
    assert forall i :: 0 <= i < |s| ==> s[i] != '\n' by {
      forall i | 0 <= i < |s| ensures s[i] != '\n' {
        if i >= 10 {
          assert s[i] == q[i - 10];
        }
      }
    }
    assert s[|s| - 1] == q[|q| - 1];
    FragmentOfLogLine("... ", t);
  }

  /** A query text that `UsualLine` extracts unchanged. */
  ghost predicate PlainQuery(q: string)
  {
    && q != [] && !Text.IsSpace(q[0]) && !Text.IsSpace(q[|q| - 1])
    && forall i :: 0 <= i < |q| ==> q[i] != 'Q' && q[i] != '\n'
  }

  /** Exact mode on three log lines, the first two carrying the same query:
      that query is counted twice and comes first. */
  lemma ExactScenario(u: string, o: string)
    requires PlainQuery(u) && PlainQuery(o) && u != o
    ensures SortByCount(ExactCounts(Fragments(["... Query " + u, "... Query " + u, "... Query " + o])).Items())
              == [(u, 2), (o, 1)]
  {
    var lines := ["... Query " + u, "... Query " + u, "... Query " + o];
    var fs := [u, u, o];
    assert Fragments(lines) == fs by {
      forall i | 0 <= i < |lines| ensures Fragment(lines[i]) == Some(fs[i]) {
        if i < 2 {
          assert lines[i] == "... Query " + u && fs[i] == u;
          UsualLine(u);
        } else {
          assert lines[i] == "... Query " + o && fs[i] == o;
          UsualLine(o);
        }
      }
      AllLinesMatch(lines, fs);
    }
    assert ExactCounts([u, u, o]).Items() == [(u, 2), (o, 1)] by { ExactThreeSteps([u, u, o]); }
    SortOrderedInput([(u, 2), (o, 1)]);
  }

  /** The same with two concrete statements. */
  lemma ExactScenarioExample(u: string, o: string)
    requires u == "SELECT * FROM users" && o == "SELECT * FROM orders"
    ensures SortByCount(ExactCounts(Fragments(["... Query " + u, "... Query " + u, "... Query " + o])).Items())
              == [(u, 2), (o, 1)]
  {
    assert PlainQuery(u);
    assert PlainQuery(o);
    assert u[14] != o[14];
    ExactScenario(u, o);
  }

  /** Exact counting of `a, a, c`: two for `a`, then one for `c`. */
  lemma ExactThreeSteps(fs: seq<string>)
    requires |fs| == 3 && fs[0] == fs[1] && fs[0] != fs[2]
    ensures ExactCounts(fs).Items() == [(fs[0], 2), (fs[2], 1)]
  {
    var a, c := fs[0], fs[2];
    assert Empty.Items() == [];
    ExactAddItems(Empty, a);
    ExactAddAgain(ExactAdd(Empty, a), a, 1);
    ExactAddOther(ExactAdd(ExactAdd(Empty, a), a), a, 2, c);
    ExactCountsThree(fs);
  }

  /** A one-key table counting its key once more. */
  lemma ExactAddAgain(d: Dict, a: string, n: int)
    requires d.Valid() && d.keys == [a] && d.Items() == [(a, n)]
    ensures ExactAdd(d, a).keys == [a] && ExactAdd(d, a).Items() == [(a, n + 1)]
  {
    assert d.Items()[0] == (a, d.count[a]);
    ExactAddItems(d, a);
  }

  /** A one-key table counting a different fragment. */
  lemma ExactAddOther(d: Dict, a: string, n: int, c: string)
    requires d.Valid() && d.keys == [a] && d.Items() == [(a, n)] && a != c
    ensures ExactAdd(d, c).Items() == [(a, n), (c, 1)]
  {
    assert c !in d.count;
    ExactAddItems(d, c);
  }

  /** Exact counting of three fragments is three steps. */
  lemma ExactCountsThree(fs: seq<string>)
    requires |fs| == 3
    ensures ExactCounts(fs) == ExactAdd(ExactAdd(ExactAdd(Empty, fs[0]), fs[1]), fs[2])
  {
    assert fs[..0] == [] && fs[..1] == fs[..0] + [fs[0]] && fs[..2] == fs[..1] + [fs[1]] && fs == fs[..2] + [fs[2]];
    ExactCountsSnoc(fs[..0], fs[0]);
    ExactCountsSnoc(fs[..1], fs[1]);
    ExactCountsSnoc(fs[..2], fs[2]);
  }

  /** Fuzzy mode with threshold 80 on three fragments, the second scoring
      above 80 against the first and the third not: the first two form one
      group keyed by the first fragment. */
  lemma FuzzyScenario(ratio: Similarity, fs: seq<string>)
    requires fs == ["SELECT * FROM users WHERE id=1", "SELECT * FROM users WHERE id=2",
                    "SELECT * FROM orders"]
    requires ratio(fs[1], fs[0]) > 80 && ratio(fs[2], fs[0]) <= 80
    ensures SortByCount(FuzzyGroups(ratio, 80, fs).Items()) ==
              [("SELECT * FROM users WHERE id=1", 2), ("SELECT * FROM orders", 1)]
  {
    FuzzyThreeSteps(ratio, fs);
    SortOrderedInput([(fs[0], 2), (fs[2], 1)]);
  }

  /** First-fit grouping of `a, b, c` where `b` joins `a` and `c` does not. */
  lemma FuzzyThreeSteps(ratio: Similarity, fs: seq<string>)
    requires |fs| == 3 && fs[0] != fs[2]
    requires ratio(fs[1], fs[0]) > 80 && ratio(fs[2], fs[0]) <= 80
    ensures FuzzyGroups(ratio, 80, fs).Items() == [(fs[0], 2), (fs[2], 1)]
  {
    var a, b, c := fs[0], fs[1], fs[2];
    FuzzyAddFirst(a, ratio);
    FuzzyAddJoins(FuzzyAdd(Empty, a, ratio, 80), a, 1, b, ratio);
    FuzzyAddApart(FuzzyAdd(FuzzyAdd(Empty, a, ratio, 80), b, ratio, 80), a, 2, c, ratio);
    FuzzyGroupsThree(ratio, fs);
  }

  /** The first fragment goes into the empty table as its only key. */
  lemma FuzzyAddFirst(a: string, ratio: Similarity)
    ensures FuzzyAdd(Empty, a, ratio, 80).keys == [a] && FuzzyAdd(Empty, a, ratio, 80).Items() == [(a, 1)]
  {
    assert Empty.Items() == [];
    assert FirstFit(Empty.keys, a, ratio, 80) == None;
    FuzzyAddItems(Empty, a, ratio, 80);
  }

  /** A one-key table, and a fragment that scores above 80 against the key. */
  lemma FuzzyAddJoins(d: Dict, a: string, n: int, b: string, ratio: Similarity)
    requires d.Valid() && d.keys == [a] && d.Items() == [(a, n)] && ratio(b, a) > 80
    ensures FuzzyAdd(d, b, ratio, 80).keys == [a] && FuzzyAdd(d, b, ratio, 80).Items() == [(a, n + 1)]
  {
    assert d.Items()[0] == (a, d.count[a]);
    assert FirstFit(d.keys, b, ratio, 80) == Some(0);
    FuzzyAddItems(d, b, ratio, 80);
  }

  /** A one-key table, and a different fragment that scores at most 80
      against the key. */
  lemma FuzzyAddApart(d: Dict, a: string, n: int, c: string, ratio: Similarity)
    requires d.Valid() && d.keys == [a] && d.Items() == [(a, n)] && a != c && ratio(c, a) <= 80
    ensures FuzzyAdd(d, c, ratio, 80).Items() == [(a, n), (c, 1)]
  {
    assert c !in d.count;
    assert FirstFit(d.keys, c, ratio, 80) == None;
    FuzzyAddItems(d, c, ratio, 80);
  }

  /** First-fit grouping of three fragments is three steps. */
  lemma FuzzyGroupsThree(ratio: Similarity, fs: seq<string>)
    requires |fs| == 3
    ensures FuzzyGroups(ratio, 80, fs) ==
              FuzzyAdd(FuzzyAdd(FuzzyAdd(Empty, fs[0], ratio, 80), fs[1], ratio, 80), fs[2], ratio, 80)
  {
    assert fs[..0] == [] && fs[..1] == fs[..0] + [fs[0]] && fs[..2] == fs[..1] + [fs[1]] && fs == fs[..2] + [fs[2]];
    FuzzyGroupsSnoc(ratio, 80, fs[..0], fs[0]);
    FuzzyGroupsSnoc(ratio, 80, fs[..1], fs[1]);
    FuzzyGroupsSnoc(ratio, 80, fs[..2], fs[2]);
  }

  /** A file in which no line matches gives an empty result in either mode. */
  lemma NoMatchEmptyResult(lineFunc: LineFunc, ratio: Similarity, lines: seq<string>)
    requires forall i :: 0 <= i < |lines| ==> Fragment(lines[i]).None?
    ensures SortByCount(Aggregate(lineFunc, ratio, Fragments(lines)).Items()) == []
  {
    NoMatchNoFragments(lines);
  }
}
