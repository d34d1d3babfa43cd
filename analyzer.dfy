/**
 * `MysqlAnalyzer`: reads the lines of a general query log, extracts the
 * query fragment of each matching line, aggregates the fragments into a
 * frequency table with the selected strategy, and returns the table sorted
 * by count, highest first.
 *
 * The file is given as its sequence of lines (opening and reading it are
 * not modelled); `fuzz.ratio` is the parameter `ratio`.
 */
module Analyzer {
  import opened Wrappers
  import opened Extractor
  import opened Tables
  import opened Sorter
  import opened Aggregation
  import opened AggregationLemmas

  /** `MysqlAnalyzer.FULL_MATCH`: exact counting. */
  const FULL_MATCH: int := 1
  /** `MysqlAnalyzer.PARTIAL_MATCH`: the value the application uses for
      grouping by similarity (any value other than FULL_MATCH selects it). */
  const PARTIAL_MATCH: int := 2

  /** The function `process_file` applies to each fragment, with the
      keyword argument it is given. */
  datatype LineFunc = FullMatch | PartialMatch(ratioPercent: int)

  /** What `analyze` can fail with. */
  datatype AnalyzeError =
    /** `self.ratio_percent` is read but was never assigned: `__init__`
        does not set it, only `set_ratio_percent` does (an AttributeError). */
    MissingRatioPercent

  /** The table `process_file` builds from the fragments `fs`. */
  function Aggregate(lineFunc: LineFunc, ratio: Similarity, fs: seq<string>): (d: Dict)
    ensures d.Valid()
  {
    match lineFunc
    case FullMatch => ExactCounts(fs)
    case PartialMatch(p) => FuzzyGroups(ratio, p, fs)
  }

  /** One more fragment is one more call of the line function on the table
      built so far. */
  lemma AggregateSnoc(lineFunc: LineFunc, ratio: Similarity, fs: seq<string>, f: string)
    ensures Aggregate(lineFunc, ratio, fs + [f]) ==
              match lineFunc
              case FullMatch => ExactAdd(Aggregate(lineFunc, ratio, fs), f)
              case PartialMatch(p) => FuzzyAdd(Aggregate(lineFunc, ratio, fs), f, ratio, p)
  {
    match lineFunc
    case FullMatch => ExactCountsSnoc(fs, f);
    case PartialMatch(p) => FuzzyGroupsSnoc(ratio, p, fs, f);
  }

  class MysqlAnalyzer {
    /** `self.type` */
    var matchType: int
    /** `self.ratio_percent`, `None` while it has not been assigned. */
    var ratioPercent: Option<int>

    /** `MysqlAnalyzer(type)` */
    constructor (matchType: int)
      ensures this.matchType == matchType && ratioPercent == None
    {
      this.matchType := matchType;
      ratioPercent := None;
    }

    /** `set_type` */
    method SetType(matchType: int)
      modifies this
      ensures this.matchType == matchType && ratioPercent == old(ratioPercent)
    {
      this.matchType := matchType;
    }

    /** `set_ratio_percent`: any integer is stored, none is rejected. */
    method SetRatioPercent(ratioPercent: int)
      modifies this
      ensures this.ratioPercent == Some(ratioPercent) && matchType == old(matchType)
    {
      this.ratioPercent := Some(ratioPercent);
    }

    /** `_get_full_match_queryes`: counts `line` in `result`, in place. */
    method FullMatchQueries(line: string, result: FrequencyTable)
      requires result.Valid()
      modifies result
      ensures result.Valid() && result.Value() == ExactAdd(old(result.Value()), line)
    {
      if line !in result.count {
        result.Put(line, 1);
      } else {
        result.Put(line, result.count[line] + 1);
      }
    }

    /** `_get_partial_match_queryes`: scans the keys in insertion order, adds
        one to the first whose score against `line` is above `ratioPercent`
        and stops there; if none is, sets `result[line] = 1`. */
    method PartialMatchQueries(line: string, result: FrequencyTable, ratio: Similarity, ratioPercent: int)
      requires result.Valid()
      modifies result
      ensures result.Valid() && result.Value() == FuzzyAdd(old(result.Value()), line, ratio, ratioPercent)
    {
      var added := false;
      var keys := result.keys;
      var i := 0;
      while i < |keys|
        invariant 0 <= i <= |keys|
        invariant result.Value() == old(result.Value()) && keys == result.keys
        invariant forall j :: 0 <= j < i ==> ratio(line, keys[j]) <= ratioPercent
      {
        var key := keys[i];
        if ratio(line, key) > ratioPercent {
          result.Put(key, result.count[key] + 1);
          added := true;
          break;
        }
        i := i + 1;
      }
      if !added {
        result.Put(line, 1);
      }
    }

    /** `process_file`: starts from an empty table and feeds the fragment
        of every matching line, in file order, to `lineFunc`; lines without
        a match are skipped. */
    method ProcessFile(lines: seq<string>, lineFunc: LineFunc, ratio: Similarity) returns (result: FrequencyTable)
      ensures fresh(result) && result.Valid()
      ensures result.Value() == Aggregate(lineFunc, ratio, Fragments(lines))
    {
      result := new FrequencyTable();
      ghost var fs := [];
      for n := 0 to |lines|
        invariant fs == Fragments(lines[..n])
        invariant result.Valid() && result.Value() == Aggregate(lineFunc, ratio, fs)
      {
        assert lines[..n + 1] == lines[..n] + [lines[n]];
        FragmentsSnoc(lines[..n], lines[n]);
        var res := Fragment(lines[n]);
        if res.Some? {
          var fragment := res.value;
          AggregateSnoc(lineFunc, ratio, fs, fragment);
          match lineFunc {
            case FullMatch => FullMatchQueries(fragment, result);
            case PartialMatch(p) => PartialMatchQueries(fragment, result, ratio, p);
          }
          fs := fs + [fragment];
        }
      }
      assert lines[..|lines|] == lines;
    }

    /** `analyze`: exact counting when `matchType` is FULL_MATCH, grouping by
        similarity with `ratioPercent` for every other value (failing if it
        was never set); the table is then sorted by `_sort`. */
    method Analyze(lines: seq<string>, ratio: Similarity) returns (r: Result<seq<Entry>, AnalyzeError>)
      ensures matchType == FULL_MATCH ==>
                r == Success(SortByCount(ExactCounts(Fragments(lines)).Items()))
      ensures matchType != FULL_MATCH && ratioPercent.None? ==>
                r == Failure(MissingRatioPercent)
      ensures matchType != FULL_MATCH && ratioPercent.Some? ==>
                r == Success(SortByCount(FuzzyGroups(ratio, ratioPercent.value, Fragments(lines)).Items()))
    {
      var result;
      if matchType == FULL_MATCH {
        result := ProcessFile(lines, FullMatch, ratio);
      } else {
        if ratioPercent.None? {
          return Failure(MissingRatioPercent);
        }
        result := ProcessFile(lines, PartialMatch(ratioPercent.value), ratio);
      }
      r := Success(SortByCount(result.Value().Items()));
    }
  }
}
