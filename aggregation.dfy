/**
 * What the two aggregators of `MysqlAnalyzer` do to a table, as functions on
 * table values: `_get_full_match_queryes` (exact counting) and
 * `_get_partial_match_queryes` (first-fit grouping by similarity), one
 * fragment at a time and over a whole file.
 */
module Aggregation {
  import opened Wrappers
  import opened Tables

  /** `fuzz.ratio(a, b)`: a similarity score computed by a foreign library.
      Nothing is assumed about it; lemmas that need a property of it take
      that property as a hypothesis. */
  type Similarity = (string, string) -> int

  /** Exact counting of one fragment (`_get_full_match_queryes`). */
  function ExactAdd(d: Dict, f: string): (r: Dict)
    requires d.Valid()
    ensures r.Valid()
  {
    d.Put(f, if f in d.count then d.count[f] + 1 else 1)
  }

  /** Exact counting of one fragment: a fragment already in the table gets
      its count raised by one, a new fragment becomes the last key with
      count 1, and no other item changes. */
  lemma ExactAddItems(d: Dict, f: string)
    requires d.Valid()
    ensures ExactAdd(d, f).Items() ==
              if f in d.count then d.Items()[IndexOf(d.keys, f) := (f, d.count[f] + 1)]
              else d.Items() + [(f, 1)]
  {
    if f in d.count {
      PutItems(d, f, d.count[f] + 1);
    } else {
      PutItems(d, f, 1);
    }
  }

  /** Exact counting of one fragment raises the total by one. */
  lemma ExactAddTotal(d: Dict, f: string)
    requires d.Valid()
    ensures ExactAdd(d, f).Total() == d.Total() + 1
  {
    if f in d.count {
      PutItems(d, f, d.count[f] + 1);
    } else {
      PutItems(d, f, 1);
    }
  }

  /** The first key, in insertion order, whose score against `f` is above
      `p`; `None` when no key scores above `p`. */
  function FirstFit(keys: seq<string>, f: string, ratio: Similarity, p: int): (r: Option<nat>)
    ensures r.Some? ==> r.value < |keys| && ratio(f, keys[r.value]) > p &&
                        forall j :: 0 <= j < r.value ==> ratio(f, keys[j]) <= p
    ensures r.None? ==> forall j :: 0 <= j < |keys| ==> ratio(f, keys[j]) <= p
  {
    if keys == [] then None
    else if ratio(f, keys[0]) > p then Some(0)
    else match FirstFit(keys[1..], f, ratio, p)
      case None => None
      case Some(i) => Some(i + 1)
  }

  /** First-fit grouping of one fragment (`_get_partial_match_queryes`). */
  function FuzzyAdd(d: Dict, f: string, ratio: Similarity, p: int): (r: Dict)
    requires d.Valid()
    ensures r.Valid()
  {
    match FirstFit(d.keys, f, ratio, p)
    case Some(i) => d.Put(d.keys[i], d.count[d.keys[i]] + 1)
    case None => d.Put(f, 1)
  }

  /** First-fit grouping of one fragment. The first key that scores above
      `p` gets its count raised by one and nothing else changes, even if a
      later key would score higher. When no key scores above `p`, the
      fragment is stored with count 1: appended if it is new, and with its
      count reset to 1, in place, if it already is a key. */
  lemma FuzzyAddItems(d: Dict, f: string, ratio: Similarity, p: int)
    requires d.Valid()
    ensures match FirstFit(d.keys, f, ratio, p)
      case Some(i) => FuzzyAdd(d, f, ratio, p).Items() == d.Items()[i := (d.keys[i], d.count[d.keys[i]] + 1)]
      case None => FuzzyAdd(d, f, ratio, p).Items() ==
                     if f in d.count then d.Items()[IndexOf(d.keys, f) := (f, 1)] else d.Items() + [(f, 1)]
  {
    match FirstFit(d.keys, f, ratio, p)
    case Some(i) =>
      assert IndexOf(d.keys, d.keys[i]) == i;
      PutItems(d, d.keys[i], d.count[d.keys[i]] + 1);
    case None =>
      PutItems(d, f, 1);
  }

  /** First-fit grouping never renames or removes a key: the old keys are a
      prefix of the new ones. A key is added only when no existing key
      scores above `p`, and then it is the fragment itself, appended. */
  lemma FuzzyAddKeys(d: Dict, f: string, ratio: Similarity, p: int)
    requires d.Valid()
    ensures var r := FuzzyAdd(d, f, ratio, p);
      d.keys <= r.keys && |r.keys| <= |d.keys| + 1 &&
      (|r.keys| > |d.keys| ==>
         r.keys == d.keys + [f] && f !in d.count && forall k :: k in d.count ==> ratio(f, k) <= p)
  {
    match FirstFit(d.keys, f, ratio, p)
    case Some(i) =>
    case None =>
      forall k | k in d.count ensures ratio(f, k) <= p {
        assert d.keys[IndexOf(d.keys, k)] == k;
      }
  }

  /** Each fragment adds exactly one to the total, except when it resets
      the count of an existing key to 1. */
  lemma FuzzyAddTotal(d: Dict, f: string, ratio: Similarity, p: int)
    requires d.Valid()
    ensures FuzzyAdd(d, f, ratio, p).Total() ==
              if FirstFit(d.keys, f, ratio, p).None? && f in d.count
              then d.Total() - d.count[f] + 1 else d.Total() + 1
  {
    match FirstFit(d.keys, f, ratio, p)
    case Some(i) =>
      PutItems(d, d.keys[i], d.count[d.keys[i]] + 1);
    case None =>
      PutItems(d, f, 1);
  }

  /** The table exact counting builds from the fragments `fs`. */
  function ExactCounts(fs: seq<string>): (d: Dict)
    ensures d.Valid()
  {
    if fs == [] then Empty else ExactAdd(ExactCounts(fs[..|fs| - 1]), fs[|fs| - 1])
  }

  /** The table first-fit grouping builds from the fragments `fs`. */
  function FuzzyGroups(ratio: Similarity, p: int, fs: seq<string>): (d: Dict)
    ensures d.Valid()
  {
    if fs == [] then Empty else FuzzyAdd(FuzzyGroups(ratio, p, fs[..|fs| - 1]), fs[|fs| - 1], ratio, p)
  }
}

module AggregationLemmas {
  import opened Wrappers
  import opened Tables
  import opened Aggregation

  /** One more fragment is one more exact-counting step. */
  lemma ExactCountsSnoc(fs: seq<string>, f: string)
    ensures ExactCounts(fs + [f]) == ExactAdd(ExactCounts(fs), f)
  {
    assert (fs + [f])[..|fs|] == fs;
  }

  /** One more fragment is one more first-fit step. */
  lemma FuzzyGroupsSnoc(ratio: Similarity, p: int, fs: seq<string>, f: string)
    ensures FuzzyGroups(ratio, p, fs + [f]) == FuzzyAdd(FuzzyGroups(ratio, p, fs), f, ratio, p)
  {
    assert (fs + [f])[..|fs|] == fs;
  }

  /** Where a value first occurs is not changed by what is appended. */
  lemma IndexOfAppend(a: seq<string>, b: seq<string>, k: string)
    requires k in a
    ensures k in a + b && IndexOf(a + b, k) == IndexOf(a, k)
  {
    assert (a + b)[IndexOf(a, k)] == k;
  }

  /** Exact counting over a file: the keys are exactly the fragments that
      occur, and each key's count is the number of its occurrences. */
  lemma {:induction false} ExactCountsCounts(fs: seq<string>)
    ensures forall k :: k in ExactCounts(fs).count <==> k in fs
    ensures forall k :: k in ExactCounts(fs).count ==> ExactCounts(fs).count[k] == multiset(fs)[k]
  {
    if fs != [] {
      var fs', f := fs[..|fs| - 1], fs[|fs| - 1];
      ExactCountsCounts(fs');
      assert fs == fs' + [f];
      assert multiset(fs) == multiset(fs') + multiset{f};
    }
  }

  /** `keys` are fragments of `fs`, listed in the order of their first
      occurrence in `fs`. */
  ghost predicate FirstSeenOrder(fs: seq<string>, keys: seq<string>)
  {
    (forall i :: 0 <= i < |keys| ==> keys[i] in fs) &&
    (forall i, j :: 0 <= i < j < |keys| ==> IndexOf(fs, keys[i]) < IndexOf(fs, keys[j]))
  }

  /** Appending one fragment keeps the order, whether it adds a key or not. */
  lemma FirstSeenOrderStep(fs: seq<string>, f: string, keys: seq<string>)
    requires FirstSeenOrder(fs, keys)
    ensures FirstSeenOrder(fs + [f], if f in fs then keys else keys + [f])
  {
    var fs1 := fs + [f];
    forall k | k in fs ensures IndexOf(fs1, k) == IndexOf(fs, k) < |fs| {
      IndexOfAppend(fs, [f], k);
    }
    if f !in fs {
      var keys1 := keys + [f];
      assert IndexOf(fs1, f) == |fs| by {
        assert fs1[..|fs|] == fs;
      }
      forall i, j | 0 <= i < j < |keys1|
        ensures IndexOf(fs1, keys1[i]) < IndexOf(fs1, keys1[j])
      {
        assert keys1[i] == keys[i];
        if j < |keys| {
          assert keys1[j] == keys[j];
        }
      }
    }
  }

  /** Exact counting over a file: the keys come in the order in which the
      fragments first occur. Together with ExactCountsCounts this says the
      keys are the distinct fragments in first-seen order. */
  lemma {:induction false} ExactCountsOrder(fs: seq<string>)
    ensures FirstSeenOrder(fs, ExactCounts(fs).keys)
  {
    if fs != [] {
      var fs', f := fs[..|fs| - 1], fs[|fs| - 1];
      ExactCountsOrder(fs');
      ExactCountsCounts(fs');
      assert fs == fs' + [f];
      FirstSeenOrderStep(fs', f, ExactCounts(fs').keys);
    }
  }

  /** Exact counting over a file: the counts add up to the number of fragments. */
  lemma {:induction false} ExactCountsTotal(fs: seq<string>)
    ensures ExactCounts(fs).Total() == |fs|
  {
    if fs != [] {
      ExactCountsTotal(fs[..|fs| - 1]);
      ExactAddTotal(ExactCounts(fs[..|fs| - 1]), fs[|fs| - 1]);
    }
  }

  /** First-fit grouping over a file only ever appends keys: the keys after
      a prefix of the fragments are a prefix of the keys after all of them. */
  lemma {:induction false} FuzzyGroupsPrefix(ratio: Similarity, p: int, fs: seq<string>, gs: seq<string>)
    ensures FuzzyGroups(ratio, p, fs).keys <= FuzzyGroups(ratio, p, fs + gs).keys
    decreases |gs|
  {
    if gs == [] {
      assert fs + gs == fs;
    } else {
      var gs' := gs[..|gs| - 1];
      assert (fs + gs)[..|fs + gs| - 1] == fs + gs';
      assert (fs + gs)[|fs + gs| - 1] == gs[|gs| - 1];
      FuzzyGroupsPrefix(ratio, p, fs, gs');
      FuzzyAddKeys(FuzzyGroups(ratio, p, fs + gs'), gs[|gs| - 1], ratio, p);
    }
  }

  /** First-fit grouping over a file: every key is one of the fragments
      and every count is at least 1. */
  lemma {:induction false} FuzzyGroupsKeys(ratio: Similarity, p: int, fs: seq<string>)
    ensures forall k :: k in FuzzyGroups(ratio, p, fs).count ==>
              k in fs && FuzzyGroups(ratio, p, fs).count[k] >= 1
  {
    if fs != [] {
      var fs', f := fs[..|fs| - 1], fs[|fs| - 1];
      FuzzyGroupsKeys(ratio, p, fs');
      var d := FuzzyGroups(ratio, p, fs');
      FuzzyAddKeysStep(d, f, ratio, p);
      assert fs == fs' + [f];
    }
  }

  /** One first-fit step adds no key but `f`, and keeps every count at
      least 1. */
  lemma FuzzyAddKeysStep(d: Dict, f: string, ratio: Similarity, p: int)
    requires d.Valid()
    requires forall k :: k in d.count ==> d.count[k] >= 1
    ensures var r := FuzzyAdd(d, f, ratio, p);
      forall k :: k in r.count ==> (k in d.count || k == f) && r.count[k] >= 1
  {
  }

  /** If every fragment scores above the threshold against itself, no count
      is ever reset, and the counts add up to the number of fragments. */
  lemma {:induction false} FuzzyGroupsTotal(ratio: Similarity, p: int, fs: seq<string>)
    requires forall i :: 0 <= i < |fs| ==> ratio(fs[i], fs[i]) > p
    ensures FuzzyGroups(ratio, p, fs).Total() == |fs|
  {
    if fs != [] {
      var fs', f := fs[..|fs| - 1], fs[|fs| - 1];
      FuzzyGroupsTotal(ratio, p, fs');
      var d := FuzzyGroups(ratio, p, fs');
      FuzzyAddTotal(d, f, ratio, p);
      if f in d.count {
        assert d.keys[IndexOf(d.keys, f)] == f;
      }
    }
  }

  /** One fragment: when its score against each key of the table passes
      the threshold exactly when the two are equal, first-fit grouping does
      exactly what exact counting does. */
  lemma FuzzyAddExact(d: Dict, f: string, ratio: Similarity, p: int)
    requires d.Valid()
    requires forall j :: 0 <= j < |d.keys| ==> (ratio(f, d.keys[j]) > p <==> f == d.keys[j])
    ensures FuzzyAdd(d, f, ratio, p) == ExactAdd(d, f)
  {
    match FirstFit(d.keys, f, ratio, p)
    case Some(i) =>
    case None =>
  }

  /** A whole file: when, among the file's own fragments, a score passes the
      threshold exactly when the two are equal, first-fit grouping builds the
      same table as exact counting. */
  lemma {:induction false} FuzzyGroupsExact(ratio: Similarity, p: int, fs: seq<string>)
    requires forall i, j :: 0 <= i < |fs| && 0 <= j < |fs| ==> (ratio(fs[i], fs[j]) > p <==> fs[i] == fs[j])
    ensures FuzzyGroups(ratio, p, fs) == ExactCounts(fs)
  {
    if fs != [] {
      var fs', f := fs[..|fs| - 1], fs[|fs| - 1];
      FuzzyGroupsExact(ratio, p, fs');
      var d := ExactCounts(fs');
      ExactCountsCounts(fs');
      forall j | 0 <= j < |d.keys| ensures ratio(f, d.keys[j]) > p <==> f == d.keys[j] {
        var k := d.keys[j];
        assert k in d.count;
        var m :| 0 <= m < |fs'| && fs'[m] == k;
        assert fs[m] == k && fs[|fs| - 1] == f;
      }
      FuzzyAddExact(d, f, ratio, p);
    }
  }

  /** If every later fragment scores above the threshold against the first,
      the whole file collapses into one group, keyed by its first fragment,
      whose count is the number of fragments. */
  lemma {:induction false} FuzzyGroupsCollapse(ratio: Similarity, p: int, fs: seq<string>)
    requires fs != [] && forall i :: 0 < i < |fs| ==> ratio(fs[i], fs[0]) > p
    ensures FuzzyGroups(ratio, p, fs).keys == [fs[0]]
    ensures FuzzyGroups(ratio, p, fs).count[fs[0]] == |fs|
  {
    var fs', f := fs[..|fs| - 1], fs[|fs| - 1];
    if fs' == [] {
      assert FuzzyGroups(ratio, p, fs') == Empty;
    } else {
      assert fs'[0] == fs[0];
      FuzzyGroupsCollapse(ratio, p, fs');
      var d := FuzzyGroups(ratio, p, fs');
      assert FirstFit(d.keys, f, ratio, p) == Some(0);
    }
  }

  /** If no pair of strings scores above the threshold (for example a
      threshold of 100 or more with scores in 0..100), no count is ever
      raised: repeated fragments reset their key to 1, so the keys are
      those of exact counting and every count is 1. */
  lemma {:induction false} FuzzyGroupsNothingPasses(ratio: Similarity, p: int, fs: seq<string>)
    requires forall a, b :: ratio(a, b) <= p
    ensures FuzzyGroups(ratio, p, fs).keys == ExactCounts(fs).keys
    ensures forall k :: k in FuzzyGroups(ratio, p, fs).count ==> FuzzyGroups(ratio, p, fs).count[k] == 1
  {
    if fs != [] {
      var fs', f := fs[..|fs| - 1], fs[|fs| - 1];
      FuzzyGroupsNothingPasses(ratio, p, fs');
      var d := FuzzyGroups(ratio, p, fs');
      assert FirstFit(d.keys, f, ratio, p) == None;
    }
  }

  /** First fit, not best fit: a fragment that scores above the threshold
      against the first key joins that key even when the second key scores
      higher; the second key is left as it was. */
  lemma FirstFitNotBestFit(d: Dict, f: string, ratio: Similarity)
    requires d.Valid() && |d.keys| == 2
    requires ratio(f, d.keys[0]) == 81 && ratio(f, d.keys[1]) == 99
    ensures FuzzyAdd(d, f, ratio, 80).Items() ==
              [(d.keys[0], d.count[d.keys[0]] + 1), (d.keys[1], d.count[d.keys[1]])]
  {
    assert FirstFit(d.keys, f, ratio, 80) == Some(0);
    FuzzyAddItems(d, f, ratio, 80);
  }

  /** Grouping depends on the order of the input: when each of two
      fragments scores above the threshold against the other, whichever
      comes first becomes the representative of both. */
  lemma OrderSensitivity(ratio: Similarity, p: int, a: string, b: string)
    requires ratio(b, a) > p && ratio(a, b) > p
    ensures FuzzyGroups(ratio, p, [a, b]).keys == [a]
    ensures FuzzyGroups(ratio, p, [b, a]).keys == [b]
  {
    SecondJoinsFirst(ratio, p, a, b);
    SecondJoinsFirst(ratio, p, b, a);
  }

  /** Two fragments, the second scoring above the threshold against the
      first: one group, keyed by the first. */
  lemma SecondJoinsFirst(ratio: Similarity, p: int, a: string, b: string)
    requires ratio(b, a) > p
    ensures FuzzyGroups(ratio, p, [a, b]).keys == [a]
  {
    assert [a] == [] + [a] && [a, b] == [a] + [b];
    FuzzyGroupsSnoc(ratio, p, [], a);
    FuzzyGroupsSnoc(ratio, p, [a], b);
    var t1 := FuzzyAdd(Empty, a, ratio, p);
    FuzzyAddNewKey(Empty, a, ratio, p);
    FuzzyAddJoinsKey(t1, b, ratio, p, 0);
  }

  /** A fragment that joins the key at `i` leaves the keys as they are. */
  lemma FuzzyAddJoinsKey(d: Dict, f: string, ratio: Similarity, p: int, i: nat)
    requires d.Valid() && i < |d.keys| && ratio(f, d.keys[i]) > p
    requires forall j :: 0 <= j < i ==> ratio(f, d.keys[j]) <= p
    ensures FuzzyAdd(d, f, ratio, p).keys == d.keys
  {
    assert FirstFit(d.keys, f, ratio, p).Some?;
  }

  /** A new fragment that no key scores above `p` against is appended as a
      key. */
  lemma FuzzyAddNewKey(d: Dict, f: string, ratio: Similarity, p: int)
    requires d.Valid() && f !in d.keys
    requires forall j :: 0 <= j < |d.keys| ==> ratio(f, d.keys[j]) <= p
    ensures FuzzyAdd(d, f, ratio, p).keys == d.keys + [f]
  {
    assert FirstFit(d.keys, f, ratio, p).None?;
  }

  /** First-fit grouping of four fragments is four steps. */
  lemma FuzzyGroupsFour(ratio: Similarity, p: int, fs: seq<string>)
    requires |fs| == 4
    ensures FuzzyGroups(ratio, p, fs) ==
              FuzzyAdd(FuzzyAdd(FuzzyAdd(FuzzyAdd(Empty, fs[0], ratio, p), fs[1], ratio, p), fs[2], ratio, p), fs[3], ratio, p)
  {
    assert fs[..0] == [] && fs[..1] == fs[..0] + [fs[0]] && fs[..2] == fs[..1] + [fs[1]];
    assert fs[..3] == fs[..2] + [fs[2]] && fs == fs[..3] + [fs[3]];
    FuzzyGroupsSnoc(ratio, p, fs[..0], fs[0]);
    FuzzyGroupsSnoc(ratio, p, fs[..1], fs[1]);
    FuzzyGroupsSnoc(ratio, p, fs[..2], fs[2]);
    FuzzyGroupsSnoc(ratio, p, fs[..3], fs[3]);
  }

  /** Raising the threshold can lower the number of groups. The scores are
      those of the indel ratio, `round(200 * LCS(x, y) / (|x| + |y|))`, for
      these four strings. At threshold 50, `b` joins `a`, and `c` and `d`
      then find no group to join: three groups. At threshold 60, `b` is a
      group of its own, and `c` and `d` join it: two groups. */
  lemma ThresholdNotMonotone(ratio: Similarity, fs: seq<string>)
    requires fs == ["mmmzzzz", "mmmm", "mmmmxxxx", "yyyymmmm"]
    requires ratio(fs[1], fs[0]) == 55
    requires ratio(fs[2], fs[0]) == 40 && ratio(fs[2], fs[1]) == 67
    requires ratio(fs[3], fs[0]) == 40 && ratio(fs[3], fs[1]) == 67 && ratio(fs[3], fs[2]) == 50
    ensures FuzzyGroups(ratio, 50, fs).keys == [fs[0], fs[2], fs[3]]
    ensures FuzzyGroups(ratio, 60, fs).keys == [fs[0], fs[1]]
  {
    assert fs[1] != fs[0] && fs[2] != fs[0] && fs[3] != fs[0];
    assert fs[3] != fs[2] by { assert fs[3][0] != fs[2][0]; }
    FuzzyGroupsFour(ratio, 50, fs);
    LowThresholdKeys(ratio, 50, fs[0], fs[1], fs[2], fs[3]);
    FuzzyGroupsFour(ratio, 60, fs);
    HighThresholdKeys(ratio, 60, fs[0], fs[1], fs[2], fs[3]);
  }

  /** The lower-threshold half of `ThresholdNotMonotone`: `b` joins `a`,
      `c` and `d` each start a group. */
  lemma LowThresholdKeys(ratio: Similarity, p: int, a: string, b: string, c: string, d: string)
    requires c != a && d != a && d != c
    requires ratio(b, a) > p && ratio(c, a) <= p && ratio(d, a) <= p && ratio(d, c) <= p
    ensures FuzzyAdd(FuzzyAdd(FuzzyAdd(FuzzyAdd(Empty, a, ratio, p), b, ratio, p), c, ratio, p), d, ratio, p).keys
            == [a, c, d]
  {
    var t1 := FuzzyAdd(Empty, a, ratio, p);
    FuzzyAddNewKey(Empty, a, ratio, p);
    var t2 := FuzzyAdd(t1, b, ratio, p);
    FuzzyAddJoinsKey(t1, b, ratio, p, 0);
    var t3 := FuzzyAdd(t2, c, ratio, p);
    SecondKey(t2, a, c, ratio, p);
    ThirdKey(t3, a, c, d, ratio, p);
  }

  /** The higher-threshold half of `ThresholdNotMonotone`: `b` starts a
      group, and `c` and `d` join it. */
  lemma HighThresholdKeys(ratio: Similarity, p: int, a: string, b: string, c: string, d: string)
    requires b != a
    requires ratio(b, a) <= p && ratio(c, a) <= p && ratio(c, b) > p && ratio(d, a) <= p && ratio(d, b) > p
    ensures FuzzyAdd(FuzzyAdd(FuzzyAdd(FuzzyAdd(Empty, a, ratio, p), b, ratio, p), c, ratio, p), d, ratio, p).keys
            == [a, b]
  {
    var t1 := FuzzyAdd(Empty, a, ratio, p);
    FuzzyAddNewKey(Empty, a, ratio, p);
    var t2 := FuzzyAdd(t1, b, ratio, p);
    SecondKey(t1, a, b, ratio, p);
    var t3 := FuzzyAdd(t2, c, ratio, p);
    JoinsSecondKey(t2, a, b, c, ratio, p);
    JoinsSecondKey(t3, a, b, d, ratio, p);
  }

  /** A one-key table gains a second key. */
  lemma SecondKey(t: Dict, a: string, f: string, ratio: Similarity, p: int)
    requires t.Valid() && t.keys == [a] && f != a && ratio(f, a) <= p
    ensures FuzzyAdd(t, f, ratio, p).keys == [a, f]
  {
    FuzzyAddNewKey(t, f, ratio, p);
  }

  /** A fragment joins the second key of a two-key table. */
  lemma JoinsSecondKey(t: Dict, a: string, b: string, f: string, ratio: Similarity, p: int)
    requires t.Valid() && t.keys == [a, b] && ratio(f, a) <= p && ratio(f, b) > p
    ensures FuzzyAdd(t, f, ratio, p).keys == [a, b]
  {
    FuzzyAddJoinsKey(t, f, ratio, p, 1);
  }

  /** A two-key table gains a third key. */
  lemma ThirdKey(t: Dict, a: string, c: string, f: string, ratio: Similarity, p: int)
    requires t.Valid() && t.keys == [a, c] && f != a && f != c && ratio(f, a) <= p && ratio(f, c) <= p
    ensures FuzzyAdd(t, f, ratio, p).keys == [a, c, f]
  {
    FuzzyAddNewKey(t, f, ratio, p);
  }
}
