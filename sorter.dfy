/**
 * `BaseAnalyzer._sort`: `dict(sorted(data.items(), key=lambda item: item[1],
 * reverse=True))`. Python's sort is stable, and stays stable with
 * `reverse=True`: items with equal counts keep their input order. The
 * function below is an insertion sort that places each item after every
 * earlier item whose count is at least its own; its properties are the
 * lemmas that follow it.
 */
module Sorter {
  import opened Tables

  /** Counts never increase from one item to a later one. */
  ghost predicate Descending(s: seq<Entry>)
  {
    forall i, j :: 0 <= i < j < |s| ==> s[i].1 >= s[j].1
  }

  /** The items of `s` whose count is `c`, in their order in `s`. */
  function WithCount(s: seq<Entry>, c: int): (r: seq<Entry>)
  {
    if s == [] then []
    else (if s[0].1 == c then [s[0]] else []) + WithCount(s[1..], c)
  }

  /** Every item kept has count `c` and is an item of `s`. */
  lemma {:induction false} WithCountMembers(s: seq<Entry>, c: int)
    ensures forall y :: y in WithCount(s, c) ==> y in s && y.1 == c
  {
    if s != [] {
      WithCountMembers(s[1..], c);
    }
  }

  lemma {:induction false} WithCountAppend(a: seq<Entry>, b: seq<Entry>, c: int)
    ensures WithCount(a + b, c) == WithCount(a, c) + WithCount(b, c)
  {
    if a != [] {
      assert (a + b)[1..] == a[1..] + b;
      WithCountAppend(a[1..], b, c);
    } else {
      assert a + b == b;
    }
  }

  lemma {:induction false} WithCountNone(s: seq<Entry>, c: int)
    requires forall i :: 0 <= i < |s| ==> s[i].1 != c
    ensures WithCount(s, c) == []
  {
    if s != [] {
      WithCountNone(s[1..], c);
    }
  }

  lemma WithCountOfFirst(s: seq<Entry>)
    ensures s != [] ==> WithCount(s, s[0].1) != []
  {
  }

  /** Where `x` goes in `t`: before the first item whose count is below `x`'s. */
  function InsertionPoint(t: seq<Entry>, x: Entry): (k: nat)
    ensures k <= |t|
    ensures forall i :: 0 <= i < k ==> t[i].1 >= x.1
    ensures k < |t| ==> t[k].1 < x.1
  {
    if t == [] || t[0].1 < x.1 then 0 else 1 + InsertionPoint(t[1..], x)
  }

  /** `x`, which comes after every item of `t` in the input, placed after
      all items of `t` with a count at least its own. */
  function Insert(t: seq<Entry>, x: Entry): seq<Entry>
  {
    var k := InsertionPoint(t, x);
    t[..k] + [x] + t[k..]
  }

  /** The sorted table, as a sequence of items: one output item per input
      item, so in particular an empty table sorts to an empty table. */
  function SortByCount(s: seq<Entry>): (r: seq<Entry>)
    ensures |r| == |s|
  {
    if s == [] then [] else Insert(SortByCount(s[..|s| - 1]), s[|s| - 1])
  }

  lemma InsertDescending(t: seq<Entry>, x: Entry)
    requires Descending(t)
    ensures Descending(Insert(t, x))
  {
    var k := InsertionPoint(t, x);
    var r := Insert(t, x);
    forall i, j | 0 <= i < j < |r| ensures r[i].1 >= r[j].1 {
      if j < k || i > k {
      } else if i == k {
        assert r[j] == t[j - 1];
        assert t[k].1 < x.1 || j - 1 == k;
      } else if j == k {
        assert r[i] == t[i];
      } else {
        assert r[i] == t[i] && r[j] == t[j - 1];
      }
    }
  }

  lemma WithCountSingle(x: Entry, c: int)
    ensures WithCount([x], c) == if x.1 == c then [x] else []
  {
    assert [x][1..] == [];
  }

  lemma InsertWithCount(t: seq<Entry>, x: Entry, c: int)
    requires Descending(t)
    ensures WithCount(Insert(t, x), c) == WithCount(t, c) + (if x.1 == c then [x] else [])
  {
    TailBelow(t, x);
    InsertBeforeLower(t, x, c);
  }

  /** When everything from the insertion point on has a count below `x`'s,
      inserting `x` appends it to the items with its count. */
  lemma InsertBeforeLower(t: seq<Entry>, x: Entry, c: int)
    requires forall i :: 0 <= i < |t| - InsertionPoint(t, x) ==> t[InsertionPoint(t, x)..][i].1 < x.1
    ensures WithCount(Insert(t, x), c) == WithCount(t, c) + (if x.1 == c then [x] else [])
  {
    var k := InsertionPoint(t, x);
    WithCountSplit(t[..k], x, t[k..], c);
    assert t[..k] + t[k..] == t;
    if x.1 == c {
      WithCountNone(t[k..], c);
    }
  }

  /** Splitting around one item `x`. */
  lemma WithCountSplit(a: seq<Entry>, x: Entry, b: seq<Entry>, c: int)
    ensures WithCount(a + [x] + b, c) == WithCount(a, c) + (if x.1 == c then [x] else []) + WithCount(b, c)
    ensures WithCount(a + b, c) == WithCount(a, c) + WithCount(b, c)
  {
    WithCountAppend(a + [x], b, c);
    WithCountAppend(a, [x], c);
    WithCountAppend(a, b, c);
    WithCountSingle(x, c);
  }

  /** In a descending `t`, every item from the insertion point of `x` on
      has a count below `x`'s. */
  lemma TailBelow(t: seq<Entry>, x: Entry)
    requires Descending(t)
    ensures var k := InsertionPoint(t, x);
      forall i :: 0 <= i < |t| - k ==> t[k..][i].1 < x.1
  {
    var k := InsertionPoint(t, x);
    forall i | 0 <= i < |t| - k ensures t[k..][i].1 < x.1 {
      assert t[k..][i] == t[k + i];
      assert t[k].1 >= t[k + i].1;
    }
  }

  /** The output is ordered by count, highest first. */
  lemma {:induction false} SortDescending(s: seq<Entry>)
    ensures Descending(SortByCount(s))
  {
    if s != [] {
      SortDescending(s[..|s| - 1]);
      InsertDescending(SortByCount(s[..|s| - 1]), s[|s| - 1]);
    }
  }

  /** The output holds exactly the input items: it is a permutation. */
  lemma {:induction false} SortPermutation(s: seq<Entry>)
    ensures multiset(SortByCount(s)) == multiset(s)
  {
    if s != [] {
      var s', x := s[..|s| - 1], s[|s| - 1];
      SortPermutation(s');
      InsertPermutation(SortByCount(s'), x);
      assert s == s' + [x];
    }
  }

  /** Inserting adds exactly `x` to the items. */
  lemma InsertPermutation(t: seq<Entry>, x: Entry)
    ensures multiset(Insert(t, x)) == multiset(t) + multiset{x}
  {
    var k := InsertionPoint(t, x);
    assert t == t[..k] + t[k..];
  }

  /** Stability: for every count, the items with that count appear in the
      output in the same order as in the input. */
  lemma {:induction false} SortStable(s: seq<Entry>, c: int)
    ensures WithCount(SortByCount(s), c) == WithCount(s, c)
  {
    if s != [] {
      var s' := s[..|s| - 1];
      var x := s[|s| - 1];
      SortStable(s', c);
      SortDescending(s');
      InsertWithCount(SortByCount(s'), x, c);
      assert s == s' + [x];
      WithCountAppend(s', [x], c);
      WithCountSingle(x, c);
    }
  }

  /** An ordered sequence is determined by its items of each count: two
      sequences ordered by count, highest first, with the same items of
      every count in the same order, are equal. */
  lemma {:induction false} DescendingUnique(r1: seq<Entry>, r2: seq<Entry>)
    requires Descending(r1) && Descending(r2)
    requires forall c :: WithCount(r1, c) == WithCount(r2, c)
    ensures r1 == r2
    decreases |r1|
  {
    if r1 == [] && r2 == [] {
    } else if r1 == [] || r2 == [] {
      WithCountOfFirst(r1);
      WithCountOfFirst(r2);
      assert false;
    } else {
      var m1, m2 := r1[0].1, r2[0].1;
      WithCountMembers(r1, m2);
      WithCountMembers(r2, m1);
      var y1 := WithCount(r2, m1)[0];
      assert y1 in WithCount(r2, m1);
      var y2 := WithCount(r1, m2)[0];
      assert y2 in WithCount(r1, m2);
      assert m1 == m2;
      assert r1[0] == WithCount(r1, m1)[0] == WithCount(r2, m1)[0] == r2[0];
      forall c ensures WithCount(r1[1..], c) == WithCount(r2[1..], c) {
        if c == m1 {
          assert WithCount(r1[1..], c) == WithCount(r1, c)[1..];
          assert WithCount(r2[1..], c) == WithCount(r2, c)[1..];
        } else {
          assert WithCount(r1[1..], c) == WithCount(r1, c);
          assert WithCount(r2[1..], c) == WithCount(r2, c);
        }
      }
      DescendingUnique(r1[1..], r2[1..]);
      assert r1 == [r1[0]] + r1[1..];
      assert r2 == [r2[0]] + r2[1..];
    }
  }

  /** `_sort` is the only ordering that is both ordered by count and stable:
      any such arrangement of the input equals it. */
  lemma SortCharacterized(s: seq<Entry>, r: seq<Entry>)
    requires Descending(r)
    requires forall c :: WithCount(r, c) == WithCount(s, c)
    ensures r == SortByCount(s)
  {
    SortDescending(s);
    forall c ensures WithCount(r, c) == WithCount(SortByCount(s), c) {
      SortStable(s, c);
    }
    DescendingUnique(r, SortByCount(s));
  }

  /** A table that is already in order is returned as it is. */
  lemma SortOrderedInput(s: seq<Entry>)
    requires Descending(s)
    ensures SortByCount(s) == s
  {
    SortCharacterized(s, s);
  }

  /** Sorting twice is sorting once. */
  lemma SortIdempotent(s: seq<Entry>)
    ensures SortByCount(SortByCount(s)) == SortByCount(s)
  {
    SortDescending(s);
    SortOrderedInput(SortByCount(s));
  }
}
