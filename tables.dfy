/**
 * The frequency table: a Python `dict[str, int]`, which remembers the order
 * in which its keys were first inserted. Assigning to an existing key keeps
 * its position; assigning to a new key appends it.
 */
module Tables {

  /** One `(key, count)` item of a table. */
  type Entry = (string, int)

  /** The sum of the counts of `items`. */
  function SumCounts(items: seq<Entry>): int
  {
    if items == [] then 0 else SumCounts(items[..|items| - 1]) + items[|items| - 1].1
  }

  /** Replacing one item changes the sum by the difference of the two counts. */
  lemma {:induction false} SumCountsUpdate(items: seq<Entry>, i: nat, e: Entry)
    requires i < |items|
    ensures SumCounts(items[i := e]) == SumCounts(items) - items[i].1 + e.1
    decreases |items|
  {
    var n := |items| - 1;
    if i < n {
      assert items[i := e][..n] == items[..n][i := e];
      SumCountsUpdate(items[..n], i, e);
    } else {
      assert items[i := e][..n] == items[..n];
    }
  }

  /** The position of `k` in `keys`: its first occurrence. */
  function IndexOf(keys: seq<string>, k: string): (i: nat)
    requires k in keys
    ensures i < |keys| && keys[i] == k && k !in keys[..i]
  {
    if keys[0] == k then 0 else 1 + IndexOf(keys[1..], k)
  }

  /** The value of a table: its keys in insertion order, and their counts. */
  datatype Dict = Dict(keys: seq<string>, count: map<string, int>)
  {
    /** Keys are unique and are exactly the keys that have a count. */
    ghost predicate Valid()
    {
      (forall i, j :: 0 <= i < j < |keys| ==> keys[i] != keys[j]) &&
      (forall k :: k in count <==> k in keys)
    }

    /** `dict.items()`: the `(key, count)` pairs in insertion order. */
    function Items(): (r: seq<Entry>)
      requires Valid()
      ensures |r| == |keys|
      ensures forall i :: 0 <= i < |r| ==> r[i].0 == keys[i] && r[i].0 in count && r[i].1 == count[r[i].0]
      ensures forall i, j :: 0 <= i < j < |r| ==> r[i].0 != r[j].0
    {
      seq(|keys|, i requires 0 <= i < |keys| => (keys[i], count[keys[i]]))
    }

    /** The sum of all counts. */
    function Total(): int
      requires Valid()
    {
      SumCounts(Items())
    }

    /** `d[k] = v`: the key set gains `k` if it is new, and the table stays
        well formed. */
    function Put(k: string, v: int): (r: Dict)
      requires Valid()
      ensures r.Valid()
    {
      if k in count then Dict(keys, count[k := v]) else Dict(keys + [k], count[k := v])
    }
  }

  /** `d[k] = v` on the items: an existing key keeps its position and gets
      the new count, a new key is appended as the last item, and no other
      item changes; the total changes by the difference of the counts. */
  lemma PutItems(d: Dict, k: string, v: int)
    requires d.Valid()
    ensures d.Put(k, v).Items() == if k in d.count then d.Items()[IndexOf(d.keys, k) := (k, v)]
                                   else d.Items() + [(k, v)]
    ensures d.Put(k, v).Total() == d.Total() - (if k in d.count then d.count[k] else 0) + v
  {
    if k in d.count {
      PutExistingItems(d, k, v);
      SumCountsUpdate(d.Items(), IndexOf(d.keys, k), (k, v));
    } else {
      PutNewItems(d, k, v);
      assert d.Put(k, v).Items()[..|d.keys|] == d.Items();
    }
  }

  /** `d[k] = v` for a key `d` already has replaces that key's item. */
  lemma PutExistingItems(d: Dict, k: string, v: int)
    requires d.Valid() && k in d.count
    ensures d.Put(k, v).Items() == d.Items()[IndexOf(d.keys, k) := (k, v)]
  {
    var i := IndexOf(d.keys, k);
    var r := d.Put(k, v);
    forall j | 0 <= j < |d.keys|
      ensures r.Items()[j] == d.Items()[i := (k, v)][j]
    {
      if j != i {
        assert d.keys[j] != k;
      }
    }
  }

  /** `d[k] = v` for a new key appends its item. */
  lemma PutNewItems(d: Dict, k: string, v: int)
    requires d.Valid() && k !in d.count
    ensures d.Put(k, v).Items() == d.Items() + [(k, v)]
  {
    var r := d.Put(k, v);
    forall j | 0 <= j < |d.keys|
      ensures r.Items()[j] == d.Items()[j]
    {
      assert d.keys[j] != k;
    }
  }

  /** The empty table `{}`. */
  const Empty: Dict := Dict([], map[])

  /** A `dict[str, int]` object that the analyser updates in place. */
  class FrequencyTable {
    var keys: seq<string>
    var count: map<string, int>

    /** The table's current value. */
    function Value(): Dict
      reads this
    {
      Dict(keys, count)
    }

    ghost predicate Valid()
      reads this
    {
      Value().Valid()
    }

    /** `{}` */
    constructor ()
      ensures Valid() && Value() == Empty
    {
      keys := [];
      count := map[];
    }

    /** `self[k] = v` */
    method Put(k: string, v: int)
      requires Valid()
      modifies this
      ensures Valid() && Value() == old(Value()).Put(k, v)
    {
      if k !in count {
        keys := keys + [k];
      }
      count := count[k := v];
    }
  }
}
