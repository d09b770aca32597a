/**
 * A Python `dict` with string keys, as the coach uses it: entries kept in
 * insertion order, `d[k] = v` replacing a present key's value in place and
 * appending a new key at the end, and `d.update(e)` doing that for every
 * entry of `e` in order.
 */
module OrderedDict {
  import opened Wrappers

  /** The entries of a dict, in insertion order. */
  type Dict<V> = seq<(string, V)>

  /** The keys of `d`, in insertion order (Python's `list(d.keys())`). */
  function Keys<V>(d: Dict<V>): (r: seq<string>)
    ensures |r| == |d| && forall i | 0 <= i < |d| :: r[i] == d[i].0
  {
    if d == [] then [] else [d[0].0] + Keys(d[1..])
  }

  /** Every key occurs once: the invariant of every Python dict. */
  predicate UniqueKeys<V>(d: Dict<V>) {
    forall i, j | 0 <= i < j < |d| :: d[i].0 != d[j].0
  }

  /** Python's `d.get(k)`: the value stored under `k`, or `None`. */
  function Get<V>(d: Dict<V>, k: string): (r: Option<V>)
    ensures r.None? <==> k !in Keys(d)
    ensures r.Some? ==> exists i | 0 <= i < |d| :: d[i] == (k, r.value)
  {
    if d == [] then None
    else if d[0].0 == k then
      assert Keys(d)[0] == k;
      Some(d[0].1)
    else
      assert Keys(d) == [d[0].0] + Keys(d[1..]);
      var r := Get(d[1..], k);
      assert r.Some? ==> exists i | 0 <= i < |d| - 1 :: d[1..][i] == (k, r.value);
      r
  }

  /** In a dict with unique keys, the entry at position `i` is what `Get` finds. */
  lemma {:induction false} GetEntry<V>(d: Dict<V>, i: nat)
    requires UniqueKeys(d) && i < |d|
    ensures Get(d, d[i].0) == Some(d[i].1)
  {
    if i > 0 {
      GetEntry(d[1..], i - 1);
    }
  }

  /** Python's `d[k] = v`. */
  function Set<V>(d: Dict<V>, k: string, v: V): Dict<V> {
    if d == [] then [(k, v)]
    else if d[0].0 == k then [(k, v)] + d[1..]
    else [d[0]] + Set(d[1..], k, v)
  }

  /**
   * After `d[k] = v` a present key keeps its position and a new key goes
   * last, so the keys stay unique.
   */
  lemma {:induction false} SetKeys<V>(d: Dict<V>, k: string, v: V)
    ensures Keys(Set(d, k, v)) == if k in Keys(d) then Keys(d) else Keys(d) + [k]
    ensures UniqueKeys(d) ==> UniqueKeys(Set(d, k, v))
  {
    if d != [] && d[0].0 != k {
      var rest := Set(d[1..], k, v);
      SetKeys(d[1..], k, v);
      assert UniqueKeys(d) ==> d[0].0 !in Keys(d[1..]);
      ConsUnique(d[0], rest);
    }
  }

  /** Assigning a key the dict does not have appends one entry at the end. */
  lemma {:induction false} SetNew<V>(d: Dict<V>, k: string, v: V)
    requires k !in Keys(d)
    ensures Set(d, k, v) == d + [(k, v)]
  {
    if d != [] {
      assert Keys(d) == [d[0].0] + Keys(d[1..]);
      SetNew(d[1..], k, v);
      assert d == [d[0]] + d[1..];
    }
  }

  /** After `d[k] = v`, `k` maps to `v` and every other key keeps its value. */
  lemma {:induction false} SetGet<V>(d: Dict<V>, k: string, v: V, k': string)
    ensures Get(Set(d, k, v), k') == if k' == k then Some(v) else Get(d, k')
  {
    if d != [] && d[0].0 != k {
      SetGet(d[1..], k, v, k');
    }
  }

  /** Python's `d.update(e)`: `d[k] = v` for every entry of `e`, in order. */
  function Update<V>(d: Dict<V>, e: Dict<V>): Dict<V>
    decreases |e|
  {
    if e == [] then d else Update(Set(d, e[0].0, e[0].1), e[1..])
  }

  /** A dict with unique keys does not repeat its first key later on. */
  lemma FirstKeyNotInRest<V>(e: Dict<V>)
    requires UniqueKeys(e) && e != []
    ensures UniqueKeys(e[1..]) && e[0].0 !in Keys(e[1..])
  {
  }

  /** Putting an entry with a fresh key in front keeps the keys unique. */
  lemma ConsUnique<V>(x: (string, V), rest: Dict<V>)
    ensures UniqueKeys(rest) && x.0 !in Keys(rest) ==> UniqueKeys([x] + rest)
  {
    if UniqueKeys(rest) && x.0 !in Keys(rest) {
      forall i, j | 0 <= i < j < |rest| + 1 ensures ([x] + rest)[i].0 != ([x] + rest)[j].0 {
        if i == 0 {
          assert ([x] + rest)[j].0 == Keys(rest)[j - 1];
        }
      }
    }
  }

  /**
   * After `d.update(e)` a key of `e` holds `e`'s value (the later dict wins on
   * a collision) and every other key keeps `d`'s value.
   */
  lemma {:induction false} UpdateGet<V>(d: Dict<V>, e: Dict<V>, k: string)
    requires UniqueKeys(e)
    ensures Get(Update(d, e), k) == if Get(e, k).Some? then Get(e, k) else Get(d, k)
    decreases |e|
  {
    if e != [] {
      FirstKeyNotInRest(e);
      var d' := Set(d, e[0].0, e[0].1);
      SetGet(d, e[0].0, e[0].1, k);
      UpdateGet(d', e[1..], k);
    }
  }

  /** `d.update(e)` keeps the keys unique. */
  lemma {:induction false} UpdateUnique<V>(d: Dict<V>, e: Dict<V>)
    requires UniqueKeys(d)
    ensures UniqueKeys(Update(d, e))
    decreases |e|
  {
    if e != [] {
      SetKeys(d, e[0].0, e[0].1);
      UpdateUnique(Set(d, e[0].0, e[0].1), e[1..]);
    }
  }

  /** `d.update(e)` keeps `d`'s keys first, in their order. */
  lemma {:induction false} UpdateKeepsKeys<V>(d: Dict<V>, e: Dict<V>)
    ensures |d| <= |Update(d, e)| && Keys(Update(d, e))[..|d|] == Keys(d)
    decreases |e|
  {
    if e != [] {
      var d' := Set(d, e[0].0, e[0].1);
      SetKeys(d, e[0].0, e[0].1);
      UpdateKeepsKeys(d', e[1..]);
      assert Keys(d')[..|d|] == Keys(d);
      assert Keys(Update(d, e))[..|d|] == Keys(Update(d, e))[..|d'|][..|d|];
    }
  }

  /**
   * The fold `generate` and `stream_response` perform over a run of artifacts:
   * `acc = {}; for a in ds: acc.update(a)`.
   */
  function MergeAll<V>(ds: seq<Dict<V>>): Dict<V> {
    if ds == [] then [] else Update(MergeAll(ds[..|ds| - 1]), ds[|ds| - 1])
  }

  /**
   * After merging a run of dicts, a key is absent exactly when no dict of the
   * run has it, and otherwise it holds the value of the LAST dict that has it.
   */
  lemma {:induction false} MergeAllLastWins<V>(ds: seq<Dict<V>>, k: string)
    requires forall j | 0 <= j < |ds| :: UniqueKeys(ds[j])
    ensures UniqueKeys(MergeAll(ds))
    ensures Get(MergeAll(ds), k).None? <==> forall j | 0 <= j < |ds| :: Get(ds[j], k).None?
    ensures forall j | 0 <= j < |ds| ::
      Get(ds[j], k).Some? && (forall j' | j < j' < |ds| :: Get(ds[j'], k).None?) ==>
        Get(MergeAll(ds), k) == Get(ds[j], k)
  {
    if ds != [] {
      var front := ds[..|ds| - 1];
      var last := ds[|ds| - 1];
      assert forall j | 0 <= j < |front| :: front[j] == ds[j];
      MergeAllLastWins(front, k);
      var mf := MergeAll(front);
      UpdateUnique(mf, last);
      UpdateGet(mf, last, k);
      assert MergeAll(ds) == Update(mf, last);
      forall j | 0 <= j < |ds| && Get(ds[j], k).Some? && (forall j' | j < j' < |ds| :: Get(ds[j'], k).None?)
        ensures Get(MergeAll(ds), k) == Get(ds[j], k)
      {
        if j < |ds| - 1 {
          assert Get(last, k).None?;
          assert Get(front[j], k).Some?;
        }
      }
    }
  }
}
