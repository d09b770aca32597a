/**
 * `ParserManager.get_between`: every substring of a text that lies between a
 * start marker and the next end marker, scanned left to right, optionally
 * dropping the matches that contain a filter string. Every scraper builds on it.
 */
module ParserManager {
  import opened Wrappers
  import opened Strings

  /** Where one match lies: `text[lo:hi]`. */
  datatype Span = Span(lo: nat, hi: nat)

  /**
   * `sp` is a match of `start`/`end` in `text`: a start marker ends at `lo`,
   * an end marker begins at `hi`, and no end marker begins in between.
   */
  predicate IsMatch(text: string, start: string, end: string, sp: Span) {
    && |start| <= sp.lo <= sp.hi
    && OccursAt(text, start, sp.lo - |start|)
    && OccursAt(text, end, sp.hi)
    && forall p | sp.lo <= p < sp.hi :: !OccursAt(text, end, p)
  }

  /**
   * The spans the `while True` loop of `get_between` appends, when it resumes
   * its search at `from`: find the next start marker, then the first end
   * marker after it; stop as soon as either is missing.
   */
  function Scan(text: string, start: string, end: string, from: nat): seq<Span>
    requires start != [] || end != []
    requires from <= |text|
    decreases |text| - from
  {
    var i := Find(text, start, from);
    if i == -1 then []
    else
      var lo := i + |start|;
      var j := Find(text, end, lo);
      if j == -1 then []
      else [Span(lo, j)] + Scan(text, start, end, j + |end|)
  }

  /** Every span is a match of `start`/`end`, found at or after `from`. */
  predicate AllMatch(text: string, start: string, end: string, from: nat, spans: seq<Span>) {
    forall k | 0 <= k < |spans| :: from + |start| <= spans[k].lo && IsMatch(text, start, end, spans[k])
  }

  /**
   * The spans come in increasing order without overlapping: the end marker of
   * one and the start marker of the next lie between them.
   */
  predicate Ordered(start: string, end: string, spans: seq<Span>) {
    forall k | 0 <= k < |spans| - 1 :: spans[k].hi + |end| + |start| <= spans[k + 1].lo
  }

  /** The first round of the scan yields a match after `from`. */
  lemma {:induction false} FirstSpanMatches(text: string, start: string, end: string, from: nat, i: int, j: int)
    requires i == Find(text, start, from) && i != -1
    requires j == Find(text, end, i + |start|) && j != -1
    ensures from + |start| <= i + |start| && IsMatch(text, start, end, Span(i + |start|, j))
  {
    FindSpec(text, start, from);
    FindSpec(text, end, i + |start|);
  }

  /** What the scan finds after its `k`-th round is a scan that resumes further on. */
  lemma {:induction false} ScanSuffix(text: string, start: string, end: string, from: nat, k: nat)
    returns (f: nat)
    requires start != [] || end != []
    requires from <= |text|
    requires k <= |Scan(text, start, end, from)|
    ensures from <= f <= |text| && Scan(text, start, end, from)[k..] == Scan(text, start, end, f)
    decreases |text| - from
  {
    if k == 0 {
      f := from;
    } else {
      var i := Find(text, start, from);
      var j := Find(text, end, i + |start|);
      ScanAdvances(text, start, end, from, i, j);
      var rest := Scan(text, start, end, j + |end|);
      assert Scan(text, start, end, from)[k..] == rest[k - 1..];
      f := ScanSuffix(text, start, end, j + |end|, k - 1);
    }
  }

  /** The `k`-th span of the scan is a match found at or after `from`. */
  lemma {:induction false} ScanNthMatches(text: string, start: string, end: string, from: nat, k: nat)
    requires start != [] || end != []
    requires from <= |text|
    requires k < |Scan(text, start, end, from)|
    ensures from + |start| <= Scan(text, start, end, from)[k].lo
    ensures IsMatch(text, start, end, Scan(text, start, end, from)[k])
  {
    var f := ScanSuffix(text, start, end, from, k);
    assert Scan(text, start, end, from)[k] == Scan(text, start, end, f)[0];
    var i := Find(text, start, f);
    var j := Find(text, end, i + |start|);
    ScanAdvances(text, start, end, f, i, j);
    FirstSpanMatches(text, start, end, f, i, j);
  }

  /** Every span of the scan is a match found at or after `from`. */
  lemma ScanSpec(text: string, start: string, end: string, from: nat)
    requires start != [] || end != []
    requires from <= |text|
    ensures AllMatch(text, start, end, from, Scan(text, start, end, from))
  {
    forall k | 0 <= k < |Scan(text, start, end, from)|
      ensures from + |start| <= Scan(text, start, end, from)[k].lo
      ensures IsMatch(text, start, end, Scan(text, start, end, from)[k])
    {
      ScanNthMatches(text, start, end, from, k);
    }
  }

  /** The `k`-th span of the scan ends before the start marker of the next one. */
  lemma {:induction false} ScanPairOrdered(text: string, start: string, end: string, from: nat, k: nat)
    requires start != [] || end != []
    requires from <= |text|
    requires k + 1 < |Scan(text, start, end, from)|
    ensures Scan(text, start, end, from)[k].hi + |end| + |start| <= Scan(text, start, end, from)[k + 1].lo
  {
    var f := ScanSuffix(text, start, end, from, k);
    var i := Find(text, start, f);
    var j := Find(text, end, i + |start|);
    ScanAdvances(text, start, end, f, i, j);
    var rest := Scan(text, start, end, j + |end|);
    assert Scan(text, start, end, from)[k] == Span(i + |start|, j);
    assert Scan(text, start, end, from)[k + 1] == rest[0];
    ScanNthMatches(text, start, end, j + |end|, 0);
  }

  /** The spans of the scan are in increasing order and do not overlap. */
  lemma ScanOrdered(text: string, start: string, end: string, from: nat)
    requires start != [] || end != []
    requires from <= |text|
    ensures Ordered(start, end, Scan(text, start, end, from))
  {
    forall k | 0 <= k < |Scan(text, start, end, from)| - 1
      ensures Scan(text, start, end, from)[k].hi + |end| + |start| <= Scan(text, start, end, from)[k + 1].lo
    {
      ScanPairOrdered(text, start, end, from, k);
    }
  }

  /** Every span lies inside the text. */
  predicate InText(text: string, spans: seq<Span>) {
    forall k | 0 <= k < |spans| :: spans[k].lo <= spans[k].hi <= |text|
  }

  /** The spans the scan finds lie inside the text. */
  lemma {:induction false} ScanInText(text: string, start: string, end: string, from: nat)
    requires start != [] || end != []
    requires from <= |text|
    ensures InText(text, Scan(text, start, end, from))
  {
    ScanSpec(text, start, end, from);
  }

  /** A round of the scan that finds a start marker and then an end marker. */
  lemma {:induction false} ScanAdvances(text: string, start: string, end: string, from: nat, i: int, j: int)
    requires start != [] || end != []
    requires from <= |text|
    requires i == Find(text, start, from) && i != -1
    requires j == Find(text, end, i + |start|) && j != -1
    ensures Scan(text, start, end, from) == [Span(i + |start|, j)] + Scan(text, start, end, j + |end|)
  {
  }

  /** The substrings of a round that finds a match: that match, then the rest of the scan. */
  lemma {:induction false} FoundAdvance(text: string, start: string, end: string, from: nat, i: int, j: int)
    requires start != [] || end != []
    requires from <= |text|
    requires i == Find(text, start, from) && i != -1
    requires j == Find(text, end, i + |start|) && j != -1
    ensures Found(text, start, end, from) == [text[i + |start|..j]] + Found(text, start, end, j + |end|)
  {
    ScanAdvances(text, start, end, from, i, j);
    ScanInText(text, start, end, from);
    ScanInText(text, start, end, j + |end|);
    assert ([Span(i + |start|, j)] + Scan(text, start, end, j + |end|))[1..] == Scan(text, start, end, j + |end|);
  }

  /** A round of the scan that misses the start marker or the end marker ends it. */
  lemma {:induction false} ScanStops(text: string, start: string, end: string, from: nat, i: int)
    requires start != [] || end != []
    requires from <= |text|
    requires i == Find(text, start, from)
    requires i == -1 || Find(text, end, i + |start|) == -1
    ensures Scan(text, start, end, from) == []
  {
  }

  /** The substrings a sequence of spans covers, in order. */
  function Matches(text: string, spans: seq<Span>): (r: seq<string>)
    requires InText(text, spans)
    ensures |r| == |spans|
    ensures forall k | 0 <= k < |spans| :: r[k] == text[spans[k].lo..spans[k].hi]
  {
    if spans == [] then [] else [text[spans[0].lo..spans[0].hi]] + Matches(text, spans[1..])
  }

  /** Python's truthiness of `filter_to_remove`: neither `None` nor `""`. */
  predicate Truthy(filter: Option<string>) {
    filter.Some? && filter.value != ""
  }

  /** `[x for x in items if f not in x]`. */
  function Without(items: seq<string>, f: string): seq<string> {
    if items == [] then []
    else (if Contains(items[0], f) then [] else [items[0]]) + Without(items[1..], f)
  }

  /**
   * Filtering keeps exactly the items that do not contain `f`: every kept
   * item comes from `items` and lacks `f`, and every such item is kept.
   */
  lemma {:induction false} WithoutSpec(items: seq<string>, f: string)
    ensures |Without(items, f)| <= |items|
    ensures forall x | x in Without(items, f) :: x in items && !Contains(x, f)
    ensures forall x | x in items && !Contains(x, f) :: x in Without(items, f)
  {
    if items != [] {
      WithoutSpec(items[1..], f);
      assert items == [items[0]] + items[1..];
    }
  }

  /** Filtering a concatenation filters each part. */
  lemma {:induction false} WithoutAppend(a: seq<string>, b: seq<string>, f: string)
    ensures Without(a + b, f) == Without(a, f) + Without(b, f)
  {
    if a == [] {
      assert a + b == b;
    } else {
      assert (a + b)[0] == a[0];
      assert (a + b)[1..] == a[1..] + b;
      WithoutAppend(a[1..], b, f);
      var head := if Contains(a[0], f) then [] else [a[0]];
      AppendAssoc(head, Without(a[1..], f), Without(b, f));
    }
  }

  /** The items a truthy filter keeps; all of them otherwise. */
  function Kept(items: seq<string>, filter: Option<string>): seq<string> {
    if Truthy(filter) then Without(items, filter.value) else items
  }

  /** The substrings the scan finds when it resumes at `from`. */
  function Found(text: string, start: string, end: string, from: nat): seq<string>
    requires start != [] || end != []
    requires from <= |text|
  {
    ScanInText(text, start, end, from);
    Matches(text, Scan(text, start, end, from))
  }

  /** What `get_between(text, start, end, filter_to_remove)` returns. */
  function Between(text: string, start: string, end: string, filter: Option<string>): seq<string>
    requires start != [] || end != []
  {
    Kept(Found(text, start, end, 0), filter)
  }

  /** Python's `items.remove(x)`: drop the first occurrence of `x`. */
  function RemoveFirst(items: seq<string>, x: string): seq<string>
    requires x in items
  {
    if items[0] == x then items[1..] else [items[0]] + RemoveFirst(items[1..], x)
  }

  /** When `x` does not occur before a given position, `remove` drops exactly that occurrence. */
  lemma {:induction false} RemoveFirstAt(a: seq<string>, x: string, b: seq<string>)
    requires x !in a
    ensures RemoveFirst(a + [x] + b, x) == a + b
  {
    if a != [] {
      assert (a + [x] + b)[1..] == a[1..] + [x] + b;
      RemoveFirstAt(a[1..], x, b);
    }
  }

  /** The removal loop drops `item`: the filter is truthy and occurs in it. */
  predicate Dropped(item: string, filter: Option<string>) {
    Truthy(filter) && Contains(item, filter.value)
  }

  /** Filtering one more item appends it when it is kept. */
  lemma {:induction false} KeptSnoc(items: seq<string>, n: nat, filter: Option<string>)
    requires n < |items|
    ensures Kept(items[..n + 1], filter) == Kept(items[..n], filter) + (if Dropped(items[n], filter) then [] else [items[n]])
  {
    assert items[..n + 1] == items[..n] + [items[n]];
    if Truthy(filter) {
      WithoutAppend(items[..n], [items[n]], filter.value);
      assert Without([items[n]], filter.value) == (if Contains(items[n], filter.value) then [] else [items[n]]);
    }
  }

  /**
   * A round of the removal loop, from the list where the first `n` items
   * have been filtered, that keeps its item: the list is unchanged.
   */
  lemma {:induction false} RemovalKeeps(items: seq<string>, n: nat, filter: Option<string>)
    requires n < |items| && !Dropped(items[n], filter)
    ensures Kept(items[..n], filter) + items[n..] == Kept(items[..n + 1], filter) + items[n + 1..]
  {
    KeptSnoc(items, n, filter);
    var before := Kept(items[..n], filter);
    assert items[n..] == [items[n]] + items[n + 1..];
    AppendAssoc(before, [items[n]], items[n + 1..]);
  }

  /**
   * A round of the removal loop that drops its item: the item is the first
   * occurrence of itself in the list, so `remove` drops exactly it.
   */
  lemma {:induction false} RemovalDrops(items: seq<string>, n: nat, filter: Option<string>)
    requires n < |items| && Dropped(items[n], filter)
    ensures items[n] in Kept(items[..n], filter) + items[n..]
    ensures RemoveFirst(Kept(items[..n], filter) + items[n..], items[n]) == Kept(items[..n + 1], filter) + items[n + 1..]
  {
    KeptSnoc(items, n, filter);
    var before := Kept(items[..n], filter);
    DroppedNotKept(items[..n], items[n], filter);
    assert items[n..] == [items[n]] + items[n + 1..];
    AppendAssoc(before, [items[n]], items[n + 1..]);
    RemoveFirstAt(before, items[n], items[n + 1..]);
    assert before + [] == before;
  }

  /** A dropped item is not among the items the filter keeps. */
  lemma DroppedNotKept(items: seq<string>, x: string, filter: Option<string>)
    requires Dropped(x, filter)
    ensures x !in Kept(items, filter)
  {
    WithoutSpec(items, filter.value);
  }

  /**
   * Where the `while True` loop of `get_between` stands: it resumes at `from`,
   * and the substrings `found` so far followed by those the rest of the scan
   * finds are all the matches.
   */
  predicate ScanState(text: string, start: string, end: string, all: seq<string>, found: seq<string>, from: nat)
    requires start != [] || end != []
  {
    from <= |text| && all == found + Found(text, start, end, from)
  }

  /** A round of the loop that finds a match appends it and resumes after its end marker. */
  lemma {:induction false} ScanStateAdvance(text: string, start: string, end: string, all: seq<string>,
                                            found: seq<string>, from: nat, i: int, j: int,
                                            found': seq<string>, next: nat)
    requires start != [] || end != []
    requires ScanState(text, start, end, all, found, from)
    requires i == Find(text, start, from) && i != -1
    requires j == Find(text, end, i + |start|) && j != -1
    requires found' == found + [text[i + |start|..j]] && next == j + |end|
    ensures ScanState(text, start, end, all, found', next)
  {
    FoundAdvance(text, start, end, from, i, j);
    var later := Found(text, start, end, next);
    AppendAssoc(found, [text[i + |start|..j]], later);
  }

  /** A round of the loop that misses a marker leaves all the matches found. */
  lemma {:induction false} ScanStateStop(text: string, start: string, end: string, all: seq<string>,
                                         found: seq<string>, from: nat, i: int)
    requires start != [] || end != []
    requires ScanState(text, start, end, all, found, from)
    requires i == Find(text, start, from)
    requires i == -1 || Find(text, end, i + |start|) == -1
    ensures all == found
  {
    ScanStops(text, start, end, from, i);
    assert found + [] == found;
  }

  /**
   * `ParserManager.get_between`. The scan resumes after each consumed end
   * marker; a start marker with no later end marker ends it. Then every
   * match containing a truthy `filter_to_remove` is removed from the list
   * in place. Both markers empty makes the source loop forever, so at least
   * one must be non-empty.
   */
  method GetBetween(text: string, start: string, end: string, filter: Option<string>)
    returns (results: seq<string>)
    requires start != [] || end != []
    ensures results == Between(text, start, end, filter)
  {
    ghost var all := Found(text, start, end, 0);
    results := [];
    var startIdx := 0;
    while true
      invariant 0 <= startIdx && ScanState(text, start, end, all, results, startIdx)
      decreases |text| - startIdx
    {
      ghost var from := startIdx;
      startIdx := Find(text, start, startIdx);
      if startIdx == -1 {
        ScanStateStop(text, start, end, all, results, from, startIdx);
        break;
      }
      ghost var i := startIdx;
      startIdx := startIdx + |start|;
      var endIdx := Find(text, end, startIdx);
      if endIdx == -1 {
        ScanStateStop(text, start, end, all, results, from, i);
        break;
      }
      ghost var before := results;
      results := results + [text[startIdx..endIdx]];
      startIdx := endIdx + |end|;
      ScanStateAdvance(text, start, end, all, before, from, i, endIdx, results, startIdx);
    }
    assert all == results;
    results := RemoveFiltered(results, filter);
  }

  /**
   * The tail of `get_between`: iterate over a copy of the list and `remove`
   * every item that contains a truthy `filter_to_remove`.
   */
  method RemoveFiltered(items: seq<string>, filter: Option<string>) returns (results: seq<string>)
    ensures results == Kept(items, filter)
  {
    results := items;
    var snapshot := items;
    var n := 0;
    assert snapshot[..0] == [] && snapshot[0..] == snapshot;
    while n < |snapshot|
      invariant 0 <= n <= |snapshot|
      invariant results == Kept(snapshot[..n], filter) + snapshot[n..]
    {
      var item := snapshot[n];
      if Truthy(filter) && Contains(item, filter.value) {
        RemovalDrops(snapshot, n, filter);
        results := RemoveFirst(results, item);
      } else {
        RemovalKeeps(snapshot, n, filter);
      }
      n := n + 1;
    }
    assert snapshot[..n] == items && snapshot[n..] == [];
  }

  /** No match contains a non-empty end marker: the scan stops at the first one. */
  lemma {:induction false} MatchesAvoidEnd(text: string, start: string, end: string, filter: Option<string>)
    requires end != []
    ensures forall x | x in Between(text, start, end, filter) :: !Contains(x, end)
  {
    ScanInText(text, start, end, 0);
    var spans := Scan(text, start, end, 0);
    var found := Matches(text, spans);
    forall k | 0 <= k < |found| ensures !Contains(found[k], end) {
      var sp := spans[k];
      ScanNthMatches(text, start, end, 0, k);
      if Contains(found[k], end) {
        var q :| 0 <= q <= |found[k]| && OccursAt(found[k], end, q);
        OccursInSlice(text, end, sp.lo, sp.hi, q);
        assert false;
      }
    }
    if Truthy(filter) {
      WithoutSpec(found, filter.value);
    }
  }

  /** Without a start marker in the text there is no match. */
  lemma {:induction false} NoStartNoMatches(text: string, start: string, end: string, filter: Option<string>)
    requires start != [] || end != []
    requires !Contains(text, start)
    ensures Between(text, start, end, filter) == []
  {
    FindFromZero(text, start);
    ScanStops(text, start, end, 0, Find(text, start, 0));
  }
}
