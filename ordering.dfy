/**
 * `_.orderBy(mapdDepartures, ['timeLeft', 'nextStop'])` and the numbering
 * `_.map(..., (dep, index) => ({ ...dep, index }))` that follow the merge.
 */
module DepartureOrder {
  import opened Wrappers
  import opened Seqs
  import opened Departures

  /** lodash's ascending comparison of `nextStop`: null comes after every number. */
  predicate NextStopLe(a: Option<int>, b: Option<int>) {
    b.None? || (a.Some? && a.value <= b.value)
  }

  /** `a` may come before `b`: ascending by `timeLeft`, then by `nextStop`. */
  predicate Before(a: Entry, b: Entry) {
    a.timeLeft < b.timeLeft || (a.timeLeft == b.timeLeft && NextStopLe(a.nextStop, b.nextStop))
  }

  /** The sort key of an entry; entries with equal keys keep their order. */
  type SortKey = (int, Option<int>)

  function SortKeyOf(e: Entry): SortKey {
    (e.timeLeft, e.nextStop)
  }

  predicate Sorted(s: seq<Entry>) {
    forall i, j :: 0 <= i < j < |s| ==> Before(s[i], s[j])
  }

  /** Inserts `x` in front of the first entry it may precede. */
  function Insert(x: Entry, t: seq<Entry>): seq<Entry> {
    if t == [] then [x]
    else if Before(x, t[0]) then [x] + t
    else [t[0]] + Insert(x, t[1..])
  }

  /** The stable ascending sort of `_.orderBy`. */
  function OrderByTime(s: seq<Entry>): seq<Entry> {
    if s == [] then [] else Insert(s[0], OrderByTime(s[1..]))
  }

  /** A numbered departure: the entry with its 0-based position in the final list. */
  datatype Departure = Departure(entry: Entry, index: nat)

  function Entries(d: seq<Departure>): (r: seq<Entry>)
    ensures |r| == |d|
    ensures forall k :: 0 <= k < |d| ==> r[k] == d[k].entry
  {
    seq(|d|, k requires 0 <= k < |d| => d[k].entry)
  }

  /** `_.map(list, (dep, index) => ({ ...dep, index }))`. */
  function Numbered(s: seq<Entry>): (r: seq<Departure>)
    ensures Entries(r) == s
    ensures forall k :: 0 <= k < |r| ==> r[k].index == k
  {
    var r := seq(|s|, k requires 0 <= k < |s| => Departure(s[k], k));
    assert Entries(r) == s;
    r
  }

  /** The departure list of the handlers: merge, order, number. */
  function BuildDepartures(records: seq<RawDeparture>, now: int): seq<Departure> {
    Numbered(OrderByTime(Merged(records, now)))
  }

  lemma {:induction false} InsertElements(x: Entry, t: seq<Entry>)
    ensures |Insert(x, t)| == |t| + 1
    ensures multiset(Insert(x, t)) == multiset(t) + multiset{x}
  {
    if t != [] && !Before(x, t[0]) {
      InsertElements(x, t[1..]);
      assert t == [t[0]] + t[1..];
    }
  }

  lemma {:induction false} InsertSorted(x: Entry, t: seq<Entry>)
    requires Sorted(t)
    ensures Sorted(Insert(x, t))
  {
    if t != [] && !Before(x, t[0]) {
      InsertSorted(x, t[1..]);
      InsertElements(x, t[1..]);
      var r := Insert(x, t[1..]);
      forall y | y in r ensures Before(t[0], y) {
        assert y in multiset(r);
        if y != x {
          assert y in t[1..];
        }
      }
    }
  }

  /** `x` goes in front of every entry with its sort key, and nothing else,
      so the entries of each sort key keep their relative order. */
  lemma {:induction false} InsertStable(x: Entry, t: seq<Entry>, k: SortKey)
    ensures WithKey(Insert(x, t), SortKeyOf, k) ==
      (if SortKeyOf(x) == k then [x] else []) + WithKey(t, SortKeyOf, k)
    decreases |t|, 1
  {
    if t == [] {
      WithKeyCons(x, [], SortKeyOf, k);
      assert [x] + [] == [x];
    } else if Before(x, t[0]) {
      WithKeyCons(x, t, SortKeyOf, k);
    } else {
      InsertPassed(x, t, k);
    }
  }

  /** `x` is inserted after `t[0]`, whose sort key therefore differs from `x`'s. */
  lemma {:induction false} InsertPassed(x: Entry, t: seq<Entry>, k: SortKey)
    requires t != [] && !Before(x, t[0])
    ensures WithKey(Insert(x, t), SortKeyOf, k) ==
      (if SortKeyOf(x) == k then [x] else []) + WithKey(t, SortKeyOf, k)
    decreases |t|, 0
  {
    var rest := Insert(x, t[1..]);
    var w := WithKey(t[1..], SortKeyOf, k);
    var here := if SortKeyOf(t[0]) == k then [t[0]] else [];
    var mine := if SortKeyOf(x) == k then [x] else [];
    assert SortKeyOf(t[0]) != SortKeyOf(x);
    assert WithKey(rest, SortKeyOf, k) == mine + w by {
      InsertStable(x, t[1..], k);
    }
    assert WithKey(Insert(x, t), SortKeyOf, k) == here + WithKey(rest, SortKeyOf, k) by {
      assert Insert(x, t) == [t[0]] + rest;
      WithKeyCons(t[0], rest, SortKeyOf, k);
    }
    assert WithKey(t, SortKeyOf, k) == here + w by {
      assert t == [t[0]] + t[1..];
      WithKeyCons(t[0], t[1..], SortKeyOf, k);
    }
    if here == [] {
      assert here + (mine + w) == mine + w;
      assert here + w == w;
    } else {
      assert mine == [];
      assert mine + w == w;
      assert mine + (here + w) == here + w;
    }
  }

  /** Every element of `Insert(x, t)` is `x` or an element of `t`. */
  lemma {:induction false} InsertMembers(x: Entry, t: seq<Entry>)
    ensures forall y :: y in Insert(x, t) ==> y == x || y in t
  {
    if t != [] && !Before(x, t[0]) {
      InsertMembers(x, t[1..]);
      assert Insert(x, t) == [t[0]] + Insert(x, t[1..]);
    }
  }

  lemma {:induction false} InsertDistinct(x: Entry, t: seq<Entry>)
    requires DistinctKeys(t, EntryKey) && !HasKey(t, EntryKey, EntryKey(x))
    ensures DistinctKeys(Insert(x, t), EntryKey)
  {
    if t == [] {
      assert Insert(x, t) == [x] + [];
      DistinctCons(x, [], EntryKey);
    } else if Before(x, t[0]) {
      DistinctCons(x, t, EntryKey);
    } else {
      var r := Insert(x, t[1..]);
      assert DistinctKeys(t[1..], EntryKey) by {
        forall a, b | 0 <= a < b < |t[1..]|
          ensures EntryKey(t[1..][a]) != EntryKey(t[1..][b])
        {
          assert t[1..][a] == t[a + 1] && t[1..][b] == t[b + 1];
        }
      }
      assert !HasKey(t[1..], EntryKey, EntryKey(x)) by {
        forall a | 0 <= a < |t[1..]| ensures EntryKey(t[1..][a]) != EntryKey(x) {
          assert t[1..][a] == t[a + 1];
        }
      }
      assert DistinctKeys(r, EntryKey) by {
        InsertDistinct(x, t[1..]);
      }
      assert !HasKey(r, EntryKey, EntryKey(t[0])) by {
        InsertMembers(x, t[1..]);
        forall c | 0 <= c < |r| ensures EntryKey(r[c]) != EntryKey(t[0]) {
          assert r[c] in r;
          if r[c] != x {
            var d :| 0 <= d < |t[1..]| && t[1..][d] == r[c];
            assert t[d + 1] == r[c];
          }
        }
      }
      DistinctCons(t[0], r, EntryKey);
    }
  }

  /** `OrderByTime` returns a permutation of its input. */
  lemma {:induction false} OrderByTimePermutation(s: seq<Entry>)
    ensures multiset(OrderByTime(s)) == multiset(s)
    ensures |OrderByTime(s)| == |s|
  {
    if s != [] {
      OrderByTimePermutation(s[1..]);
      InsertElements(s[0], OrderByTime(s[1..]));
      assert s == [s[0]] + s[1..];
    }
  }

  /** `OrderByTime` returns a sorted list. */
  lemma {:induction false} OrderByTimeSorted(s: seq<Entry>)
    ensures Sorted(OrderByTime(s))
  {
    if s != [] {
      OrderByTimeSorted(s[1..]);
      InsertSorted(s[0], OrderByTime(s[1..]));
    }
  }

  /** `OrderByTime` keeps the relative order of entries with equal sort keys. */
  lemma {:induction false} OrderByTimeStable(s: seq<Entry>, k: SortKey)
    ensures WithKey(OrderByTime(s), SortKeyOf, k) == WithKey(s, SortKeyOf, k)
  {
    if s != [] {
      OrderByTimeStable(s[1..], k);
      InsertStable(s[0], OrderByTime(s[1..]), k);
      WithKeyCons(s[0], s[1..], SortKeyOf, k);
      assert s == [s[0]] + s[1..];
    }
  }

  /** Sorting keeps the merge keys pairwise distinct. */
  lemma {:induction false} OrderByTimeDistinct(s: seq<Entry>)
    requires DistinctKeys(s, EntryKey)
    ensures DistinctKeys(OrderByTime(s), EntryKey)
  {
    if s != [] {
      assert DistinctKeys(s[1..], EntryKey) by {
        forall a, b | 0 <= a < b < |s[1..]|
          ensures EntryKey(s[1..][a]) != EntryKey(s[1..][b])
        {
          assert s[1..][a] == s[a + 1] && s[1..][b] == s[b + 1];
        }
      }
      OrderByTimeDistinct(s[1..]);
      OrderByTimePermutation(s[1..]);
      var t := OrderByTime(s[1..]);
      forall a | 0 <= a < |t| ensures EntryKey(t[a]) != EntryKey(s[0]) {
        assert t[a] in multiset(s[1..]);
        var c :| 0 <= c < |s[1..]| && s[1..][c] == t[a];
        assert s[c + 1] == t[a];
      }
      InsertDistinct(s[0], t);
    }
  }

  /** The handlers' list is numbered 0..n-1, no longer than the board, and
      empty only when the board has no records. */
  lemma {:induction false} BuildDeparturesShape(records: seq<RawDeparture>, now: int)
    ensures var r := BuildDepartures(records, now);
      && |r| <= |records|
      && (|r| == 0 <==> records == [])
      && (forall k :: 0 <= k < |r| ==> r[k].index == k)
  {
    var m := Merged(records, now);
    MergedProperties(records, now);
    OrderByTimePermutation(m);
    if records != [] {
      assert HasKey(records, KeyOf, KeyOf(records[0]));
    }
  }

  /** The handlers' list is sorted by (timeLeft, nextStop), null last, and
      entries with equal sort keys keep the order the merge gave them. */
  lemma {:induction false} BuildDeparturesOrdered(records: seq<RawDeparture>, now: int)
    ensures var r := BuildDepartures(records, now);
      && (forall i, j :: 0 <= i < j < |r| ==> Before(r[i].entry, r[j].entry))
      && (forall sk :: WithKey(Entries(r), SortKeyOf, sk) == WithKey(Merged(records, now), SortKeyOf, sk))
  {
    var m := Merged(records, now);
    assert Entries(BuildDepartures(records, now)) == OrderByTime(m);
    OrderByTimeSorted(m);
    forall sk ensures WithKey(OrderByTime(m), SortKeyOf, sk) == WithKey(m, SortKeyOf, sk) {
      OrderByTimeStable(m, sk);
    }
  }

  /** A permutation has the same merge keys. */
  lemma {:induction false} PermutedKeys(o: seq<Entry>, m: seq<Entry>, key: Key)
    requires multiset(o) == multiset(m)
    ensures HasKey(o, EntryKey, key) <==> HasKey(m, EntryKey, key)
  {
    if HasKey(o, EntryKey, key) {
      var a :| 0 <= a < |o| && EntryKey(o[a]) == key;
      assert o[a] in multiset(m);
      var c :| 0 <= c < |m| && m[c] == o[a];
    }
    if HasKey(m, EntryKey, key) {
      var a :| 0 <= a < |m| && EntryKey(m[a]) == key;
      assert m[a] in multiset(o);
      var c :| 0 <= c < |o| && o[c] == m[a];
    }
  }

  /** Every entry of a permutation of the merge is one the merge built. */
  lemma {:induction false} PermutedCorrect(records: seq<RawDeparture>, o: seq<Entry>, m: seq<Entry>, now: int)
    requires MergeCorrect(records, m, now) && multiset(o) == multiset(m)
    ensures forall k :: 0 <= k < |o| ==> EntryCorrect(records, o[k], now)
  {
    forall k | 0 <= k < |o| ensures EntryCorrect(records, o[k], now) {
      assert o[k] in multiset(m);
      var c :| 0 <= c < |m| && m[c] == o[k];
    }
  }

  /** The handlers' list has exactly one entry per (name, direction) of the
      board, each built from that key's records as `Expected` says. */
  lemma {:induction false} BuildDeparturesEntries(records: seq<RawDeparture>, now: int)
    ensures var r := BuildDepartures(records, now);
      && (forall i, j :: 0 <= i < j < |r| ==> EntryKey(r[i].entry) != EntryKey(r[j].entry))
      && (forall key :: HasKey(Entries(r), EntryKey, key) <==> HasKey(records, KeyOf, key))
      && (forall k :: 0 <= k < |r| ==> EntryCorrect(records, r[k].entry, now))
  {
    var m := Merged(records, now);
    var o := OrderByTime(m);
    assert Entries(BuildDepartures(records, now)) == o;
    MergedProperties(records, now);
    MergedSpec(records, now);
    OrderByTimePermutation(m);
    OrderByTimeDistinct(m);
    PermutedCorrect(records, o, m, now);
    forall key ensures HasKey(o, EntryKey, key) <==> HasKey(records, KeyOf, key) {
      PermutedKeys(o, m, key);
    }
  }
}
