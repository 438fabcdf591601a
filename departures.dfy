/**
 * The departure merge of the `/departures` handlers (src/routes/vasttrafik.js
 * and its older copy in src/app.js): upstream records are walked in order,
 * one entry is kept per (name, direction), the next same-key departure is
 * attached as `nextStop`, the list is ordered by (timeLeft, nextStop) and
 * numbered.
 *
 * Times are whole minutes. `now` is the reference minute of the board
 * (its server date and time, or the local clock when those are missing).
 */
module Departures {
  import opened Wrappers
  import opened Seqs

  /** One `Departure` element of the upstream board. `time` and `rtTime` are the
      scheduled and realtime minutes of `date time` and `date rtTime`; every
      other field of the record is carried in `fields`. */
  datatype RawDeparture = RawDeparture(
    name: string,
    direction: string,
    time: int,
    rtTime: Option<int>,
    fields: map<string, string>)

  /** The merge key: `{ name, direction }` as matched by `_.findIndex`. */
  type Key = (string, string)

  function KeyOf(r: RawDeparture): Key {
    (r.name, r.direction)
  }

  /** A merged entry: the fields of its primary record, the clamped minutes
      until that departure and the minutes until the next one (null when none). */
  datatype Entry = Entry(item: RawDeparture, timeLeft: int, nextStop: Option<int>)

  function EntryKey(e: Entry): Key {
    KeyOf(e.item)
  }

  /** The primary records of a list of entries. */
  function Items(m: seq<Entry>): (r: seq<RawDeparture>)
    ensures |r| == |m|
    ensures forall j :: 0 <= j < |m| ==> r[j] == m[j].item
  {
    seq(|m|, j requires 0 <= j < |m| => m[j].item)
  }

  /** The effective departure minute: `rtTime` when present, else `time`. */
  function Effective(r: RawDeparture): int {
    if r.rtTime.Some? then r.rtTime.value else r.time
  }

  /** Minutes from `now` until the record departs; negative once it has left. */
  function Offset(r: RawDeparture, now: int): int {
    Effective(r) - now
  }

  /** `(timeLeft <= 0) ? 0 : timeLeft`. */
  function Clamp(t: int): int {
    if t <= 0 then 0 else t
  }

  /** JavaScript truthiness of a `nextStop` value: null and 0 are falsy. */
  predicate Truthy(ns: Option<int>) {
    ns.Some? && ns.value != 0
  }

  /** One turn of the merge loop on the entries collected so far. */
  function Step(acc: seq<Entry>, item: RawDeparture, now: int): seq<Entry> {
    var i := FindIndex(acc, EntryKey, KeyOf(item));
    var t := Offset(item, now);
    if i != -1 && !Truthy(acc[i].nextStop) then acc[i := acc[i].(nextStop := Some(t))]
    else if i == -1 then acc + [Entry(item, Clamp(t), None)]
    else acc
  }

  /** The entries the merge loop holds after walking `records`. */
  function Merged(records: seq<RawDeparture>, now: int): seq<Entry> {
    if records == [] then []
    else Step(Merged(records[..|records| - 1], now), records[|records| - 1], now)
  }

  /** The merge loop of `getDepartures`, updating its list in place. */
  method MergeDepartures(records: seq<RawDeparture>, now: int) returns (merged: seq<Entry>)
    ensures merged == Merged(records, now)
    ensures |merged| <= |records|
    ensures DistinctKeys(merged, EntryKey)
    ensures forall j :: 0 <= j < |merged| ==> merged[j].timeLeft >= 0
  {
    merged := [];
    var i := 0;
    while i < |records|
      invariant 0 <= i <= |records|
      invariant merged == Merged(records[..i], now)
    {
      var item := records[i];
      var findIndex := FindIndex(merged, EntryKey, KeyOf(item));
      var timeLeft := Offset(item, now);
      if findIndex != -1 && !Truthy(merged[findIndex].nextStop) {
        merged := merged[findIndex := merged[findIndex].(nextStop := Some(timeLeft))];
      } else if findIndex == -1 {
        merged := merged + [Entry(item, if timeLeft <= 0 then 0 else timeLeft, None)];
      }
      assert records[..i + 1][..i] == records[..i];
      i := i + 1;
    }
    assert records[..|records|] == records;
    MergedProperties(records, now);
  }

  /**
   * Reference definition of `nextStop` from the later records of a key:
   * null when there are none, else the first non-zero offset among them,
   * or 0 when every one of them is 0.
   */
  function NextStopOf(later: seq<RawDeparture>, now: int): Option<int> {
    if later == [] then None
    else if Offset(later[0], now) != 0 || |later| == 1 then Some(Offset(later[0], now))
    else NextStopOf(later[1..], now)
  }

  /** The entry the merge should produce for key `k`, from the records of that key. */
  function Expected(records: seq<RawDeparture>, k: Key, now: int): Entry
    requires |WithKey(records, KeyOf, k)| > 0
  {
    var group := WithKey(records, KeyOf, k);
    Entry(group[0], Clamp(Offset(group[0], now)), NextStopOf(group[1..], now))
  }

  /** A later record overwrites `nextStop` exactly when it is still falsy. */
  lemma {:induction false} NextStopSnoc(later: seq<RawDeparture>, x: RawDeparture, now: int)
    ensures NextStopOf(later + [x], now) ==
      if Truthy(NextStopOf(later, now)) then NextStopOf(later, now) else Some(Offset(x, now))
  {
    if later != [] {
      assert (later + [x])[0] == later[0];
      assert (later + [x])[1..] == later[1..] + [x];
      if Offset(later[0], now) == 0 && |later| > 1 {
        NextStopSnoc(later[1..], x, now);
      }
    } else {
      assert later + [x] == [x];
    }
  }

  lemma {:induction false} WithKeyEmpty(s: seq<RawDeparture>, k: Key)
    requires !HasKey(s, KeyOf, k)
    ensures WithKey(s, KeyOf, k) == []
  {
    if s != [] {
      assert KeyOf(s[0]) != k;
      assert !HasKey(s[1..], KeyOf, k) by {
        forall i | 0 <= i < |s[1..]| ensures KeyOf(s[1..][i]) != k {
          assert s[1..][i] == s[i + 1];
        }
      }
      WithKeyEmpty(s[1..], k);
    }
  }

  lemma {:induction false} ItemsKeys(m: seq<Entry>, k: Key)
    ensures HasKey(m, EntryKey, k) <==> HasKey(Items(m), KeyOf, k)
  {
    if HasKey(m, EntryKey, k) {
      var j :| 0 <= j < |m| && EntryKey(m[j]) == k;
      assert KeyOf(Items(m)[j]) == k;
    }
    if HasKey(Items(m), KeyOf, k) {
      var j :| 0 <= j < |m| && KeyOf(Items(m)[j]) == k;
      assert EntryKey(m[j]) == k;
    }
  }

  /** `m` holds, in upstream order, the first record of every key of
      `records`, each with the `timeLeft` and `nextStop` of `Expected`. */
  predicate MergeCorrect(records: seq<RawDeparture>, m: seq<Entry>, now: int) {
    && Items(m) == UniqBy(records, KeyOf)
    && forall j :: 0 <= j < |m| ==> EntryCorrect(records, m[j], now)
  }

  /** `e` is the entry `Expected` builds from the records of its key. */
  predicate EntryCorrect(records: seq<RawDeparture>, e: Entry, now: int) {
    |WithKey(records, KeyOf, EntryKey(e))| > 0 && e == Expected(records, EntryKey(e), now)
  }

  /** An entry of another key is not affected by a later record. */
  lemma {:induction false} KeepOther(init: seq<RawDeparture>, x: RawDeparture, e: Entry, now: int)
    requires EntryCorrect(init, e, now) && EntryKey(e) != KeyOf(x)
    ensures EntryCorrect(init + [x], e, now)
  {
    WithKeySnoc(init, x, KeyOf, EntryKey(e));
    assert WithKey(init + [x], KeyOf, EntryKey(e)) == WithKey(init, KeyOf, EntryKey(e));
  }

  /** The first record of a key makes an entry with a null `nextStop`. */
  lemma {:induction false} NewEntry(init: seq<RawDeparture>, x: RawDeparture, now: int)
    requires !HasKey(init, KeyOf, KeyOf(x))
    ensures EntryCorrect(init + [x], Entry(x, Clamp(Offset(x, now)), None), now)
  {
    WithKeySnoc(init, x, KeyOf, KeyOf(x));
    WithKeyEmpty(init, KeyOf(x));
    assert WithKey(init + [x], KeyOf, KeyOf(x)) == [x];
    assert [x][1..] == [];
  }

  /** A later record of a key sets its `nextStop` while that is falsy. */
  lemma {:induction false} UpdateEntry(init: seq<RawDeparture>, x: RawDeparture, e: Entry, now: int)
    requires EntryCorrect(init, e, now) && EntryKey(e) == KeyOf(x)
    ensures EntryCorrect(init + [x],
      if Truthy(e.nextStop) then e else e.(nextStop := Some(Offset(x, now))), now)
  {
    var g := WithKey(init, KeyOf, KeyOf(x));
    WithKeySnoc(init, x, KeyOf, KeyOf(x));
    assert WithKey(init + [x], KeyOf, KeyOf(x)) == g + [x];
    assert (g + [x])[0] == g[0];
    assert (g + [x])[1..] == g[1..] + [x];
    NextStopSnoc(g[1..], x, now);
  }

  /** One turn of the loop keeps the primary records equal to `UniqBy`. */
  lemma {:induction false} StepItems(init: seq<RawDeparture>, acc: seq<Entry>, x: RawDeparture, now: int)
    requires Items(acc) == UniqBy(init, KeyOf)
    ensures Items(Step(acc, x, now)) == UniqBy(init + [x], KeyOf)
  {
    var records := init + [x];
    assert records[..|records| - 1] == init;
    UniqByKeys(init, KeyOf);
    ItemsKeys(acc, KeyOf(x));
    var m := Step(acc, x, now);
    if FindIndex(acc, EntryKey, KeyOf(x)) == -1 {
      assert m == acc + [Entry(x, Clamp(Offset(x, now)), None)];
      assert Items(m) == Items(acc) + [x];
    } else {
      assert Items(m) == Items(acc);
    }
  }

  /** A record with a new key appends its entry. */
  lemma {:induction false} StepNewKey(init: seq<RawDeparture>, acc: seq<Entry>, x: RawDeparture, now: int)
    requires MergeCorrect(init, acc, now)
    requires FindIndex(acc, EntryKey, KeyOf(x)) == -1
    ensures MergeCorrect(init + [x], Step(acc, x, now), now)
  {
    StepItems(init, acc, x, now);
    UniqByKeys(init, KeyOf);
    ItemsKeys(acc, KeyOf(x));
    var m := Step(acc, x, now);
    assert m == acc + [Entry(x, Clamp(Offset(x, now)), None)];
    forall j | 0 <= j < |m| ensures EntryCorrect(init + [x], m[j], now) {
      if j < |acc| {
        assert m[j] == acc[j];
        KeepOther(init, x, acc[j], now);
      } else {
        NewEntry(init, x, now);
      }
    }
  }

  /** A record with a known key can only set that key's `nextStop`. */
  lemma {:induction false} StepKnownKey(init: seq<RawDeparture>, acc: seq<Entry>, x: RawDeparture, now: int)
    requires MergeCorrect(init, acc, now)
    requires FindIndex(acc, EntryKey, KeyOf(x)) != -1
    ensures MergeCorrect(init + [x], Step(acc, x, now), now)
  {
    StepItems(init, acc, x, now);
    var m := Step(acc, x, now);
    var i := FindIndex(acc, EntryKey, KeyOf(x));
    var u := UniqBy(init, KeyOf);
    UniqByDistinct(init, KeyOf);
    assert EntryKey(acc[i]) == KeyOf(x);
    forall j | 0 <= j < |m| ensures EntryCorrect(init + [x], m[j], now) {
      if j != i {
        assert EntryKey(acc[j]) != KeyOf(x) by {
          assert u[i] == acc[i].item && u[j] == acc[j].item;
          assert KeyOf(u[i]) != KeyOf(u[j]);
        }
        assert m[j] == acc[j];
        KeepOther(init, x, acc[j], now);
      } else {
        assert m[i] == if Truthy(acc[i].nextStop) then acc[i]
          else acc[i].(nextStop := Some(Offset(x, now)));
        UpdateEntry(init, x, acc[i], now);
      }
    }
  }

  /** The merge loop computes exactly what `MergeCorrect` describes. */
  lemma {:induction false} MergedSpec(records: seq<RawDeparture>, now: int)
    ensures MergeCorrect(records, Merged(records, now), now)
  {
    if records != [] {
      var init, x := records[..|records| - 1], records[|records| - 1];
      assert records == init + [x];
      MergedSpec(init, now);
      if FindIndex(Merged(init, now), EntryKey, KeyOf(x)) == -1 {
        StepNewKey(init, Merged(init, now), x, now);
      } else {
        StepKnownKey(init, Merged(init, now), x, now);
      }
    }
  }

  /** What the merge promises on its own: one entry per key, in order of first
      appearance, each built from its key's first record, and no more entries
      than records. */
  lemma {:induction false} MergedProperties(records: seq<RawDeparture>, now: int)
    ensures |Merged(records, now)| <= |records|
    ensures DistinctKeys(Merged(records, now), EntryKey)
    ensures forall k :: HasKey(Merged(records, now), EntryKey, k) <==> HasKey(records, KeyOf, k)
    ensures forall j :: 0 <= j < |Merged(records, now)| ==>
      var e := Merged(records, now)[j];
      HasKey(records, KeyOf, EntryKey(e)) &&
      e.item == records[FindIndex(records, KeyOf, EntryKey(e))] &&
      e.timeLeft == Clamp(Offset(e.item, now)) && e.timeLeft >= 0
  {
    var m := Merged(records, now);
    var u := UniqBy(records, KeyOf);
    MergedSpec(records, now);
    UniqByKeys(records, KeyOf);
    UniqByDistinct(records, KeyOf);
    UniqByFirsts(records, KeyOf);
    UniqByLength(records);
    forall a, b | 0 <= a < b < |m| ensures EntryKey(m[a]) != EntryKey(m[b]) {
      assert KeyOf(u[a]) != KeyOf(u[b]);
    }
    forall k ensures HasKey(m, EntryKey, k) <==> HasKey(records, KeyOf, k) {
      ItemsKeys(m, k);
    }
    forall j | 0 <= j < |m|
      ensures HasKey(records, KeyOf, EntryKey(m[j]))
      ensures m[j].item == records[FindIndex(records, KeyOf, EntryKey(m[j]))]
    {
      assert m[j].item == u[j];
    }
  }

  lemma {:induction false} UniqByLength(s: seq<RawDeparture>)
    ensures |UniqBy(s, KeyOf)| <= |s|
  {
    if s != [] {
      UniqByLength(s[..|s| - 1]);
    }
  }
}
