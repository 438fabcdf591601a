/**
 * Worked inputs for the merge: what the loop makes of a few small boards.
 */
module DepartureExamples {
  import opened Wrappers
  import opened Seqs
  import opened Departures

  function Rec(name: string, direction: string, time: int): RawDeparture {
    RawDeparture(name, direction, time, None, map[])
  }

  /** Three departures of one line and direction: the first is the entry,
      the second its `nextStop`, the third is dropped. */
  lemma {:induction false} ThirdRecordDropped()
    ensures var rs := [Rec("16", "Bergsjön", 105), Rec("16", "Bergsjön", 120), Rec("16", "Bergsjön", 135)];
      Merged(rs, 100) == [Entry(rs[0], 5, Some(20))]
  {
    var rs := [Rec("16", "Bergsjön", 105), Rec("16", "Bergsjön", 120), Rec("16", "Bergsjön", 135)];
    assert rs[..1] == [rs[0]] && rs[..2] == [rs[0], rs[1]] && rs[..0] == [];
    assert Merged(rs[..1], 100) == [Entry(rs[0], 5, None)];
    assert FindIndex([Entry(rs[0], 5, None)], EntryKey, KeyOf(rs[1])) == 0;
    assert Merged(rs[..2], 100) == [Entry(rs[0], 5, Some(20))];
    assert FindIndex([Entry(rs[0], 5, Some(20))], EntryKey, KeyOf(rs[2])) == 0;
  }

  /** A realtime estimate three minutes in the past gives `timeLeft` 0,
      and a realtime estimate wins over the scheduled time. */
  lemma {:induction false} PastDepartureClamped()
    ensures var r := RawDeparture("5", "Torp", 110, Some(97), map[]);
      Merged([r], 100) == [Entry(r, 0, None)]
  {
    var r := RawDeparture("5", "Torp", 110, Some(97), map[]);
    assert [r][..0] == [];
  }

  /** A `nextStop` of 0 is falsy, so a third departure replaces it. */
  lemma {:induction false} ZeroNextStopReplaced()
    ensures var rs := [Rec("3", "Marklandsgatan", 100), Rec("3", "Marklandsgatan", 100), Rec("3", "Marklandsgatan", 109)];
      Merged(rs, 100) == [Entry(rs[0], 0, Some(9))]
  {
    var rs := [Rec("3", "Marklandsgatan", 100), Rec("3", "Marklandsgatan", 100), Rec("3", "Marklandsgatan", 109)];
    assert rs[..1] == [rs[0]] && rs[..2] == [rs[0], rs[1]] && rs[..0] == [];
    assert Merged(rs[..1], 100) == [Entry(rs[0], 0, None)];
    assert FindIndex([Entry(rs[0], 0, None)], EntryKey, KeyOf(rs[1])) == 0;
    assert Merged(rs[..2], 100) == [Entry(rs[0], 0, Some(0))];
    assert FindIndex([Entry(rs[0], 0, Some(0))], EntryKey, KeyOf(rs[2])) == 0;
  }

  /** Departures reported out of order are not swapped: `nextStop` may be
      smaller than `timeLeft`, and it is not clamped. */
  lemma {:induction false} OutOfOrderKept()
    ensures var rs := [Rec("6", "Kortedala", 110), Rec("6", "Kortedala", 98)];
      Merged(rs, 100) == [Entry(rs[0], 10, Some(-2))]
  {
    var rs := [Rec("6", "Kortedala", 110), Rec("6", "Kortedala", 98)];
    assert rs[..1] == [rs[0]] && rs[..0] == [];
  }
}
