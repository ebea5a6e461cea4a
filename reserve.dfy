/**
 * The "Valider la sélection" handler: it turns the selection into one store reservation
 * whose start is the first selected hour and whose end is the last selected hour plus one,
 * both as "HH:00" times. It checks neither contiguity nor availability and does not wrap at
 * midnight.
 */
module Reserve {
  import opened Wrappers
  import opened HourText
  import opened SlotGrid
  import opened Selection

  /** The arguments handed to the reservation store: day, start time, end time. */
  datatype ReserveRequest = ReserveRequest(date: string, startTime: string, endTime: string)

  /** Nothing is sent without a date or with an empty selection. */
  function MergeSelection(date: Option<string>, slots: seq<int>): (r: Option<ReserveRequest>)
    ensures r.None? <==> date.None? || slots == []
    ensures r.Some? ==> r.value.date == date.value
  {
    if date.None? || |slots| == 0 then None
    else
      var startHour := slots[0];
      var endHour := slots[|slots| - 1] + 1;
      Some(ReserveRequest(date.value, HourTime(startHour), HourTime(endHour)))
  }

  /** The start time reads back as the first selected hour and the end time as the last
      selected hour plus one, for every hour the two-digit rendering covers. */
  lemma {:induction false} MergeRoundTrip(d: string, slots: seq<int>)
    requires slots != []
    requires 0 <= slots[0] < 100 && 0 <= slots[|slots| - 1] + 1 < 100
    ensures MergeSelection(Some(d), slots).Some?
    ensures ParseHourTime(MergeSelection(Some(d), slots).value.startTime) == Some(slots[0])
    ensures ParseHourTime(MergeSelection(Some(d), slots).value.endTime) == Some(slots[|slots| - 1] + 1)
  {
    HourTimeRoundTrip(slots[0]);
    HourTimeRoundTrip(slots[|slots| - 1] + 1);
  }

  /** The end time agrees with the end of the last slot as the grid labels show it for every
      grid hour except 23, whose reservation ends at "24:00" instead of "00:00". */
  lemma {:induction false} MergeEndVersusSlotEnd(d: string, slots: seq<int>)
    requires slots != [] && IsGridHour(slots[|slots| - 1])
    ensures var last := slots[|slots| - 1];
      (MergeSelection(Some(d), slots).value.endTime == HourTime(SlotEndHour(last))) <==> last != 23
  {
    var last := slots[|slots| - 1];
    HourTimeInjective(last + 1, SlotEndHour(last));
  }

  /** A selection ending at 23 is sent with end time "24:00". */
  lemma {:induction false} MergeEndsAt24(d: string, slots: seq<int>)
    requires slots != [] && slots[|slots| - 1] == 23
    ensures MergeSelection(Some(d), slots).value.endTime == "24:00"
  {
    HourTimeExamples();
  }

  /** Once the selection has been sorted, the reservation runs from the least selected hour to
      the greatest plus one, whatever the order of the clicks. */
  lemma {:induction false} MergeSorted(d: string, slots: seq<int>)
    requires slots != []
    ensures var r := MergeSelection(Some(d), SortAsc(slots));
      && r.Some?
      && r.value.startTime == HourTime(Least(slots))
      && r.value.endTime == HourTime(Greatest(slots) + 1)
  {
    SortAscEnds(slots);
    MergeFirstLast(d, SortAsc(slots), Least(slots), Greatest(slots));
  }

  /** A proof step of `MergeSorted`, not a separate property: it unfolds `MergeSelection` once
      for a selection whose first and last hours are named, so that the sorted selection's
      ends can be substituted without unfolding the sort. */
  lemma {:induction false} MergeFirstLast(d: string, slots: seq<int>, first: int, last: int)
    requires slots != [] && slots[0] == first && slots[|slots| - 1] == last
    ensures var r := MergeSelection(Some(d), slots);
      && r.Some?
      && r.value.startTime == HourTime(first)
      && r.value.endTime == HourTime(last + 1)
  {
  }

  /** Only the first and last hours matter: 10h and 12h, with the gap at 11h, are sent as
      one reservation from "10:00" to "13:00". */
  lemma {:induction false} MergeIgnoresGaps(d: string)
    ensures MergeSelection(Some(d), [10, 12]) == Some(ReserveRequest(d, "10:00", "13:00"))
  {
    HourTimeExamples();
  }

  /** Selecting 22h, 23h and 0h of the same night, in any click order, and sorting gives
      "00:00" to "24:00": the numeric sort puts the after-midnight hour first. */
  lemma {:induction false} MidnightSelectionSorted(d: string, clicks: seq<int>)
    requires multiset(clicks) == multiset{22, 23, 0}
    ensures var r := MergeSelection(Some(d), SortAsc(clicks));
      r.Some? && r.value.startTime == "00:00" && r.value.endTime == "24:00"
  {
    assert 0 in clicks && 23 in clicks by {
      assert 0 in multiset(clicks) && 23 in multiset(clicks);
    }
    var lo, hi := Least(clicks), Greatest(clicks);
    assert lo == 0 by {
      assert lo in multiset{22, 23, 0};
    }
    assert hi == 23 by {
      assert hi in multiset{22, 23, 0};
    }
    MergeSorted(d, clicks);
    HourTimeExamples();
  }
}
