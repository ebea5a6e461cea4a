/**
 * The fixed grid of one-hour slots offered for the nordic bath and sauna:
 * sixteen slots from 10h to 23h, then 0h and 1h of the following night.
 */
module SlotGrid {

  /** The grid in display order; the last slot ends at 2h, when water treatment starts. */
  const TimeSlots: seq<int> := [10, 11, 12, 13, 14, 15, 16, 17, 18, 19, 20, 21, 22, 23, 0, 1]

  /** The hours that start a slot of the grid. */
  predicate IsGridHour(h: int) {
    10 <= h <= 23 || h == 0 || h == 1
  }

  /** The grid holds sixteen distinct hours of the day, exactly the grid hours, each one
      hour after its predecessor on a 24-hour clock. */
  lemma TimeSlotsShape()
    ensures |TimeSlots| == 16
    ensures forall i, j :: 0 <= i < j < |TimeSlots| ==> TimeSlots[i] != TimeSlots[j]
    ensures forall i :: 0 <= i < |TimeSlots| ==> 0 <= TimeSlots[i] < 24 && TimeSlots[i] == (10 + i) % 24
    ensures forall h :: h in TimeSlots <==> IsGridHour(h)
  {
  }

  /**
   * The hour at which the slot starting at `h` ends, as the slot labels show it:
   * 23h ends at 0h, 1h ends at 2h, and any other hour ends one hour later.
   */
  function SlotEndHour(h: int): (e: int)
    ensures 0 <= h < 24 ==> e == (h + 1) % 24
    ensures !(0 <= h < 24) ==> e == h + 1
    ensures IsGridHour(h) ==> 0 <= e < 24
  {
    if h == 23 then 0 else if h == 1 then 2 else h + 1
  }

  /** Consecutive grid slots touch: each slot ends where the next one starts, and the
      last slot ends at 2h. */
  lemma GridIsContiguous()
    ensures forall i :: 0 <= i < |TimeSlots| - 1 ==> SlotEndHour(TimeSlots[i]) == TimeSlots[i + 1]
    ensures SlotEndHour(TimeSlots[|TimeSlots| - 1]) == 2
  {
  }
}
