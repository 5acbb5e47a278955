/**
 * The burst window: a range of minutes of the hour during which dialing is
 * allowed. It may wrap past the top of the hour (58 to 2, say).
 */
module Window {
  import opened Clock

  /** Start and end minute of the burst. Either may be any integer; both are read modulo 60. */
  datatype BurstWindow = BurstWindow(startMinute: int, endMinute: int) {

    /**
     * `BurstWindow.contains`: a window whose ends meet covers the whole hour;
     * otherwise the window runs, both ends included, from the start minute
     * to the end minute, wrapping past minute 59 when the end comes first.
     */
    predicate Contains(minute: int) {
      var m := minute % 60;
      var start := startMinute % 60;
      var end := endMinute % 60;
      if start == end then true
      else if start < end then start <= m <= end
      else m >= start || m <= end
    }
  }

  /** Ends that meet modulo 60 make every minute, of any sign or size, active. */
  lemma ContainsWholeHour(w: BurstWindow, minute: int)
    requires w.startMinute % 60 == w.endMinute % 60
    ensures w.Contains(minute)
  {
  }

  /** A window whose start comes before its end is a plain range, inclusive at both ends. */
  lemma ContainsPlainRange(w: BurstWindow, minute: int)
    requires w.startMinute % 60 < w.endMinute % 60
    ensures w.Contains(minute) <==> w.startMinute % 60 <= minute % 60 <= w.endMinute % 60
  {
  }

  /** A window whose start comes after its end wraps past the top of the hour. */
  lemma ContainsWrapped(w: BurstWindow, minute: int)
    requires w.startMinute % 60 > w.endMinute % 60
    ensures w.Contains(minute) <==> minute % 60 >= w.startMinute % 60 || minute % 60 <= w.endMinute % 60
  {
  }

  /**
   * An independent description of a window whose ends differ: the minutes
   * it covers are those reached by walking forward around the clock face
   * from the start minute, up to and including the end minute.
   */
  lemma {:induction false} ContainsIsForwardArc(w: BurstWindow, minute: int)
    requires w.startMinute % 60 != w.endMinute % 60
    ensures w.Contains(minute) <==> (minute - w.startMinute) % 60 <= (w.endMinute - w.startMinute) % 60
  {
    ModDiff(minute, w.startMinute);
    ModDiff(w.endMinute, w.startMinute);
    var m, s, e := minute % 60, w.startMinute % 60, w.endMinute % 60;
    assert (m - s) % 60 == if m >= s then m - s else m - s + 60;
    assert (e - s) % 60 == if e >= s then e - s else e - s + 60;
  }

  /**
   * Membership does not change when the minute or either end of the window
   * moves by whole hours.
   */
  lemma {:induction false} ContainsShiftInvariant(w: BurstWindow, minute: int, i: int, j: int, k: int)
    ensures BurstWindow(w.startMinute + 60 * i, w.endMinute + 60 * j).Contains(minute + 60 * k)
        == w.Contains(minute)
  {
    ModShift(w.startMinute, i);
    ModShift(w.endMinute, j);
    ModShift(minute, k);
  }

  /** The window 58 to 2 holds minutes 59, 0 and 2, and not 3 or 57. */
  lemma WrappedWindowExample()
    ensures BurstWindow(58, 2).Contains(59)
    ensures BurstWindow(58, 2).Contains(0)
    ensures BurstWindow(58, 2).Contains(2)
    ensures !BurstWindow(58, 2).Contains(3)
    ensures !BurstWindow(58, 2).Contains(57)
  {
  }

  /** The window 10 to 20 holds exactly minutes 10 to 20. */
  lemma PlainWindowExample(minute: int)
    requires 0 <= minute < 60
    ensures BurstWindow(10, 20).Contains(minute) <==> 10 <= minute <= 20
  {
  }
}
