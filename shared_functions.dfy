/** Helpers shared by the app and the companion (ssis/common/sharedFunctions.js). */
module SharedFunctions {

  /** The index (0 = Monday … 6 = Sunday) of the weekday whose `Date.getDay()` value is `day`
      (0 = Sunday … 6 = Saturday). */
  function CurrentDayIndex(day: int): (index: int)
    requires 0 <= day <= 6
    ensures 0 <= index <= 6
    ensures day == 0 ==> index == 6
    ensures day != 0 ==> index + 1 == day
  {
    if day == 0 then 6 else day - 1
  }

  /** The inverse mapping: the `getDay()` value of the weekday with the given index. */
  function DayOfIndex(index: int): (day: int)
    requires 0 <= index <= 6
    ensures 0 <= day <= 6
  {
    (index + 1) % 7
  }

  /** The mapping is a bijection on 0..6: every weekday index, and so every entry of the
      lunch day tables, is reached by exactly one `getDay()` value. */
  lemma CurrentDayIndexBijective()
    ensures forall d :: 0 <= d <= 6 ==> DayOfIndex(CurrentDayIndex(d)) == d
    ensures forall i :: 0 <= i <= 6 ==> CurrentDayIndex(DayOfIndex(i)) == i
    ensures forall d, e :: 0 <= d <= 6 && 0 <= e <= 6 && CurrentDayIndex(d) == CurrentDayIndex(e) ==> d == e
  {
  }
}
