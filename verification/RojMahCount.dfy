/**
 Counting by Roj and Mah. Gatha days are not counted, so every Roj-and-Mah day has an index in one
 endless 360-day cycle: 360 * year + 30 * (mah - 1) + (roj - 1). The calendar decides its date.
 */
module RojMahCount {
  import opened Results
  import opened Engine

  const CYCLE_DAYS := 360

  function Index(year: int, mah: int, roj: int): int {
    CYCLE_DAYS * year + DAYS_PER_MONTH * (mah - 1) + (roj - 1)
  }

  function IndexYear(t: int): int {
    t / CYCLE_DAYS
  }

  function IndexMah(t: int): int {
    t % CYCLE_DAYS / DAYS_PER_MONTH + 1
  }

  function IndexRoj(t: int): int {
    t % CYCLE_DAYS % DAYS_PER_MONTH + 1
  }

  function DateOf(system: CalendarSystem, t: int): int {
    Navroze(system, IndexYear(t)) + t % CYCLE_DAYS
  }

  /** An index is a year, a Mah and a Roj, and only one of each. */
  lemma IndexParts(year: int, mah: int, roj: int)
    requires 1 <= mah <= 12 && 1 <= roj <= 30
    ensures IndexYear(Index(year, mah, roj)) == year
    ensures IndexMah(Index(year, mah, roj)) == mah
    ensures IndexRoj(Index(year, mah, roj)) == roj
  {
  }

  lemma IndexOfParts(t: int)
    ensures 1 <= IndexMah(t) <= 12 && 1 <= IndexRoj(t) <= 30
    ensures Index(IndexYear(t), IndexMah(t), IndexRoj(t)) == t
  {
  }

  /** The engine's date for a Roj and Mah is the date of its index. */
  lemma DateOfRojMah(system: CalendarSystem, year: int, mah: int, roj: int)
    requires 1 <= mah <= 12 && 1 <= roj <= 30
    ensures ParsiToGregorian(year, system, AskRojMah(mah, roj)) == Ok(DateOf(system, Index(year, mah, roj)))
  {
    hide Navroze;
    IndexParts(year, mah, roj);
    WritesOut(year, system, AskRojMah(mah, roj));
  }

  /** A date that is a Roj-and-Mah day reads back as that index. */
  lemma ReadsAsIndex(system: CalendarSystem, t: int)
    ensures GregorianToParsi(DateOf(system, t), system) == RojMah(IndexYear(t), IndexMah(t), IndexRoj(t))
  {
    hide GregorianToParsi, ParsiToGregorian, DateOf;
    IndexOfParts(t);
    DateOfRojMah(system, IndexYear(t), IndexMah(t), IndexRoj(t));
    ParsiRoundTrip(system, RojMah(IndexYear(t), IndexMah(t), IndexRoj(t)));
  }

  /** One step of the index is one day, or a few more over the Gatha days. */
  lemma OneStep(system: CalendarSystem, t: int)
    ensures DateOf(system, t) + 1 <= DateOf(system, t + 1) <= DateOf(system, t) + 7
  {
    hide Navroze, MaxGatha;
    YearLength(system, IndexYear(t));
  }

  /** Dates move on at least as fast as the index. */
  lemma {:induction false} DatesOutrunIndex(system: CalendarSystem, t1: int, t2: int)
    requires t1 <= t2
    ensures DateOf(system, t2) - DateOf(system, t1) >= t2 - t1
    decreases t2 - t1
  {
    if t1 < t2 {
      DatesOutrunIndex(system, t1, t2 - 1);
      OneStep(system, t2 - 1);
    }
  }

  /** Later indexes are later dates, and the other way round. */
  lemma DateOrder(system: CalendarSystem, t1: int, t2: int)
    ensures t1 < t2 <==> DateOf(system, t1) < DateOf(system, t2)
  {
    hide DateOf;
    if t1 < t2 {
      DatesOutrunIndex(system, t1, t2);
    } else {
      DatesOutrunIndex(system, t2, t1);
    }
  }
}
