/**
 Searches over the calendar: the next date a year-less day falls on, and the Navroze of a
 Gregorian year. Both scan a fixed handful of years; what those scans are enough for is proved here.
 */
module EngineSearch {
  import opened Results
  import opened Gregorian
  import opened Engine

  const OCCURRENCE_SCAN_YEARS := 5

  // --- nearest_occurrence ---

  /** A request that names a day of this calendar in some year. */
  predicate WellFormed(system: CalendarSystem, ask: DayRequest) {
    if ask.gatha.Some? then
      !(ask.mah.Some? && ask.roj.Some?) && 1 <= ask.gatha.value <= (if system == Fasli then 6 else 5)
    else
      ask.mah.Some? && ask.roj.Some? && 1 <= ask.mah.value <= 12 && 1 <= ask.roj.value <= 30
  }

  /** A Fasli cycle, by its Yazdegerdi year, that has a sixth Gatha. */
  predicate HasSixthGatha(year: int) {
    IsLeap(year + YZ_ERA_OFFSET + 1)
  }

  predicate NonLeapCentury(year: int) {
    year % 100 == 0 && year % 400 != 0
  }

  /** The two Fasli cycles just after the last leap cycle before a century that is not a leap year. */
  predicate InLeapGap(date: int) {
    var cycle := FasliCycleStartYear(date);
    NonLeapCentury(cycle + 4) || NonLeapCentury(cycle + 3)
  }

  /** Around a century that is not a leap year the gap is from 21 March four years before to 20 March two years before. */
  lemma LeapGapDates(century: int, date: int)
    requires NonLeapCentury(century)
    requires Date(century - 8, 3, 21) <= date < Date(century + 1, 3, 21)
    ensures InLeapGap(date) <==> Date(century - 4, 3, 21) <= date <= Date(century - 2, 3, 20)
  {
    hide FasliCycleStartYear, Date;
    var cycle := FasliCycleStartYear(date);
    FasliCycleContains(date);
    MarchOrder(century - 8, cycle + 1);
    MarchOrder(cycle, century + 1);
    MarchOrder(century - 4, cycle);
    MarchOrder(cycle, century - 4);
    MarchOrder(century - 2, cycle);
    MarchOrder(cycle + 1, century - 2);
    MarchOrder(cycle + 1, century - 4);
    DayBefore(century - 2);
    OnlyCentury(century, cycle + 4);
    OnlyCentury(century, cycle + 3);
  }

  lemma OnlyCentury(century: int, year: int)
    requires NonLeapCentury(century) && century - 100 < year < century + 100
    ensures NonLeapCentury(year) <==> year == century
  {
  }

  lemma MarchOrder(y1: int, y2: int)
    ensures y1 <= y2 ==> Date(y1, 3, 21) <= Date(y2, 3, 21)
    ensures y1 < y2 ==> Date(y1, 3, 21) < Date(y2, 3, 21)
    ensures y1 > y2 ==> Date(y1, 3, 21) > Date(y2, 3, 21)
  {
    hide Date;
    if y1 <= y2 {
      NavrozeApart(Fasli, y1 - YZ_ERA_OFFSET, y2 - YZ_ERA_OFFSET);
    } else {
      NavrozeApart(Fasli, y2 - YZ_ERA_OFFSET, y1 - YZ_ERA_OFFSET);
    }
  }

  lemma DayBefore(year: int)
    ensures Date(year, 3, 20) == Date(year, 3, 21) - 1
  {
  }

  /** For 2100: in the gap from 21 March 2096 to 20 March 2098, and on neither neighbouring day. */
  lemma LeapGapBefore2100()
    ensures InLeapGap(Date(2096, 3, 21)) && InLeapGap(Date(2098, 3, 20))
    ensures !InLeapGap(Date(2096, 3, 20)) && !InLeapGap(Date(2098, 3, 21))
  {
    hide Date, InLeapGap;
    var y := 2096;
    assert NonLeapCentury(y + 4);
    MarchOrder(y - 4, y);
    MarchOrder(y, y + 2);
    MarchOrder(y + 2, y + 5);
    DayBefore(y);
    DayBefore(y + 2);
    LeapGapDates(y + 4, Date(y, 3, 21));
    LeapGapDates(y + 4, Date(y + 2, 3, 20));
    LeapGapDates(y + 4, Date(y, 3, 20));
    LeapGapDates(y + 4, Date(y + 2, 3, 21));
  }

  /** The scan of `NearestOccurrence` reaches an answer. */
  predicate Findable(system: CalendarSystem, ask: DayRequest, reference: int) {
    WellFormed(system, ask) && !(ask.gatha == Some(6) && InLeapGap(reference))
  }

  /** A request names a day exactly if that day has a date in some year. */
  lemma WellFormedExactly(system: CalendarSystem, ask: DayRequest)
    ensures WellFormed(system, ask) <==> exists year :: ParsiToGregorian(year, system, ask).Ok?
  {
    if WellFormed(system, ask) {
      var year := 1393;
      LeapYear2024(year);
      assert ParsiToGregorian(year, system, ask).Ok?;
    }
  }

  lemma LeapYear2024(year: int)
    requires year == 1393
    ensures FasliMaxGatha(year + YZ_ERA_OFFSET) == 6
  {
  }

  /** `date` is the day asked for, in `year`. */
  predicate FallsOn(system: CalendarSystem, ask: DayRequest, year: int, date: int) {
    ParsiToGregorian(year, system, ask) == Ok(date)
  }

  /** A day falls inside its own year. */
  lemma FallsInYear(system: CalendarSystem, ask: DayRequest, year: int, date: int)
    requires FallsOn(system, ask, year, date)
    ensures Navroze(system, year) <= date < Navroze(system, year + 1)
    ensures WellFormed(system, ask)
  {
    hide Navroze;
    WritesOut(year, system, ask);
    YearLength(system, year);
  }

  /** The years before the reference's own have nothing left to offer. */
  lemma EarlierYearIsPast(system: CalendarSystem, ask: DayRequest, reference: int, year: int, date: int)
    requires FallsOn(system, ask, year, date) && year < GregorianToParsi(reference, system).year
    ensures date < reference
  {
    hide Navroze, FallsOn, WellFormed, GregorianToParsi;
    FallsInYear(system, ask, year, date);
    ReadsBack(reference, system);
    NavrozeApart(system, year + 1, GregorianToParsi(reference, system).year);
  }

  /** A later year's day is a later date. */
  lemma LaterYearLaterDate(system: CalendarSystem, ask: DayRequest, y1: int, d1: int, y2: int, d2: int)
    requires y1 < y2 && FallsOn(system, ask, y1, d1) && FallsOn(system, ask, y2, d2)
    ensures d1 < d2
  {
    hide Navroze, FallsOn, WellFormed;
    FallsInYear(system, ask, y1, d1);
    FallsInYear(system, ask, y2, d2);
    NavrozeApart(system, y1 + 1, y2);
  }

  /** Every day but the sixth Gatha comes every year; that one comes in the leap cycles only. */
  lemma ComesInYear(system: CalendarSystem, ask: DayRequest, year: int)
    requires WellFormed(system, ask)
    ensures (exists date :: FallsOn(system, ask, year, date)) <==>
            (ask.gatha == Some(6) ==> HasSixthGatha(year))
  {
    hide Navroze;
    WritesOut(year, system, ask);
    var r := ParsiToGregorian(year, system, ask);
    if r.Ok? {
      assert FallsOn(system, ask, year, r.value);
    }
  }

  predicate LeapWithinSix(cycle: int) {
    IsLeap(cycle + 1) || IsLeap(cycle + 2) || IsLeap(cycle + 3) ||
    IsLeap(cycle + 4) || IsLeap(cycle + 5) || IsLeap(cycle + 6)
  }

  /** A multiple of four is leap, or a century that is not. */
  lemma FourIsLeapOrCentury(y: int)
    requires y % 4 == 0
    ensures IsLeap(y) != NonLeapCentury(y)
  {
    Multiples(y);
  }

  lemma NotFourNotLeap(y: int)
    requires y % 4 != 0
    ensures !IsLeap(y) && !NonLeapCentury(y)
  {
    Multiples(y);
  }

  /** Four years from a multiple of four: only the first can be leap, and is unless it is a century that is not. */
  lemma FourYears(q: int)
    ensures IsLeap(4 * q) != NonLeapCentury(4 * q)
    ensures !IsLeap(4 * q + 1) && !IsLeap(4 * q + 2) && !IsLeap(4 * q + 3)
    ensures !NonLeapCentury(4 * q + 1) && !NonLeapCentury(4 * q + 2) && !NonLeapCentury(4 * q + 3)
  {
    hide IsLeap, NonLeapCentury;
    FourIsLeapOrCentury(4 * q);
    NotFourNotLeap(4 * q + 1);
    NotFourNotLeap(4 * q + 2);
    NotFourNotLeap(4 * q + 3);
  }

  /** Of two years four apart that are multiples of four, one is leap. */
  lemma TwoFoursOneLeap(q: int)
    ensures IsLeap(4 * q) || IsLeap(4 * q + 4)
  {
    assert (4 * q) % 100 == 0 ==> (4 * q + 4) % 100 == 4;
  }

  /** Six years without a leap year happen only around a century that is not one. */
  lemma SixYearsWithoutLeap(cycle: int)
    ensures LeapWithinSix(cycle) <==> !(NonLeapCentury(cycle + 4) || NonLeapCentury(cycle + 3))
  {
    hide IsLeap, NonLeapCentury;
    var q := cycle / 4;
    FourYears(q);
    FourYears(q + 1);
    TwoFoursOneLeap(q + 1);
    assert 4 * (q + 1) == 4 * q + 4;
    if cycle == 4 * q {
    } else if cycle == 4 * q + 1 {
    } else if cycle == 4 * q + 2 {
      FourYears(q + 2);
    } else {
      assert cycle == 4 * q + 3;
      FourYears(q + 2);
    }
  }

  /** When the sixth Gatha can be found among the scanned years. */
  lemma SixthGathaInReach(reference: int, current: int)
    requires current == FasliCycleStartYear(reference) - YZ_ERA_OFFSET
    ensures (exists y :: current <= y <= current + 5 && HasSixthGatha(y)) <==> !InLeapGap(reference)
  {
    hide IsLeap, NonLeapCentury, FasliCycleStartYear;
    SixYearsWithoutLeap(current + YZ_ERA_OFFSET);
    if LeapWithinSix(current + YZ_ERA_OFFSET) {
      assert HasSixthGatha(current) || HasSixthGatha(current + 1) || HasSixthGatha(current + 2) ||
             HasSixthGatha(current + 3) || HasSixthGatha(current + 4) || HasSixthGatha(current + 5);
    }
  }

  /** The scan finds something exactly when the request is findable. */
  lemma ScanReaches(system: CalendarSystem, ask: DayRequest, reference: int, current: int)
    requires current == GregorianToParsi(reference, system).year
    ensures (exists y, d :: current <= y <= current + OCCURRENCE_SCAN_YEARS && FallsOn(system, ask, y, d) && d >= reference)
            <==> Findable(system, ask, reference)
  {
    hide Navroze, FallsOn, HasSixthGatha, InLeapGap, FasliCycleStartYear;
    ReadsBack(reference, system);
    if WellFormed(system, ask) {
      if ask.gatha == Some(6) {
        SixthGathaInReach(reference, current);
        forall y | current <= y <= current + OCCURRENCE_SCAN_YEARS && HasSixthGatha(y)
          ensures exists d :: FallsOn(system, ask, y, d) && d >= reference
        {
          SixthGathaIsLast(ask, y);
          assert FallsOn(system, ask, y, Navroze(system, y + 1) - 1);
          NavrozeApart(system, current + 1, y + 1);
        }
        forall y, d | FallsOn(system, ask, y, d)
          ensures HasSixthGatha(y)
        {
          ComesInYear(system, ask, y);
        }
      } else {
        ComesInYear(system, ask, current + 1);
        var d :| FallsOn(system, ask, current + 1, d);
        FallsInYear(system, ask, current + 1, d);
      }
    } else {
      forall y, d | FallsOn(system, ask, y, d)
        ensures false
      {
        FallsInYear(system, ask, y, d);
      }
    }
  }

  /** The sixth Gatha is the last day of its cycle. */
  lemma SixthGathaIsLast(ask: DayRequest, year: int)
    requires WellFormed(Fasli, ask) && ask.gatha == Some(6) && HasSixthGatha(year)
    ensures FallsOn(Fasli, ask, year, Navroze(Fasli, year + 1) - 1)
  {
    WritesOut(year, Fasli, ask);
    YearLength(Fasli, year);
  }

  function Min(s: seq<int>): (m: int)
    requires s != []
    ensures m in s && forall x :: x in s ==> m <= x
  {
    if |s| == 1 then s[0]
    else
      var rest := Min(s[1..]);
      assert forall x :: x in s <==> x == s[0] || x in s[1..];
      if s[0] <= rest then s[0] else rest
  }

  /**
   The soonest date on or after `reference` that is the day asked for. The answer is the least over
   ALL years, not only the scanned ones; and there is an answer exactly when the day is findable.
   */
  method NearestOccurrence(system: CalendarSystem, ask: DayRequest, reference: int) returns (r: Result<int>)
    ensures r.Ok? <==> Findable(system, ask, reference)
    ensures r.Ok? ==> r.value >= reference && exists y :: FallsOn(system, ask, y, r.value)
    ensures r.Ok? ==> forall y, d :: FallsOn(system, ask, y, d) && d >= reference ==> r.value <= d
  {
    var current := GregorianToParsi(reference, system).year;
    var candidates: seq<int> := [];
    var year := current - 1;
    while year < current + OCCURRENCE_SCAN_YEARS + 1
      invariant current - 1 <= year <= current + OCCURRENCE_SCAN_YEARS + 1
      invariant forall d :: d in candidates <==>
        d >= reference && exists y :: current - 1 <= y < year && FallsOn(system, ask, y, d)
    {
      var candidate := ParsiToGregorian(year, system, ask);
      if candidate.Ok? && candidate.value >= reference {
        assert FallsOn(system, ask, year, candidate.value);
        candidates := candidates + [candidate.value];
      }
      year := year + 1;
    }
    ScanReaches(system, ask, reference, current);
    forall y, d | FallsOn(system, ask, y, d) && y < current
      ensures d < reference
    {
      EarlierYearIsPast(system, ask, reference, y, d);
    }
    if Findable(system, ask, reference) {
      var y, d :| current <= y < year && FallsOn(system, ask, y, d) && d >= reference;
      assert d in candidates;
    }
    if candidates == [] {
      return ValueError;
    }
    var least := Min(candidates);
    ghost var y0 :| current - 1 <= y0 < year && FallsOn(system, ask, y0, least);
    forall y, d | FallsOn(system, ask, y, d) && d >= reference
      ensures least <= d
    {
      if y < year {
        assert d in candidates;
      } else {
        LaterYearLaterDate(system, ask, y0, least, y, d);
      }
    }
    return Ok(least);
  }

  // --- get_navroze ---

  /** The Gregorian years whose Navroze the seven-offset scan reaches. */
  predicate ScanCovers(system: CalendarSystem, gregorianYear: int) {
    match system
    case Fasli => true
    case Shenshai => -3060 <= gregorianYear <= 7476
    case Kadmi => -3184 <= gregorianYear <= 7352
  }

  /** In these two years, each the first covered, Navroze comes on 1 January and again on 31 December. */
  predicate FirstCovered(system: CalendarSystem, gregorianYear: int) {
    (system == Shenshai && gregorianYear == -3060) || (system == Kadmi && gregorianYear == -3184)
  }

  lemma {:induction false} LeapYearsMonotone(p: int, q: int)
    requires p <= q
    ensures LeapYears(p) <= LeapYears(q)
    decreases q - p
  {
    if p < q {
      LeapYearsMonotone(p, q - 1);
      LeapYearsStep(q);
    }
  }

  /** Where the Navroze `k` years off the estimate falls in the Gregorian year. */
  function NavrozeDay(system: CalendarSystem, gregorianYear: int, k: int): int
    requires system != Fasli
  {
    (if system == Shenshai then 718 else 688) + 365 * k - LeapYears(gregorianYear - 1)
  }

  lemma NavrozeInYear(system: CalendarSystem, gregorianYear: int, k: int)
    requires system != Fasli
    ensures YearOf(Navroze(system, gregorianYear - YZ_ERA_OFFSET + k)) == gregorianYear
            <==> 1 <= NavrozeDay(system, gregorianYear, k) <= YearDays(gregorianYear)
  {
    hide LeapYears, IsLeap;
    var date := Navroze(system, gregorianYear - YZ_ERA_OFFSET + k);
    ClosedForm(gregorianYear);
    assert date == DaysBeforeYear(gregorianYear) + NavrozeDay(system, gregorianYear, k);
    if DaysBeforeYear(gregorianYear) < date <= DaysBeforeYear(gregorianYear + 1) {
      YearUnique(date, gregorianYear);
    }
  }

  /** The leap years that bound the scan. */
  lemma LeapYearBounds(gregorianYear: int)
    ensures gregorianYear <= 7476 <==> LeapYears(gregorianYear - 1) <= 1812
    ensures gregorianYear <= 7352 <==> LeapYears(gregorianYear - 1) <= 1782
    ensures gregorianYear >= -3059 <==> LeapYears(gregorianYear - 1) >= -742
    ensures gregorianYear >= -3183 <==> LeapYears(gregorianYear - 1) >= -772
    ensures gregorianYear >= -3063 <==> LeapYears(gregorianYear - 1) >= -743
    ensures gregorianYear >= -3187 <==> LeapYears(gregorianYear - 1) >= -773
  {
    assert LeapYears(7475) == 1812 && LeapYears(7476) == 1813;
    assert LeapYears(7351) == 1782 && LeapYears(7352) == 1783;
    assert LeapYears(-3060) == -742 && LeapYears(-3061) == -743;
    assert LeapYears(-3184) == -772 && LeapYears(-3185) == -773;
    assert LeapYears(-3064) == -743 && LeapYears(-3065) == -744;
    assert LeapYears(-3188) == -773 && LeapYears(-3189) == -774;
    var p := gregorianYear - 1;
    AtMost(p, 7475);
    AtMost(p, 7351);
    AtMost(p, -3061);
    AtMost(p, -3185);
    AtMost(p, -3065);
    AtMost(p, -3189);
  }

  lemma AtMost(p: int, bound: int)
    requires LeapYears(bound + 1) == LeapYears(bound) + 1
    ensures p <= bound <==> LeapYears(p) <= LeapYears(bound)
  {
    if p <= bound { LeapYearsMonotone(p, bound); } else { LeapYearsMonotone(bound + 1, p); }
  }

  predicate InYear(system: CalendarSystem, gregorianYear: int, k: int)
    requires system != Fasli
  {
    1 <= NavrozeDay(system, gregorianYear, k) <= YearDays(gregorianYear)
  }

  /** Seven offsets reach exactly the covered years: the Navroze day moves by 365 with each offset. */
  lemma SevenOffsetsCover(system: CalendarSystem, gregorianYear: int)
    requires system != Fasli
    ensures ScanCovers(system, gregorianYear) <==> exists k :: -3 <= k <= 3 && InYear(system, gregorianYear, k)
    ensures ScanCovers(system, gregorianYear) && !FirstCovered(system, gregorianYear)
            ==> forall k :: InYear(system, gregorianYear, k) ==> -3 <= k
  {
    hide LeapYears;
    LeapYearBounds(gregorianYear);
    var v := NavrozeDay(system, gregorianYear, 0);
    assert forall k :: NavrozeDay(system, gregorianYear, k) == v + 365 * k;
    if ScanCovers(system, gregorianYear) {
      // -3 is the lowest offset that can be needed, 3 the highest
      var k := if v >= 1096 then -3 else if v >= 731 then -2 else if v >= 366 then -1 else if v >= 1 then 0
               else if v >= -364 then 1 else if v >= -729 then 2 else 3;
      assert InYear(system, gregorianYear, k);
    }
  }

  /** In a first covered year the offsets -4 and -3 both fall, on 1 January and on 31 December. */
  lemma FirstCoveredHasTwo(system: CalendarSystem, gregorianYear: int)
    requires FirstCovered(system, gregorianYear)
    ensures system != Fasli && ScanCovers(system, gregorianYear)
    ensures Navroze(system, gregorianYear - YZ_ERA_OFFSET - 4) == Date(gregorianYear, 1, 1)
    ensures Navroze(system, gregorianYear - YZ_ERA_OFFSET - 3) == Date(gregorianYear, 12, 31)
    ensures forall k :: InYear(system, gregorianYear, k) <==> -4 <= k <= -3
  {
    ClosedForm(gregorianYear);
    assert LeapYears(-3061) == -743 && LeapYears(-3185) == -773;
    assert forall k :: NavrozeDay(system, gregorianYear, k) == 1461 + 365 * k;
  }

  /**
   Dates that begin with year 1 hold the very first candidate of the scan from year 3 on: in years 1 and 2 it
   would lie before them, and so would everything before that.
   */
  lemma FirstCandidateInRange(system: CalendarSystem, gregorianYear: int)
    requires system != Fasli
    ensures Navroze(system, gregorianYear - YZ_ERA_OFFSET - 3) >= Date(1, 1, 1) <==> gregorianYear >= 3
  {
    assert forall k :: Navroze(system, k) == Navroze(system, 0) + 365 * k;
  }

  lemma FasliNavrozeYear(gregorianYear: int)
    ensures Date(gregorianYear, 3, 21) == Navroze(Fasli, gregorianYear - YZ_ERA_OFFSET)
    ensures forall y :: YearOf(Navroze(Fasli, y)) == y + YZ_ERA_OFFSET
  {
    forall y
      ensures YearOf(Navroze(Fasli, y)) == y + YZ_ERA_OFFSET
    {
      YmdRoundTrip(y + YZ_ERA_OFFSET, 3, 21);
    }
  }

  /**
   The Navroze that falls in a Gregorian year. It is found exactly in the covered years, and it is the
   earliest in the year, except in the first covered year: there Navroze comes on 1 January and again on
   31 December, and the scan meets the second.
   */
  method GetNavroze(gregorianYear: int, system: CalendarSystem) returns (r: Result<int>)
    ensures r.Ok? <==> ScanCovers(system, gregorianYear)
    ensures r.Ok? ==> YearOf(r.value) == gregorianYear && exists y :: r.value == Navroze(system, y)
    ensures r.Ok? && !FirstCovered(system, gregorianYear) ==>
              forall y :: YearOf(Navroze(system, y)) == gregorianYear ==> r.value <= Navroze(system, y)
    ensures FirstCovered(system, gregorianYear) ==>
              && r == Ok(Date(gregorianYear, 12, 31))
              && exists y :: Navroze(system, y) == Date(gregorianYear, 1, 1)
  {
    if system == Fasli {
      FasliNavrozeYear(gregorianYear);
      return Ok(Date(gregorianYear, 3, 21));
    }
    hide YearOf, InYear, ScanCovers, FirstCovered, Navroze, Date, ShenshaiToGregorian, KadmiToGregorian;
    var estimate := gregorianYear - YZ_ERA_OFFSET;
    var offset := -3;
    while offset < 4
      invariant -3 <= offset <= 4
      invariant forall k :: -3 <= k < offset ==> !NavrozeComes(system, gregorianYear, k)
    {
      FirstOfYear(system, estimate + offset);
      var candidate := (if system == Shenshai then ShenshaiToGregorian(estimate + offset, 1)
                        else KadmiToGregorian(estimate + offset, 1)).value;
      assert NavrozeComes(system, gregorianYear, offset) <==> YearOf(candidate) == gregorianYear;
      if YearOf(candidate) == gregorianYear {
        FirstInYear(system, gregorianYear, offset);
        return Ok(candidate);
      }
      offset := offset + 1;
    }
    NoneInYear(system, gregorianYear);
    return ValueError;
  }

  lemma FirstOfYear(system: CalendarSystem, year: int)
    requires system != Fasli
    ensures (if system == Shenshai then ShenshaiToGregorian(year, 1) else KadmiToGregorian(year, 1)) == Ok(Navroze(system, year))
  {
  }

  /** The Navroze `k` years off the estimate comes in the Gregorian year. */
  predicate NavrozeComes(system: CalendarSystem, gregorianYear: int, k: int) {
    YearOf(Navroze(system, gregorianYear - YZ_ERA_OFFSET + k)) == gregorianYear
  }

  lemma InYearIs(system: CalendarSystem, gregorianYear: int, k: int)
    requires system != Fasli
    ensures NavrozeComes(system, gregorianYear, k) <==> InYear(system, gregorianYear, k)
  {
    hide Navroze, YearOf;
    NavrozeInYear(system, gregorianYear, k);
  }

  /** The first of the seven offsets that falls in the year gives its Navroze, the later one in a first covered year. */
  lemma FirstInYear(system: CalendarSystem, gregorianYear: int, offset: int)
    requires system != Fasli && -3 <= offset < 4
    requires NavrozeComes(system, gregorianYear, offset)
    requires forall k :: -3 <= k < offset ==> !NavrozeComes(system, gregorianYear, k)
    ensures ScanCovers(system, gregorianYear)
    ensures var found := Navroze(system, gregorianYear - YZ_ERA_OFFSET + offset);
            && (!FirstCovered(system, gregorianYear) ==>
                 forall y :: YearOf(Navroze(system, y)) == gregorianYear ==> found <= Navroze(system, y))
            && (FirstCovered(system, gregorianYear) ==>
                 found == Date(gregorianYear, 12, 31)
                 && Navroze(system, gregorianYear - YZ_ERA_OFFSET - 4) == Date(gregorianYear, 1, 1))
  {
    hide YearOf, Navroze, Date, InYear, ScanCovers, FirstCovered;
    SevenOffsetsCover(system, gregorianYear);
    InYearIs(system, gregorianYear, offset);
    if FirstCovered(system, gregorianYear) {
      FirstCoveredHasTwo(system, gregorianYear);
      InYearIs(system, gregorianYear, -3);
    } else {
      var estimate := gregorianYear - YZ_ERA_OFFSET;
      forall y | YearOf(Navroze(system, y)) == gregorianYear
        ensures Navroze(system, estimate + offset) <= Navroze(system, y)
      {
        InYearIs(system, gregorianYear, y - estimate);
        assert estimate + (y - estimate) == y;
        NavrozeApart(system, estimate + offset, y);
      }
    }
  }

  lemma NoneInYear(system: CalendarSystem, gregorianYear: int)
    requires system != Fasli
    requires forall k :: -3 <= k < 4 ==> !NavrozeComes(system, gregorianYear, k)
    ensures !ScanCovers(system, gregorianYear) && !FirstCovered(system, gregorianYear)
  {
    hide YearOf, Navroze, Date, InYear, ScanCovers, FirstCovered;
    SevenOffsetsCover(system, gregorianYear);
    forall k | -3 <= k <= 3
      ensures !InYear(system, gregorianYear, k)
    {
      InYearIs(system, gregorianYear, k);
    }
    if FirstCovered(system, gregorianYear) {
      FirstCoveredHasTwo(system, gregorianYear);
    }
  }
}
