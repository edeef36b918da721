/**
 The three Parsi calendars: 12 Mah of 30 Roj, then 5 Gatha days (6 in a Fasli leap cycle).
 Years are in the Yazdegerdi era.
 */
module Engine {
  import opened Results
  import opened Gregorian

  const DAYS_PER_MONTH := 30
  const MONTHS_PER_YEAR := 12
  const DAYS_BEFORE_GATHA := 360
  const BASE_GATHA_COUNT := 5
  const YEAR_LENGTH := 365
  const YZ_ERA_OFFSET := 630
  const KADMI_SHENSHAI_OFFSET_DAYS := 30
  const SHENSHAI_ANCHOR_NAVROZE := 739478  // 15 August 2025, see AnchorDate
  const SHENSHAI_ANCHOR_YZ_YEAR := 2025 - YZ_ERA_OFFSET

  datatype CalendarSystem = Shenshai | Kadmi | Fasli

  datatype ParsiDate =
    | RojMah(year: int, mah: int, roj: int)
    | Gatha(year: int, index: int)

  // --- Days within a year ---

  function DayOfYearFromMahRoj(mah: int, roj: int): Result<int> {
    if !(1 <= mah <= MONTHS_PER_YEAR) then ValueError
    else if !(1 <= roj <= DAYS_PER_MONTH) then ValueError
    else Ok((mah - 1) * DAYS_PER_MONTH + roj)
  }

  function DayOfYearFromGatha(index: int, maxGatha: int): Result<int> {
    if !(1 <= index <= maxGatha) then ValueError else Ok(DAYS_BEFORE_GATHA + index)
  }

  function BuildParsiDate(year: int, dayOfYear: int, maxGatha: int): ParsiDate
    requires 1 <= dayOfYear <= DAYS_BEFORE_GATHA + maxGatha
  {
    if dayOfYear <= DAYS_BEFORE_GATHA then
      RojMah(year, (dayOfYear - 1) / DAYS_PER_MONTH + 1, (dayOfYear - 1) % DAYS_PER_MONTH + 1)
    else
      Gatha(year, dayOfYear - DAYS_BEFORE_GATHA)
  }

  // --- Shenshai and Kadmi ---

  function ShenshaiFromGregorian(date: int): ParsiDate {
    var delta := date - SHENSHAI_ANCHOR_NAVROZE;
    BuildParsiDate(SHENSHAI_ANCHOR_YZ_YEAR + delta / YEAR_LENGTH, delta % YEAR_LENGTH + 1, BASE_GATHA_COUNT)
  }

  function ShenshaiToGregorian(year: int, dayOfYear: int): Result<int> {
    if !(1 <= dayOfYear <= YEAR_LENGTH) then ValueError
    else
      Ok(SHENSHAI_ANCHOR_NAVROZE + (year - SHENSHAI_ANCHOR_YZ_YEAR) * YEAR_LENGTH + (dayOfYear - 1))
  }

  function KadmiFromGregorian(date: int): ParsiDate {
    ShenshaiFromGregorian(date + KADMI_SHENSHAI_OFFSET_DAYS)
  }

  function KadmiToGregorian(year: int, dayOfYear: int): Result<int> {
    match ShenshaiToGregorian(year, dayOfYear)
    case Ok(date) => Ok(date - KADMI_SHENSHAI_OFFSET_DAYS)
    case ValueError => ValueError
  }

  // --- Fasli ---

  function FasliCycleStartYear(date: int): int {
    var m, d := MonthOf(date), DayOf(date);
    if m > 3 || (m == 3 && d >= 21) then YearOf(date) else YearOf(date) - 1
  }

  function FasliMaxGatha(cycleStartYear: int): int {
    if IsLeap(cycleStartYear + 1) then 6 else 5
  }

  function FasliFromGregorian(date: int): ParsiDate {
    var cycle := FasliCycleStartYear(date);
    FasliDayInCycle(date);
    BuildParsiDate(cycle - YZ_ERA_OFFSET, date - Date(cycle, 3, 21) + 1, FasliMaxGatha(cycle))
  }

  function FasliToGregorian(year: int, dayOfYear: int): Result<int> {
    var cycle := year + YZ_ERA_OFFSET;
    if !(1 <= dayOfYear <= DAYS_BEFORE_GATHA + FasliMaxGatha(cycle)) then ValueError
    else Ok(Date(cycle, 3, 21) + (dayOfYear - 1))
  }

  // --- Public API ---

  function GregorianToParsi(date: int, system: CalendarSystem): ParsiDate {
    match system
    case Shenshai => ShenshaiFromGregorian(date)
    case Kadmi => KadmiFromGregorian(date)
    case Fasli => FasliFromGregorian(date)
  }

  /** A day asked for without its year: a Mah and Roj, or a Gatha day, any part possibly missing. */
  datatype DayRequest = DayRequest(mah: Option<int>, roj: Option<int>, gatha: Option<int>)

  function AskRojMah(mah: int, roj: int): DayRequest {
    DayRequest(Some(mah), Some(roj), None)
  }

  function AskGatha(index: int): DayRequest {
    DayRequest(None, None, Some(index))
  }

  function Asked(p: ParsiDate): DayRequest {
    if p.RojMah? then AskRojMah(p.mah, p.roj) else AskGatha(p.index)
  }

  function MaxGatha(system: CalendarSystem, year: int): int {
    if system == Fasli then FasliMaxGatha(year + YZ_ERA_OFFSET) else BASE_GATHA_COUNT
  }

  function RequestedDayOfYear(year: int, system: CalendarSystem, ask: DayRequest): Result<int> {
    var isGatha := ask.gatha.Some?;
    var isMahRoj := ask.mah.Some? && ask.roj.Some?;
    if isGatha == isMahRoj then ValueError
    else if isGatha then DayOfYearFromGatha(ask.gatha.value, MaxGatha(system, year))
    else DayOfYearFromMahRoj(ask.mah.value, ask.roj.value)
  }

  function ParsiToGregorian(year: int, system: CalendarSystem, ask: DayRequest): Result<int> {
    match RequestedDayOfYear(year, system, ask)
    case ValueError => ValueError
    case Ok(dayOfYear) =>
      match system
      case Shenshai => ShenshaiToGregorian(year, dayOfYear)
      case Kadmi => KadmiToGregorian(year, dayOfYear)
      case Fasli => FasliToGregorian(year, dayOfYear)
  }

  // --- What the conversions mean ---

  /** The first day of a year. */
  function Navroze(system: CalendarSystem, year: int): int {
    match system
    case Shenshai => SHENSHAI_ANCHOR_NAVROZE + YEAR_LENGTH * (year - SHENSHAI_ANCHOR_YZ_YEAR)
    case Kadmi => SHENSHAI_ANCHOR_NAVROZE + YEAR_LENGTH * (year - SHENSHAI_ANCHOR_YZ_YEAR) - 30
    case Fasli => Date(year + YZ_ERA_OFFSET, 3, 21)
  }

  /** A day that exists in the calendar. */
  predicate Valid(system: CalendarSystem, p: ParsiDate) {
    match p
    case RojMah(_, mah, roj) => 1 <= mah <= 12 && 1 <= roj <= 30
    case Gatha(year, index) => 1 <= index <= MaxGatha(system, year)
  }

  /** How far into its year a day falls, the first day being 1. */
  function Position(p: ParsiDate): int {
    match p
    case RojMah(_, mah, roj) => 30 * (mah - 1) + roj
    case Gatha(_, index) => 360 + index
  }

  /** The day after, said the way the calendar is read out. */
  function NextDay(system: CalendarSystem, p: ParsiDate): ParsiDate {
    match p
    case RojMah(year, mah, roj) =>
      if roj < 30 then RojMah(year, mah, roj + 1)
      else if mah < 12 then RojMah(year, mah + 1, 1)
      else Gatha(year, 1)
    case Gatha(year, index) =>
      if index < MaxGatha(system, year) then Gatha(year, index + 1) else RojMah(year + 1, 1, 1)
  }

  /** The order a calendar lists its days in: by year, then Mah, then Roj, the Gatha days last. */
  predicate Before(p: ParsiDate, q: ParsiDate) {
    if p.year != q.year then p.year < q.year
    else match (p, q)
      case (RojMah(_, m1, r1), RojMah(_, m2, r2)) => m1 < m2 || (m1 == m2 && r1 < r2)
      case (RojMah(_, _, _), Gatha(_, _)) => true
      case (Gatha(_, _), RojMah(_, _, _)) => false
      case (Gatha(_, i), Gatha(_, j)) => i < j
  }

  /** The anchor is 15 August 2025. */
  lemma AnchorDate(year: int)
    requires year == 2025
    ensures Date(year, 8, 15) == SHENSHAI_ANCHOR_NAVROZE
  {
    ClosedForm(year);
  }

  /** 338 days on from the anchor. */
  lemma VerifiedDay(year: int)
    requires year == 2026
    ensures Date(year, 7, 19) == 739816
  {
    ClosedForm(year);
  }

  /** The anchor verified against a printed calendar: 19 July 2026 is Roj 9 of Mah 12 in Shenshai and Roj 4 of Mah 1 in Kadmi. */
  lemma VerifiedAnchor(year: int)
    requires year == 2026
    ensures GregorianToParsi(Date(year, 7, 19), Shenshai) == RojMah(1395, 12, 9)
    ensures GregorianToParsi(Date(year, 7, 19), Kadmi) == RojMah(1396, 1, 4)
  {
    hide Date, FasliFromGregorian;
    VerifiedDay(year);
    assert ShenshaiFromGregorian(739816) == RojMah(1395, 12, 9);
    assert ShenshaiFromGregorian(739846) == RojMah(1396, 1, 4);
  }

  /** A Fasli year is named for the 21 March it begins on, 630 years on. */
  lemma FasliEra(date: int)
    ensures var year := GregorianToParsi(date, Fasli).year;
            Date(year + 630, 3, 21) <= date < Date(year + 631, 3, 21)
  {
    FasliCycleContains(date);
  }

  // --- Fasli cycles ---

  /** 21 March to 21 March has exactly the cycle's own number of days, leap or not. */
  lemma FasliCycleLength(cycle: int)
    ensures Date(cycle + 1, 3, 21) - Date(cycle, 3, 21) == DAYS_BEFORE_GATHA + FasliMaxGatha(cycle)
  {
  }

  /** A date lies in the cycle its month and day put it in. */
  lemma FasliCycleContains(date: int)
    ensures Date(FasliCycleStartYear(date), 3, 21) <= date < Date(FasliCycleStartYear(date) + 1, 3, 21)
  {
    var y := YearOf(date);
    DateRoundTrip(date);
    FasliCycleLength(y);
    FasliCycleLength(y - 1);
  }

  /** Its place in that cycle is one of the cycle's days. */
  lemma FasliDayInCycle(date: int)
    ensures var cycle := FasliCycleStartYear(date);
            1 <= date - Date(cycle, 3, 21) + 1 <= DAYS_BEFORE_GATHA + FasliMaxGatha(cycle)
  {
    hide FasliCycleStartYear;
    FasliCycleContains(date);
    FasliCycleLength(FasliCycleStartYear(date));
  }

  // --- Year lengths and order of the years ---

  /** In every system a year is 360 days and its Gatha days, with nothing left over. */
  lemma YearLength(system: CalendarSystem, year: int)
    ensures Navroze(system, year + 1) == Navroze(system, year) + DAYS_BEFORE_GATHA + MaxGatha(system, year)
    ensures 5 <= MaxGatha(system, year) <= 6
  {
    if system == Fasli {
      FasliCycleLength(year + YZ_ERA_OFFSET);
    }
  }

  /** Years are at least 365 days apart. */
  lemma {:induction false} NavrozeApart(system: CalendarSystem, y1: int, y2: int)
    requires y1 <= y2
    ensures Navroze(system, y2) >= Navroze(system, y1) + 365 * (y2 - y1)
    decreases y2 - y1
  {
    if y1 < y2 {
      NavrozeApart(system, y1, y2 - 1);
      YearLength(system, y2 - 1);
    }
  }

  /** Reading a date gives the one year it falls in, and its place there. */
  lemma ReadsBack(date: int, system: CalendarSystem)
    ensures var p := GregorianToParsi(date, system);
            && Valid(system, p)
            && date == Navroze(system, p.year) + Position(p) - 1
            && Navroze(system, p.year) <= date < Navroze(system, p.year + 1)
  {
    var p := GregorianToParsi(date, system);
    if system == Fasli {
      FasliCycleContains(date);
      FasliCycleLength(FasliCycleStartYear(date));
    }
  }

  /** The calendar's own formulas agree with Navroze plus the place in the year. */
  lemma WritesOut(year: int, system: CalendarSystem, ask: DayRequest)
    ensures ParsiToGregorian(year, system, ask) ==
            match RequestedDayOfYear(year, system, ask)
            case Ok(n) => Ok(Navroze(system, year) + n - 1)
            case ValueError => ValueError
  {
  }

  /** A day has a date exactly when it exists in that year. */
  lemma HasDate(system: CalendarSystem, p: ParsiDate)
    ensures ParsiToGregorian(p.year, system, Asked(p)) ==
            if Valid(system, p) then Ok(Navroze(system, p.year) + Position(p) - 1) else ValueError
  {
    WritesOut(p.year, system, Asked(p));
  }

  /** The year and place in the year are determined by the date. */
  lemma OneYear(system: CalendarSystem, date: int, y1: int, y2: int)
    requires Navroze(system, y1) <= date < Navroze(system, y1 + 1)
    requires Navroze(system, y2) <= date < Navroze(system, y2 + 1)
    ensures y1 == y2
  {
    if y1 < y2 {
      NavrozeApart(system, y1 + 1, y2);
    } else if y2 < y1 {
      NavrozeApart(system, y2 + 1, y1);
    }
  }

  /** Two valid days of a year at the same place are the same day. */
  lemma PositionInjective(p: ParsiDate, q: ParsiDate, system: CalendarSystem)
    requires Valid(system, p) && Valid(system, q)
    requires p.year == q.year && Position(p) == Position(q)
    ensures p == q
  {
  }

  /** Gregorian to Parsi and back is the identity, in every system. */
  lemma GregorianRoundTrip(date: int, system: CalendarSystem)
    ensures var p := GregorianToParsi(date, system);
            ParsiToGregorian(p.year, system, Asked(p)) == Ok(date)
  {
    ReadsBack(date, system);
    HasDate(system, GregorianToParsi(date, system));
  }

  /** Parsi to Gregorian and back is the identity, on every day that exists. */
  lemma ParsiRoundTrip(system: CalendarSystem, p: ParsiDate)
    requires Valid(system, p)
    ensures ParsiToGregorian(p.year, system, Asked(p)).Ok?
    ensures GregorianToParsi(ParsiToGregorian(p.year, system, Asked(p)).value, system) == p
  {
    hide GregorianToParsi, ParsiToGregorian, Navroze, MaxGatha;
    HasDate(system, p);
    var date := ParsiToGregorian(p.year, system, Asked(p)).value;
    var q := GregorianToParsi(date, system);
    ReadsBack(date, system);
    YearLength(system, p.year);
    OneYear(system, date, p.year, q.year);
    PositionInjective(p, q, system);
  }

  /** Tomorrow's date is the next Roj, Mah, Gatha day or year. */
  lemma NextDayIsNext(date: int, system: CalendarSystem)
    ensures GregorianToParsi(date + 1, system) == NextDay(system, GregorianToParsi(date, system))
  {
    hide GregorianToParsi, ParsiToGregorian, Navroze, MaxGatha;
    var p := GregorianToParsi(date, system);
    var q := NextDay(system, p);
    ReadsBack(date, system);
    YearLength(system, p.year);
    assert Valid(system, q) && Navroze(system, q.year) + Position(q) - 1 == date + 1;
    HasDate(system, q);
    ParsiRoundTrip(system, q);
  }

  /** Dates and Parsi days come in the same order. */
  lemma OrderPreserved(d1: int, d2: int, system: CalendarSystem)
    ensures d1 < d2 <==> Before(GregorianToParsi(d1, system), GregorianToParsi(d2, system))
  {
    hide GregorianToParsi, ParsiToGregorian, Navroze, MaxGatha;
    var p, q := GregorianToParsi(d1, system), GregorianToParsi(d2, system);
    YearLength(system, p.year);
    YearLength(system, q.year);
    ReadsBack(d1, system);
    ReadsBack(d2, system);
    if p.year < q.year {
      NavrozeApart(system, p.year + 1, q.year);
    } else if q.year < p.year {
      NavrozeApart(system, q.year + 1, p.year);
    }
  }

  /** Kadmi runs 30 days ahead: a day comes in Kadmi exactly 30 days before it comes in Shenshai. */
  lemma KadmiIsThirtyDaysAhead(date: int, p: ParsiDate)
    ensures GregorianToParsi(date, Kadmi) == p <==> GregorianToParsi(date + 30, Shenshai) == p
    ensures ParsiToGregorian(p.year, Kadmi, Asked(p)) ==
            match ParsiToGregorian(p.year, Shenshai, Asked(p))
            case Ok(d) => Ok(d - 30)
            case ValueError => ValueError
  {
  }
}
