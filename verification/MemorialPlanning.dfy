/**
 Planning a memorial: which day the death was, from whichever way it was given, and the schedule for
 it. A death more than a year ago gets a stand-in day, and planning it again later changes nothing.
 */
module MemorialPlanning {
  import opened Results
  import opened Engine
  import opened EngineSearch
  import opened RojMahCount
  import opened MemorialSeries
  import opened MemorialSchedule
  import opened MemorialClaims
  import opened MemorialBuild
  import opened MemorialPromises
  import opened MemorialReading
  import opened StandIn

  const OLD_DEATH_DAYS := 361
  const MAX_MONTHLY_MONTHS := 1200
  const MAX_YEARLY_YEARS := 100
  const MAX_PARAB_YEARS := 100
  const MAX_BIRTHDAY_YEARS := 100
  const MAX_PARAB_COUNT := 1200
  const MAX_OBSERVANCES := 2500
  const YEARS_BACK := 4

  /** What a mobed gives: a length not chosen is absent. */
  datatype Request = Request(
    deathDate: Option<int>, deathRoj: Option<int>, deathMah: Option<int>, deathYear: Option<int>, longAgo: bool,
    opening: Opening, dayCounts: seq<int>,
    monthlyMonths: Option<int>, yearlyYears: Option<int>, fravardinRojMonths: Option<int>,
    parabs: Option<ParabKind>, parabYears: Option<int>, parabCount: Option<int>,
    birthday: Option<(int, int)>, birthdayYears: Option<int>,
    startFrom: Option<int>)

  // --- The day of the death ---

  function DayAsked(roj: int, mah: int): DayRequest {
    if mah == GATHA_MAH then AskGatha(roj) else AskRojMah(mah, roj)
  }

  predicate IsRojAndMah(roj: int, mah: int) {
    1 <= mah <= 13 && 1 <= roj <= (if mah == 13 then 6 else 30)
  }

  /** The latest day asked for, in the years from `current - back` to `current`, not after `latest`. */
  function LatestWithin(system: CalendarSystem, ask: DayRequest, current: int, back: int, latest: int): Result<int>
    decreases back
  {
    if back < 0 then ValueError
    else
      var when := ParsiToGregorian(current, system, ask);
      if when.Ok? && when.value <= latest then when
      else LatestWithin(system, ask, current - 1, back - 1, latest)
  }

  /** The latest date on which a stand-in may fall. */
  function LatestDeath(r: Request, today: int): int {
    if r.longAgo then today - OLD_DEATH_DAYS else today
  }

  /** What the death is taken to be. */
  function DeathDay(system: CalendarSystem, r: Request, today: int): Result<int> {
    var byDate := r.deathDate.Some?;
    var byParsi := r.deathRoj.Some? || r.deathMah.Some? || r.deathYear.Some?;
    if r.longAgo && (r.deathDate.Some? || r.deathYear.Some?) then ValueError
    else if byDate == byParsi then ValueError
    else if byDate then Ok(r.deathDate.value)
    else if r.deathRoj.None? || r.deathMah.None? then ValueError
    else if !IsRojAndMah(r.deathRoj.value, r.deathMah.value) then ValueError
    else
      var ask := DayAsked(r.deathRoj.value, r.deathMah.value);
      if r.deathYear.Some? then ParsiToGregorian(r.deathYear.value, system, ask)
      else LatestWithin(system, ask, GregorianToParsi(today, system).year, YEARS_BACK, LatestDeath(r, today))
  }

  lemma {:induction false} LatestWithinIs(system: CalendarSystem, ask: DayRequest, current: int, back: int, latest: int)
    ensures var r := LatestWithin(system, ask, current, back, latest);
            && (r.Ok? ==> r.value <= latest && exists y :: current - back <= y <= current && FallsOn(system, ask, y, r.value))
            && (forall y, d :: y <= current && y >= current - back && FallsOn(system, ask, y, d) && d <= latest
                  ==> r.Ok? && d <= r.value)
    decreases back
  {
    hide ParsiToGregorian;
    if back >= 0 {
      LatestWithinIs(system, ask, current - 1, back - 1, latest);
      var when := ParsiToGregorian(current, system, ask);
      if when.Ok? && when.value <= latest {
        assert FallsOn(system, ask, current, when.value);
        forall y, d | y < current && FallsOn(system, ask, y, d)
          ensures d <= when.value
        {
          LaterYearLaterDate(system, ask, y, d, current, when.value);
        }
      }
    }
  }

  /** The day asked for came round at some time from the start of the year four back to `latest`. */
  ghost predicate CameRound(system: CalendarSystem, ask: DayRequest, today: int, latest: int) {
    exists y, d :: FallsOn(system, ask, y, d)
                   && Navroze(system, GregorianToParsi(today, system).year - YEARS_BACK) <= d <= latest
  }

  /**
   A death given by Roj and Mah alone is the greatest such day not after the limit, over all years; and
   one is found exactly when the day came round in the last four years or so.
   */
  lemma DeathDayIsLatest(system: CalendarSystem, r: Request, today: int)
    requires r.deathDate.None? && r.deathYear.None? && r.deathRoj.Some? && r.deathMah.Some?
    requires IsRojAndMah(r.deathRoj.value, r.deathMah.value)
    ensures var ask := DayAsked(r.deathRoj.value, r.deathMah.value);
            var found := DeathDay(system, r, today);
            var latest := LatestDeath(r, today);
            && (found.Ok? <==> CameRound(system, ask, today, latest))
            && (found.Ok? ==> found.value <= latest && exists y :: FallsOn(system, ask, y, found.value))
            && (found.Ok? ==> forall y, d :: FallsOn(system, ask, y, d) && d <= latest ==> d <= found.value)
  {
    hide ParsiToGregorian, GregorianToParsi, Navroze, FallsOn;
    var ask, latest := DayAsked(r.deathRoj.value, r.deathMah.value), LatestDeath(r, today);
    var current := GregorianToParsi(today, system).year;
    var found := DeathDay(system, r, today);
    LatestWithinIs(system, ask, current, YEARS_BACK, latest);
    ReadsBack(today, system);
    forall y, d | FallsOn(system, ask, y, d) && d <= latest
      ensures y <= current
      ensures d >= Navroze(system, current - YEARS_BACK) <==> y >= current - YEARS_BACK
      ensures found.Ok? ==> d <= found.value
    {
      FallsInYear(system, ask, y, d);
      if y > current {
        NavrozeApart(system, current + 1, y);
      }
      if y < current - YEARS_BACK {
        NavrozeApart(system, y + 1, current - YEARS_BACK);
        if found.Ok? {
          var z :| current - YEARS_BACK <= z <= current && FallsOn(system, ask, z, found.value);
          LaterYearLaterDate(system, ask, y, d, z, found.value);
        }
      } else {
        NavrozeApart(system, current - YEARS_BACK, y);
      }
    }
    if found.Ok? {
      var z :| current - YEARS_BACK <= z <= current && FallsOn(system, ask, z, found.value);
      assert CameRound(system, ask, today, latest);
    }
  }

  /** Every day but the sixth Gatha always has come round, even with a year's margin. */
  lemma OrdinaryDayCameRound(system: CalendarSystem, roj: int, mah: int, today: int, latest: int)
    requires IsRojAndMah(roj, mah) && !(mah == GATHA_MAH && roj == 6)
    requires latest >= today - OLD_DEATH_DAYS
    ensures CameRound(system, DayAsked(roj, mah), today, latest)
  {
    hide ParsiToGregorian, GregorianToParsi, Navroze, FallsOn;
    var current := GregorianToParsi(today, system).year;
    var ask := DayAsked(roj, mah);
    ComesInYear(system, ask, current - 2);
    var d :| FallsOn(system, ask, current - 2, d);
    FallsInYear(system, ask, current - 2, d);
    ReadsBack(today, system);
    NavrozeApart(system, current - 1, current);
    NavrozeApart(system, current - YEARS_BACK, current - 2);
  }

  function Max(s: seq<int>): (m: int)
    requires s != []
    ensures m in s && forall x :: x in s ==> x <= m
  {
    if |s| == 1 then s[0]
    else
      var rest := Max(s[1..]);
      assert forall x :: x in s <==> x == s[0] || x in s[1..];
      if s[0] >= rest then s[0] else rest
  }

  method ResolveDeath(system: CalendarSystem, r: Request, today: int) returns (out: Result<int>)
    ensures out == DeathDay(system, r, today)
  {
    hide ParsiToGregorian, GregorianToParsi, LatestWithin, IsRojAndMah, DayAsked;
    if r.longAgo && (r.deathDate.Some? || r.deathYear.Some?) {
      return ValueError;
    }
    var byDate := r.deathDate.Some?;
    var byParsi := r.deathRoj.Some? || r.deathMah.Some? || r.deathYear.Some?;
    if byDate == byParsi {
      return ValueError;
    }
    if byDate {
      return Ok(r.deathDate.value);
    }
    if r.deathRoj.None? || r.deathMah.None? || !IsRojAndMah(r.deathRoj.value, r.deathMah.value) {
      return ValueError;
    }
    var ask := DayAsked(r.deathRoj.value, r.deathMah.value);
    if r.deathYear.Some? {
      return ParsiToGregorian(r.deathYear.value, system, ask);
    }
    var latest := LatestDeath(r, today);
    var current := GregorianToParsi(today, system).year;
    var candidates: seq<int> := [];
    var year := current - YEARS_BACK;
    while year < current + 1
      invariant current - YEARS_BACK <= year <= current + 1
      invariant forall d :: d in candidates <==>
        d <= latest && exists y :: current - YEARS_BACK <= y < year && FallsOn(system, ask, y, d)
    {
      var when := ParsiToGregorian(year, system, ask);
      if when.Ok? && when.value <= latest {
        assert FallsOn(system, ask, year, when.value);
        candidates := candidates + [when.value];
      }
      year := year + 1;
    }
    LatestWithinIs(system, ask, current, YEARS_BACK, latest);
    ghost var best := LatestWithin(system, ask, current, YEARS_BACK, latest);
    assert best.Ok? ==> best.value in candidates;
    if candidates == [] {
      return ValueError;
    }
    assert Max(candidates) in candidates;
    return Ok(Max(candidates));
  }

  // --- The plan ---

  predicate LengthWithin(value: Option<int>, ceiling: int) {
    value.Some? ==> 1 <= value.value <= ceiling
  }

  predicate ValidRequest(r: Request) {
    && LengthWithin(r.monthlyMonths, MAX_MONTHLY_MONTHS)
    && LengthWithin(r.yearlyYears, MAX_YEARLY_YEARS)
    && LengthWithin(r.fravardinRojMonths, MAX_MONTHLY_MONTHS)
    && LengthWithin(r.parabYears, MAX_PARAB_YEARS)
    && LengthWithin(r.parabCount, MAX_PARAB_COUNT)
    && LengthWithin(r.birthdayYears, MAX_BIRTHDAY_YEARS)
    && (r.parabs.Some? <==> (r.parabYears.Some? || r.parabCount.Some?))
    && !(r.parabYears.Some? && r.parabCount.Some?)
    && (r.birthday.Some? <==> r.birthdayYears.Some?)
    && (r.birthday.Some? ==> ValidBirthday(r.birthday.value))
    && (r.longAgo ==> r.opening == NoOpening && r.dayCounts == [])
  }

  function Given(value: Option<int>): int {
    if value.Some? then value.value else 0
  }

  /** The death as a memorial stores it: Mah 13 and the Gatha number for a Gatha day. */
  function StoredDeath(system: CalendarSystem, date: int): Death {
    match GregorianToParsi(date, system)
    case RojMah(year, mah, roj) => Death(roj, mah, year)
    case Gatha(year, index) => Death(index, GATHA_MAH, year)
  }

  function ToChoice(system: CalendarSystem, r: Request, deathDate: int, today: int): Choice {
    Choice(StoredDeath(system, deathDate), system, r.opening, r.dayCounts,
           Given(r.monthlyMonths), Given(r.yearlyYears),
           r.parabs, Given(r.parabYears), Given(r.parabCount),
           r.birthday, Given(r.birthdayYears), Given(r.fravardinRojMonths),
           if r.longAgo && r.startFrom.None? then Some(today) else r.startFrom, r.longAgo)
  }

  /** The schedule for a request, or a refusal. */
  ghost function Plan(system: CalendarSystem, r: Request, today: int): Result<seq<Observance>> {
    if !ValidRequest(r) then ValueError
    else
      var death := DeathDay(system, r, today);
      if death.ValueError? then ValueError
      else
        var schedule := Schedule(ToChoice(system, r, death.value, today));
        if schedule.ValueError? || schedule.value == [] || |schedule.value| > MAX_OBSERVANCES then ValueError
        else schedule
  }

  /** A stored death is a valid one, on the very day it was stored for. */
  lemma StoredDeathIs(system: CalendarSystem, date: int)
    ensures DeathDate(system, StoredDeath(system, date)) == Ok(date)
  {
    hide ParsiToGregorian, GregorianToParsi;
    GregorianRoundTrip(date, system);
    ReadsBack(date, system);
  }

  /** A date that falls on the day asked for is stored under that Roj and Mah. */
  lemma StoredAsAsked(system: CalendarSystem, roj: int, mah: int, year: int, date: int)
    requires IsRojAndMah(roj, mah) && FallsOn(system, DayAsked(roj, mah), year, date)
    ensures StoredDeath(system, date) == Death(roj, mah, year)
  {
    hide ParsiToGregorian, GregorianToParsi;
    var p := if mah == GATHA_MAH then Gatha(year, roj) else RojMah(year, mah, roj);
    HasDate(system, p);
    ParsiRoundTrip(system, p);
  }

  /** A later day's stand-in is the same day of the year, in the same year or a later one. */
  lemma StandInsApart(system: CalendarSystem, r: Request, earlier: int, later: int) returns (years: nat)
    requires r.longAgo && earlier <= later
    requires DeathDay(system, r, earlier).Ok? && DeathDay(system, r, later).Ok?
    ensures var d1, d2 := DeathDay(system, r, earlier).value, DeathDay(system, r, later).value;
            var s := StoredDeath(system, d2);
            StoredDeath(system, d1) == s.(year := s.year - years)
            && d2 <= later - OLD_DEATH_DAYS
  {
    hide ParsiToGregorian, GregorianToParsi, FallsOn, CameRound, StoredDeath, LatestWithin;
    var roj, mah := r.deathRoj.value, r.deathMah.value;
    DeathDayIsLatest(system, r, earlier);
    DeathDayIsLatest(system, r, later);
    var d1, d2 := DeathDay(system, r, earlier).value, DeathDay(system, r, later).value;
    var y1 :| FallsOn(system, DayAsked(roj, mah), y1, d1);
    var y2 :| FallsOn(system, DayAsked(roj, mah), y2, d2);
    StoredAsAsked(system, roj, mah, y1, d1);
    StoredAsAsked(system, roj, mah, y2, d2);
    if y2 < y1 {
      LaterYearLaterDate(system, DayAsked(roj, mah), y2, d2, y1, d1);
    }
    years := y2 - y1;
  }

  lemma PlanIsSchedule(system: CalendarSystem, r: Request, today: int)
    requires Plan(system, r, today).Ok?
    ensures ValidRequest(r) && DeathDay(system, r, today).Ok?
    ensures Accepted(ToChoice(system, r, DeathDay(system, r, today).value, today))
    ensures Plan(system, r, today) == Schedule(ToChoice(system, r, DeathDay(system, r, today).value, today))
  {
    hide ValidRequest, DeathDay, Accepted, Candidates, SortByDate;
  }

  /**
   Planning the same long-ago death on a later day, from the same start date, more than a week after the later
   stand-in, shows the same days under
   the same titles, although the stand-in has moved.
   */
  lemma PlanDoesNotDrift(system: CalendarSystem, r: Request, earlier: int, later: int)
    requires r.longAgo && earlier <= later
    requires Plan(system, r, earlier).Ok? && Plan(system, r, later).Ok?
    requires DeathDay(system, r, later).Ok? && r.startFrom.Some? && r.startFrom.value > DeathDay(system, r, later).value + 7
    ensures var a, b := Plan(system, r, earlier).value, Plan(system, r, later).value;
            |a| == |b| && forall i :: 0 <= i < |a| ==> SameShown(b[i], a[i])
  {
    hide DeathDay, StoredDeath, Plan, Schedule, Accepted, ParsiToGregorian;
    PlanIsSchedule(system, r, earlier);
    PlanIsSchedule(system, r, later);
    var years := StandInsApart(system, r, earlier, later);
    var d1, d2 := DeathDay(system, r, earlier).value, DeathDay(system, r, later).value;
    StoredDeathIs(system, d2);
    var c := ToChoice(system, r, d2, later);
    assert ToChoice(system, r, d1, earlier) == StandIn.Earlier(c, years);
    StandInDoesNotMatter(c, years);
  }

  // --- What a plan says ---

  /** From what is given, the day of the death, or why there is none. */
  lemma DeathDayExactly(system: CalendarSystem, r: Request, today: int)
    ensures var found := DeathDay(system, r, today);
            var byParsi := r.deathRoj.Some? || r.deathMah.Some? || r.deathYear.Some?;
            && (r.longAgo && (r.deathDate.Some? || r.deathYear.Some?) ==> found == ValueError)
            && (r.deathDate.Some? && byParsi ==> found == ValueError)
            && (r.deathDate.None? && !(r.deathRoj.Some? && r.deathMah.Some?) ==> found == ValueError)
            && (r.deathDate.Some? && !byParsi && !r.longAgo ==> found == Ok(r.deathDate.value))
            && (r.deathDate.None? && r.deathRoj.Some? && r.deathMah.Some? && !r.longAgo && r.deathYear.Some? ==>
                 var roj, mah, year := r.deathRoj.value, r.deathMah.value, r.deathYear.value;
                 found == if mah == 13 then (if 1 <= roj <= 6 then ParsiToGregorian(year, system, AskGatha(roj)) else ValueError)
                          else ParsiToGregorian(year, system, AskRojMah(mah, roj)))
            && (r.longAgo && found.Ok? ==> found.value <= today - 361)
  {
    hide ParsiToGregorian, GregorianToParsi, LatestWithin;
    if r.deathDate.None? && r.deathRoj.Some? && r.deathMah.Some? {
      var roj, mah := r.deathRoj.value, r.deathMah.value;
      if r.deathYear.Some? && mah != 13 && !IsRojAndMah(roj, mah) {
        NoSuchDay(system, r.deathYear.value, mah, roj);
      }
      if r.deathYear.None? && IsRojAndMah(roj, mah) {
        LatestWithinIs(system, DayAsked(roj, mah), GregorianToParsi(today, system).year, YEARS_BACK, LatestDeath(r, today));
      }
    }
  }

  lemma NoSuchDay(system: CalendarSystem, year: int, mah: int, roj: int)
    requires !(1 <= mah <= 12 && 1 <= roj <= 30)
    ensures ParsiToGregorian(year, system, AskRojMah(mah, roj)) == ValueError
  {
    HasDate(system, RojMah(year, mah, roj));
  }

  /**
   Every observance of a plan was asked for, by day, by series or both; nothing is before the start date, or for a death
   of long ago before today; and of such a death nothing is counted in years or months.
   */
  lemma PlanSays(system: CalendarSystem, r: Request, today: int, o: Observance)
    requires Plan(system, r, today).Ok? && o in Plan(system, r, today).value
    ensures 1 <= |Plan(system, r, today).value| <= 2500
    ensures match o.code
            case DayCode(n) =>
              && !r.longAgo
              && (n in r.dayCounts || (r.opening == DaysOneToTen && 1 <= n <= 10) || (r.opening == DaysFiveToNine && 5 <= n <= 9)
                  || (r.opening == TenthOnly && n == 10))
            case MonthCode(_) => r.monthlyMonths.Some?
            case YearCode(_) => r.yearlyYears.Some?
            case ParabCode(mah, _) => r.parabs.Some? && (r.parabs.value == FravardinAndTir ==> mah == 1 || mah == 4)
            case FravRojCode(_, _) => r.fravardinRojMonths.Some?
            case BirthdayCode(_) => r.birthday.Some? && o.roj == Some(r.birthday.value.0) && o.mah == Some(r.birthday.value.1)
    ensures r.startFrom.Some? ==> o.date >= r.startFrom.value
    ensures r.longAgo && r.startFrom.None? ==> o.date >= today
    ensures r.longAgo ==> !o.title.YearLabel? && !o.title.MonthLabel?
  {
    hide ValidRequest, DeathDay, Candidates, Schedule, Chosen, OnItsDay, ReadsItsDate, FirstK, StoredDeath, ValidChoice;
    PlanIsSchedule(system, r, today);
    var c := ToChoice(system, r, DeathDay(system, r, today).value, today);
    ScheduleKeepsTheBest(c);
    var rank :| Chosen(Candidates(c), Candidate(rank, o));
    var x := Candidate(rank, o);
    ChosenIsThere(Candidates(c), x);
    CandidateReads(c, x);
    NotBeforeStart(c, x);
    AskedFor(c, x);
    assert ValidRequest(r);
    LongAgoPicksNoDay(r);
  }

  lemma LongAgoPicksNoDay(r: Request)
    requires ValidRequest(r)
    ensures r.longAgo ==> r.opening == NoOpening && r.dayCounts == []
  {
  }

  /** A candidate was asked for. */
  lemma AskedFor(c: Choice, x: Candidate)
    requires ValidChoice(c) && x in Candidates(c)
    ensures match x.o.code
            case DayCode(n) => Picked(c, n)
            case MonthCode(_) => c.monthlyMonths > 0
            case YearCode(_) => c.yearlyYears > 0
            case ParabCode(mah, _) => c.parabs.Some? && (c.parabs.value == FravardinAndTir ==> mah == 1 || mah == 4)
            case FravRojCode(_, _) => c.fravardinRojMonths > 0
            case BirthdayCode(_) =>
              c.birthday.Some? && x.o.roj == Some(c.birthday.value.0) && x.o.mah == Some(c.birthday.value.1)
  {
    hide Candidates, FirstK, ReadsItsDate, ParsiToGregorian, ROJ_NAMES, MAH_NAMES, FromSeries, FromEntry;
    CandidateReads(c, x);
    match x.o.code
    case DayCode(n) => var o := PickedDayIsThere(c, n);
    case MonthCode(k) => PlainSeriesOnly(c, true, k, x);
    case YearCode(k) => PlainSeriesOnly(c, false, k, x);
    case FravRojCode(_, _) =>
      var out := RojFravardinsAreTheNext(c);
      RankAndCode(c, x);
      assert x == Candidate(5, x.o);
    case _ =>
  }

  /** No two monthly observances of a plan are as many months apart as were asked for, and no two yearly ones as many years. */
  lemma NoMoreThanAsked(system: CalendarSystem, r: Request, today: int, o: Observance, p: Observance)
    requires Plan(system, r, today).Ok? && o in Plan(system, r, today).value && p in Plan(system, r, today).value
    ensures o.code.MonthCode? && p.code.MonthCode? ==> r.monthlyMonths.Some? && p.code.k - o.code.k < r.monthlyMonths.value
    ensures o.code.YearCode? && p.code.YearCode? ==> r.yearlyYears.Some? && p.code.k - o.code.k < r.yearlyYears.value
  {
    hide ValidRequest, DeathDay, Candidates, Schedule, Chosen, FirstK, StoredDeath, ValidChoice;
    PlanIsSchedule(system, r, today);
    var c := ToChoice(system, r, DeathDay(system, r, today).value, today);
    ScheduleKeepsTheBest(c);
    var rank1 :| Chosen(Candidates(c), Candidate(rank1, o));
    var rank2 :| Chosen(Candidates(c), Candidate(rank2, p));
    ChosenIsThere(Candidates(c), Candidate(rank1, o));
    ChosenIsThere(Candidates(c), Candidate(rank2, p));
    if o.code.MonthCode? && p.code.MonthCode? {
      PlainSeriesOnly(c, true, o.code.k, Candidate(rank1, o));
      PlainSeriesOnly(c, true, p.code.k, Candidate(rank2, p));
    }
    if o.code.YearCode? && p.code.YearCode? {
      PlainSeriesOnly(c, false, o.code.k, Candidate(rank1, o));
      PlainSeriesOnly(c, false, p.code.k, Candidate(rank2, p));
    }
  }

  /** A length that was given is at least one and no more than allowed. */
  predicate Within(given: Option<int>, most: int) {
    given.None? || (1 <= given.value && given.value <= most)
  }

  /**
   A plan is refused exactly when a length is out of bounds, Parabs or a birthday lack theirs or have one too many, days
   are picked for a death of long ago, the death has no day, the schedule is refused, or it is empty or longer than 2500.
   */
  lemma PlanRefusedExactly(system: CalendarSystem, r: Request, today: int)
    ensures var fits :=
              && Within(r.monthlyMonths, 1200) && Within(r.yearlyYears, 100) && Within(r.fravardinRojMonths, 1200)
              && Within(r.parabYears, 100) && Within(r.parabCount, 1200) && Within(r.birthdayYears, 100)
              && (r.parabs.Some? ==> r.parabYears.Some? != r.parabCount.Some?)
              && (r.parabs.None? ==> r.parabYears.None? && r.parabCount.None?)
              && r.birthday.Some? == r.birthdayYears.Some?
              && (r.birthday.Some? ==> 1 <= r.birthday.value.0 <= 30 && 1 <= r.birthday.value.1 <= 12)
              && (r.longAgo ==> r.opening == NoOpening && r.dayCounts == []);
            Plan(system, r, today).Ok? <==>
              && fits && DeathDay(system, r, today).Ok?
              && var schedule := Schedule(ToChoice(system, r, DeathDay(system, r, today).value, today));
                 schedule.Ok? && 1 <= |schedule.value| && |schedule.value| <= 2500
  {
    hide DeathDay, Schedule;
  }
}
