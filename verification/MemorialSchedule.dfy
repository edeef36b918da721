/**
 The whole schedule of a memorial: what the family chose, claimed key by key so that two names for
 one day are one entry, resolved to dates, merged with the Parab, Roj Fravardin and birthday series,
 and cut down to one observance a date by rank.
 */
module MemorialSchedule {
  import opened Results
  import opened Engine
  import opened RojMahCount
  import opened MemorialSeries
  import opened MemorialObservances

  const FIRST_VALID_LIMIT := 100000

  datatype Opening = DaysOneToTen | TenthOnly | NoOpening | DaysFiveToNine

  datatype ParabKind = EveryParab | FravardinAndTir

  datatype Choice = Choice(
    death: Death, system: CalendarSystem, opening: Opening, dayCounts: seq<int>,
    monthlyMonths: int, yearlyYears: int,
    parabs: Option<ParabKind>, parabYears: int, parabCount: int,
    birthday: Option<(int, int)>, birthdayYears: int,
    fravardinRojMonths: int, startFrom: Option<int>, plainLabels: bool)

  /** What a chosen day IS: a literal day, the k-th monthly, the k-th yearly, or a Deci. */
  datatype Key = Lit(n: int) | M(k: int) | Y(k: int) | DeciKey(n: int)

  datatype Entry = Entry(key: Key, code: Code, title: Label)

  datatype Candidate = Candidate(rank: int, o: Observance)

  // --- Validation ---

  predicate IsNamedDay(n: int) {
    n == 10 || n == 29 || n == 30 || n == 59 || n == 60 || n == 179 || n == 180 || n == 359 || n == 360
  }

  predicate ValidBirthday(birthday: (int, int)) {
    1 <= birthday.1 <= 12 && 1 <= birthday.0 <= 30
  }

  /** Every check made before anything is counted. */
  predicate ValidChoice(c: Choice) {
    && (forall n :: n in c.dayCounts ==> IsNamedDay(n))
    && c.monthlyMonths >= 0 && c.yearlyYears >= 0 && c.parabYears >= 0 && c.fravardinRojMonths >= 0
    && c.parabCount >= 0
    && !(c.parabs.Some? && c.parabYears != 0 && c.parabCount != 0)
    && !(c.parabs.Some? && c.parabYears < 1 && c.parabCount < 1)
    && (c.birthday.Some? ==> ValidBirthday(c.birthday.value) && c.birthdayYears >= 1)
    && DeathDate(c.system, c.death).Ok?
  }

  // --- What a key stands for ---

  predicate IsGatha(death: Death) {
    death.mah == GATHA_MAH
  }

  /** By Roj and Mah the 12th monthly is the first yearly; after a Gatha death it is not. */
  function CanonMonth(death: Death, k: int): Key {
    if !IsGatha(death) && k % 12 == 0 then Y(k / 12) else M(k)
  }

  function NamedKey(death: Death, n: int): Key {
    match n
    case 10 => Lit(10)
    case 30 => CanonMonth(death, 1)
    case 60 => CanonMonth(death, 2)
    case 180 => CanonMonth(death, 6)
    case 360 => Y(1)
    case _ => DeciKey(n)
  }

  function NamedTitle(n: int): Label {
    match n
    case 10 => Dasmi
    case 30 => Masiso
    case 60 => Bamsi
    case 180 => Chamsi
    case 360 => Varsi
    case _ => Deci
  }

  /** The day a Deci comes before. */
  function DeciTarget(death: Death, n: int): Key {
    if n == 29 then NamedKey(death, 30)
    else if n == 59 then NamedKey(death, 60)
    else if n == 179 then NamedKey(death, 180)
    else NamedKey(death, 360)
  }

  /** That Gatha day, or the last one the year does have. */
  function GathaDay(year: int, system: CalendarSystem, gatha: int): Result<int>
    decreases gatha
  {
    if gatha < 1 then ValueError
    else
      var found := ParsiToGregorian(year, system, AskGatha(gatha));
      if found.Ok? then found else GathaDay(year, system, gatha - 1)
  }

  lemma {:induction false} GathaDayIs(year: int, system: CalendarSystem, gatha: int)
    requires 1 <= gatha <= 6
    ensures GathaDay(year, system, gatha) ==
            Ok(Navroze(system, year) + 359 + if gatha <= MaxGatha(system, year) then gatha else MaxGatha(system, year))
    decreases gatha
  {
    hide ParsiToGregorian, Navroze, MaxGatha;
    WritesOut(year, system, AskGatha(gatha));
    YearLength(system, year);
    if gatha > MaxGatha(system, year) {
      GathaDayIs(year, system, gatha - 1);
    }
  }

  function MonthSeries(death: Death): Series
    requires Start(death).Ok?
  {
    EveryMah(if IsGatha(death) then DeathIndex(death) + 1 else DeathIndex(death))
  }

  function OnDate(code: Code, title: Label, dayNumber: int, when: int, system: CalendarSystem): Observance {
    match GregorianToParsi(when, system)
    case RojMah(year, mah, roj) => Observance(code, title, dayNumber, Some(roj), Some(mah), year, when, None)
    case Gatha(year, index) => Observance(code, title, dayNumber, None, None, year, when, Some(index))
  }

  function ByRojAndMah(code: Code, title: Label, dayNumber: int, death: Death, system: CalendarSystem): (o: Observance)
    requires CountFrom(death, dayNumber).Ok?
    ensures o.date == DateOf(system, DeathIndex(death) + dayNumber - 1) && o.code == code && o.title == title
  {
    var (roj, mah, year) := CountFrom(death, dayNumber).value;
    CountFromIndex(death, dayNumber);
    IndexOfParts(DeathIndex(death) + dayNumber - 1);
    DateOfRojMah(system, year, mah, roj);
    Observance(code, title, dayNumber, Some(roj), Some(mah), year,
               ParsiToGregorian(year, system, AskRojMah(mah, roj)).value, None)
  }

  predicate ValidKey(key: Key) {
    match key
    case M(k) => k >= 1
    case Y(k) => k >= 1
    case _ => true
  }

  /** The dated observance a key stands for. */
  function Resolve(c: Choice, key: Key, code: Code, title: Label): Observance
    requires DeathDate(c.system, c.death).Ok? && ValidKey(key)
    decreases if key.DeciKey? then 1 else 0
  {
    var deathDate := DeathDate(c.system, c.death).value;
    var (start, base) := Start(c.death).value;
    match key
    case Lit(n) => OnDate(code, title, n, deathDate + n - 1, c.system)
    case DeciKey(n) =>
      var target := Resolve(c, DeciTarget(c.death, n), code, title);
      OnDate(code, title, target.dayNumber - 1, target.date - 1, c.system)
    case M(k) =>
      if IsGatha(c.death) then
        var mah, year := k % 12 + 1, base + k / 12;
        DateOfRojMah(c.system, year, mah, 1);
        Observance(code, title, (year - base) * CYCLE_DAYS + DAYS_PER_MONTH * (mah - 1) - start + 1,
                   Some(1), Some(mah), year, ParsiToGregorian(year, c.system, AskRojMah(mah, 1)).value, None)
      else ByRojAndMah(code, title, 1 + DAYS_PER_MONTH * k, c.death, c.system)
    case Y(k) =>
      if IsGatha(c.death) then
        GathaDayIs(c.death.year + k, c.system, c.death.roj);
        OnDate(code, title, 1 + CYCLE_DAYS * k, GathaDay(c.death.year + k, c.system, c.death.roj).value, c.system)
      else ByRojAndMah(code, title, 1 + CYCLE_DAYS * k, c.death, c.system)
  }

  /** The date of a key, in terms of the series. */
  function KeyDate(c: Choice, key: Key): int
    requires DeathDate(c.system, c.death).Ok? && ValidKey(key)
    decreases if key.DeciKey? then 1 else 0
  {
    match key
    case Lit(n) => DeathDate(c.system, c.death).value + n - 1
    case DeciKey(n) => KeyDate(c, DeciTarget(c.death, n)) - 1
    case M(k) => OccursOn(c.system, MonthSeries(c.death), k)
    case Y(k) =>
      if IsGatha(c.death) then
        var year := c.death.year + k;
        var most := MaxGatha(c.system, year);
        Navroze(c.system, year) + 359 + (if c.death.roj <= most then c.death.roj else most)
      else OccursOn(c.system, EveryYear(DeathIndex(c.death)), k)
  }

  lemma GathaMonthDate(c: Choice, k: int)
    requires DeathDate(c.system, c.death).Ok? && IsGatha(c.death)
    ensures ParsiToGregorian(Start(c.death).value.1 + k / 12, c.system, AskRojMah(k % 12 + 1, 1))
            == Ok(OccursOn(c.system, MonthSeries(c.death), k))
  {
    hide DateOf, ParsiToGregorian;
    var base := Start(c.death).value.1;
    DateOfRojMah(c.system, base + k / 12, k % 12 + 1, 1);
    assert Index(base + k / 12, k % 12 + 1, 1) == Slot(MonthSeries(c.death), k);
  }

  lemma ResolveMonth(c: Choice, k: int, code: Code, title: Label)
    requires DeathDate(c.system, c.death).Ok? && k >= 1
    ensures var o := Resolve(c, M(k), code, title);
            o.date == KeyDate(c, M(k)) && o.code == code && o.title == title
  {
    hide DateOf, ParsiToGregorian, CountFrom, DeathDate;
    if IsGatha(c.death) {
      GathaMonthDate(c, k);
    }
  }

  lemma ResolveYear(c: Choice, k: int, code: Code, title: Label)
    requires DeathDate(c.system, c.death).Ok? && k >= 1
    ensures var o := Resolve(c, Y(k), code, title);
            o.date == KeyDate(c, Y(k)) && o.code == code && o.title == title
  {
    hide DateOf, Navroze, MaxGatha, GregorianToParsi, ParsiToGregorian, CountFrom, GathaDay;
    if IsGatha(c.death) {
      GathaDayIs(c.death.year + k, c.system, c.death.roj);
    }
  }

  lemma ResolveOnDate(code: Code, title: Label, dayNumber: int, when: int, system: CalendarSystem)
    ensures var o := OnDate(code, title, dayNumber, when, system);
            o.date == when && o.code == code && o.title == title
  {
    hide GregorianToParsi;
  }

  /** Resolving a key gives the date of its series, under the code and title it was claimed with. */
  lemma ResolveDate(c: Choice, key: Key, code: Code, title: Label)
    requires DeathDate(c.system, c.death).Ok? && ValidKey(key)
    ensures var o := Resolve(c, key, code, title);
            o.date == KeyDate(c, key) && o.code == code && o.title == title
  {
    hide DeathDate, OnDate, ByRojAndMah, OccursOn, Navroze, MaxGatha, GathaDay, Start;
    match key
    case Lit(n) =>
      ResolveOnDate(code, title, n, DeathDate(c.system, c.death).value + n - 1, c.system);
    case DeciKey(n) =>
      var target := DeciTarget(c.death, n);
      if target.M? { ResolveMonth(c, target.k, code, title); } else { ResolveYear(c, target.k, code, title); }
      var o := Resolve(c, target, code, title);
      ResolveOnDate(code, title, o.dayNumber - 1, o.date - 1, c.system);
    case M(k) =>
      ResolveMonth(c, k, code, title);
    case Y(k) =>
      ResolveYear(c, k, code, title);
  }

  /** The 12th monthly is the first yearly: one key, one date, whichever way it is reached. */
  lemma CanonSameDate(c: Choice, k: int)
    requires DeathDate(c.system, c.death).Ok? && k >= 1
    ensures ValidKey(CanonMonth(c.death, k))
    ensures KeyDate(c, CanonMonth(c.death, k)) == KeyDate(c, M(k))
  {
    hide DateOf, ParsiToGregorian;
    if !IsGatha(c.death) && k % 12 == 0 {
      assert k == 12 * (k / 12);
      assert Slot(EveryYear(DeathIndex(c.death)), k / 12) == Slot(MonthSeries(c.death), k);
    }
  }

  /** Yearly and monthly dates each grow with k. */
  lemma SeriesDatesIncrease(c: Choice, i: int, j: int)
    requires DeathDate(c.system, c.death).Ok? && 1 <= i < j
    ensures KeyDate(c, M(i)) < KeyDate(c, M(j))
    ensures KeyDate(c, Y(i)) < KeyDate(c, Y(j))
  {
    hide DateOf, Navroze, MaxGatha, ParsiToGregorian, Slot;
    OccursInOrder(c.system, MonthSeries(c.death), i, j);
    if IsGatha(c.death) {
      YearLength(c.system, c.death.year + i);
      YearLength(c.system, c.death.year + j);
      NavrozeApart(c.system, c.death.year + i + 1, c.death.year + j);
    } else {
      OccursInOrder(c.system, EveryYear(DeathIndex(c.death)), i, j);
    }
  }
}
