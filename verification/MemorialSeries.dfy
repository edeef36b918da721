/**
 The series of observances that repeat after a death: Parabs, Roj Fravardin, birthdays, and the
 monthly and yearly days. Each is a strictly increasing run of day indexes ("slots") that comes
 round every 360. Each is listed by scanning a hand-picked number of years; what is proved here is
 that the scan always finds the full number asked for, and that they are the very next ones.
 */
module MemorialSeries {
  import opened Results
  import opened Engine
  import opened RojMahCount

  const GATHA_MAH := 13
  const FRAVARDIN_ROJ := 19

  /** A death as stored: a Roj, a Mah (13 for a Gatha day, then its number in the Roj slot), a year. */
  datatype Death = Death(roj: int, mah: int, year: int)

  /** A stable code for an observance, one constructor for each prefix of the stored string. */
  datatype Code =
    | DayCode(day: int)
    | YearCode(k: int)
    | MonthCode(k: int)
    | ParabCode(mah: int, year: int)
    | FravRojCode(year: int, mah: int)
    | BirthdayCode(year: int)

  datatype Label =
    | DayLabel(n: int) | Dasmi | Deci | Masiso | Bamsi | Chamsi | Varsi
    | YearLabel(k: int) | Yearly | MonthLabel(k: int) | Monthly
    | ParabLabel(mah: int) | RojFravardinLabel | BirthdayLabel

  datatype Observance = Observance(
    code: Code, title: Label, dayNumber: int,
    roj: Option<int>, mah: Option<int>, year: int, date: int, gatha: Option<int>)

  // --- Where counting starts ---

  /** The position in the 360-day cycle and the year of that cycle; a Gatha death sits at -1 of the next. */
  function Start(death: Death): Result<(int, int)> {
    if death.mah == GATHA_MAH then
      if !(1 <= death.roj <= 6) then ValueError else Ok((-1, death.year + 1))
    else if !(1 <= death.mah <= 12) then ValueError
    else if !(1 <= death.roj <= 30) then ValueError
    else Ok((DAYS_PER_MONTH * (death.mah - 1) + (death.roj - 1), death.year))
  }

  /** The date of death; an error for a Gatha day its year does not have. */
  function DeathDate(system: CalendarSystem, death: Death): Result<int> {
    if Start(death).ValueError? then ValueError
    else
      ParsiToGregorian(death.year, system,
        if death.mah == GATHA_MAH then AskGatha(death.roj) else AskRojMah(death.mah, death.roj))
  }

  /** The day `dayNumber` counted by Roj and Mah, as (roj, mah, year); day 1 is the death day. */
  function CountFrom(death: Death, dayNumber: int): Result<(int, int, int)> {
    if dayNumber < 1 then ValueError
    else if Start(death).ValueError? then ValueError
    else if death.mah == GATHA_MAH && dayNumber == 1 then ValueError
    else
      var (start, base) := Start(death).value;
      var steps := start + (dayNumber - 1);
      var within := steps % CYCLE_DAYS;
      Ok((within % DAYS_PER_MONTH + 1, within / DAYS_PER_MONTH + 1, base + steps / CYCLE_DAYS))
  }

  /** The index of the death day; for a Gatha death, of the last Roj and Mah before it. */
  function DeathIndex(death: Death): int
    requires Start(death).Ok?
  {
    CYCLE_DAYS * Start(death).value.1 + Start(death).value.0
  }

  /** Counting day by day is adding to the index, Gatha days skipped. */
  lemma CountFromIndex(death: Death, dayNumber: int)
    requires CountFrom(death, dayNumber).Ok?
    ensures var t := DeathIndex(death) + dayNumber - 1;
            CountFrom(death, dayNumber).value == (IndexRoj(t), IndexMah(t), IndexYear(t))
  {
    var (start, base) := Start(death).value;
    WholeYears(start + (dayNumber - 1), base);
  }

  /** Every day from the first counts, for every death that has a Roj and Mah; after one on a Gatha day, from the second. */
  lemma CountRefusedExactly(death: Death, dayNumber: int)
    ensures CountFrom(death, dayNumber).Ok? <==>
              if death.mah == 13 then 1 <= death.roj <= 6 && dayNumber >= 2
              else 1 <= death.mah <= 12 && 1 <= death.roj <= 30 && dayNumber >= 1
  {
  }

  /** Adding whole years changes neither the Roj nor the Mah. */
  lemma WholeYears(t: int, years: int)
    ensures (CYCLE_DAYS * years + t) % CYCLE_DAYS == t % CYCLE_DAYS
    ensures (CYCLE_DAYS * years + t) / CYCLE_DAYS == years + t / CYCLE_DAYS
  {
  }

  /** A death day lies at its index, or in the few Gatha days just after it. */
  lemma DeathBetween(system: CalendarSystem, death: Death)
    requires DeathDate(system, death).Ok?
    ensures DateOf(system, DeathIndex(death)) <= DeathDate(system, death).value < DateOf(system, DeathIndex(death) + 1)
    ensures DateOf(system, DeathIndex(death) + 1) <= DeathDate(system, death).value + 7
  {
    hide Navroze, DateOf, ParsiToGregorian, MaxGatha;
    if death.mah == GATHA_MAH {
      WritesOut(death.year, system, AskGatha(death.roj));
      YearLength(system, death.year);
      LastOfYear(system, death.year);
    } else {
      DateOfRojMah(system, death.year, death.mah, death.roj);
      OneStep(system, DeathIndex(death));
    }
  }

  /** The last Roj and Mah of a year, and the first of the next. */
  lemma LastOfYear(system: CalendarSystem, year: int)
    ensures DateOf(system, CYCLE_DAYS * (year + 1) - 1) == Navroze(system, year) + 359
    ensures DateOf(system, CYCLE_DAYS * (year + 1)) == Navroze(system, year + 1)
  {
    hide Navroze;
    assert IndexYear(CYCLE_DAYS * (year + 1) - 1) == year;
    assert IndexYear(CYCLE_DAYS * (year + 1)) == year + 1;
  }

  /** Nothing counted after the death by Roj and Mah comes sooner than its count in real days. */
  lemma AfterDeath(system: CalendarSystem, death: Death, t: int)
    requires DeathDate(system, death).Ok?
    ensures t > DeathIndex(death) <==> DateOf(system, t) > DeathDate(system, death).value
    ensures t > DeathIndex(death) ==> DateOf(system, t) >= DeathDate(system, death).value + (t - DeathIndex(death))
  {
    hide DateOf, ParsiToGregorian;
    DeathBetween(system, death);
    if t > DeathIndex(death) {
      DatesOutrunIndex(system, DeathIndex(death) + 1, t);
    } else {
      DatesOutrunIndex(system, t, DeathIndex(death));
    }
  }

  // --- Series as slots ---

  /** The Roj that shares its name with the Mah; Hormazd for Dae-Dadar. */
  function ParabRoj(mah: int): (roj: int)
    ensures 1 <= roj <= 30
  {
    match mah
    case 1 => 19
    case 2 => 3
    case 3 => 6
    case 4 => 13
    case 5 => 7
    case 6 => 4
    case 7 => 16
    case 8 => 10
    case 9 => 9
    case 10 => 1
    case 11 => 2
    case _ => 5
  }

  datatype Series =
    | AllParabs
    | FravardinTirParabs
    | RojFravardin
    | Birthday(roj: int, mah: int)
    | EveryMah(origin: int)
    | EveryYear(origin: int)

  function PerYear(s: Series): nat {
    match s
    case FravardinTirParabs => 2
    case Birthday(_, _) => 1
    case EveryYear(_) => 1
    case _ => 12
  }

  /** The index of the j-th member of a series, for every integer j. */
  function Slot(s: Series, j: int): int {
    match s
    case AllParabs => DAYS_PER_MONTH * j + ParabRoj(j % 12 + 1) - 1
    case FravardinTirParabs => CYCLE_DAYS * (j / 2) + (if j % 2 == 0 then 18 else 102)
    case RojFravardin => DAYS_PER_MONTH * j + FRAVARDIN_ROJ - 1
    case Birthday(roj, mah) => Index(j, mah, roj)
    case EveryMah(origin) => origin + DAYS_PER_MONTH * j
    case EveryYear(origin) => origin + CYCLE_DAYS * j
  }

  lemma SlotIncreases(s: Series, j: int)
    ensures Slot(s, j) < Slot(s, j + 1)
  {
    hide ParabRoj;
  }

  /** After a year's worth of members a series is 360 on. */
  lemma SlotPeriod(s: Series, j: int)
    ensures Slot(s, j + PerYear(s)) == Slot(s, j) + CYCLE_DAYS
  {
    hide ParabRoj;
    if s == AllParabs {
      assert (j + 12) % 12 == j % 12;
    } else if s == FravardinTirParabs {
      assert (j + 2) / 2 == j / 2 + 1;
    }
  }

  lemma {:induction false} SlotOrder(s: Series, i: int, j: int)
    ensures i < j <==> Slot(s, i) < Slot(s, j)
    ensures i <= j ==> Slot(s, j) - Slot(s, i) >= j - i
    decreases if i < j then j - i else i - j
  {
    hide Slot;
    if i < j {
      SlotOrder(s, i, j - 1);
      SlotIncreases(s, j - 1);
    } else if j < i {
      SlotOrder(s, j, i - 1);
      SlotIncreases(s, i - 1);
    }
  }

  lemma {:induction false} SlotYears(s: Series, j: int, years: nat)
    ensures Slot(s, j + PerYear(s) * years) == Slot(s, j) + CYCLE_DAYS * years
    decreases years
  {
    hide Slot;
    if years > 0 {
      SlotYears(s, j, years - 1);
      SlotPeriod(s, j + PerYear(s) * (years - 1));
      assert j + PerYear(s) * (years - 1) + PerYear(s) == j + PerYear(s) * years;
    }
  }

  function OccursOn(system: CalendarSystem, s: Series, j: int): int {
    DateOf(system, Slot(s, j))
  }

  lemma OccursInOrder(system: CalendarSystem, s: Series, i: int, j: int)
    ensures i < j <==> OccursOn(system, s, i) < OccursOn(system, s, j)
  {
    hide Slot, DateOf;
    SlotOrder(s, i, j);
    DateOrder(system, Slot(s, i), Slot(s, j));
  }

  predicate IsFirstAfter(s: Series, t: int, first: int) {
    Slot(s, first - 1) <= t < Slot(s, first)
  }

  /** Looking up or down from `j` for the first slot after an index. */
  lemma {:induction false} FirstAfterExists(s: Series, t: int, j: int)
    ensures exists first :: IsFirstAfter(s, t, first)
    decreases if Slot(s, j) <= t then t - Slot(s, j) + 1
              else if Slot(s, j - 1) > t then Slot(s, j - 1) - t + 1
              else 0
  {
    hide Slot;
    SlotIncreases(s, j);
    SlotIncreases(s, j - 2);
    if Slot(s, j) <= t {
      FirstAfterExists(s, t, j + 1);
    } else if Slot(s, j - 1) > t {
      FirstAfterExists(s, t, j - 1);
    } else {
      assert IsFirstAfter(s, t, j);
    }
  }

  /** The first slot after an index. */
  ghost function FirstAfter(s: Series, t: int): (first: int)
    ensures IsFirstAfter(s, t, first)
  {
    FirstAfterExists(s, t, 0);
    var first :| IsFirstAfter(s, t, first);
    first
  }

  predicate IsFirstOn(system: CalendarSystem, s: Series, j: int, date: int, first: int) {
    && first >= j && OccursOn(system, s, first) >= date
    && (first > j ==> OccursOn(system, s, first - 1) < date)
  }

  lemma {:induction false} FirstOnExists(system: CalendarSystem, s: Series, j: int, k: int, date: int)
    requires j <= k && (k > j ==> OccursOn(system, s, k - 1) < date)
    ensures exists first :: IsFirstOn(system, s, j, date, first)
    decreases date - OccursOn(system, s, k)
  {
    hide OccursOn;
    if OccursOn(system, s, k) >= date {
      assert IsFirstOn(system, s, j, date, k);
    } else {
      OccursInOrder(system, s, k, k + 1);
      FirstOnExists(system, s, j, k + 1, date);
    }
  }

  /** The first slot from `j` on that does not come before `date`. */
  ghost function FirstOn(system: CalendarSystem, s: Series, j: int, date: int): (first: int)
    ensures IsFirstOn(system, s, j, date, first)
  {
    FirstOnExists(system, s, j, j, date);
    var first :| IsFirstOn(system, s, j, date, first);
    first
  }

  /** The first member of a series after the death, and not before `startFrom` if that is given. */
  ghost function FirstKept(system: CalendarSystem, death: Death, s: Series, startFrom: Option<int>): int
    requires Start(death).Ok?
  {
    var j := FirstAfter(s, DeathIndex(death));
    if startFrom.Some? then FirstOn(system, s, j, startFrom.value) else j
  }

  /** Being kept: after the death, and not before `startFrom`. */
  predicate Kept(system: CalendarSystem, death: Death, startFrom: Option<int>, date: int)
    requires DeathDate(system, death).Ok?
  {
    date > DeathDate(system, death).value && (startFrom.Some? ==> date >= startFrom.value)
  }

  /** From `FirstKept` on, and only from there, the members of a series are kept. */
  lemma FirstKeptIsFirst(system: CalendarSystem, death: Death, s: Series, startFrom: Option<int>, j: int)
    requires DeathDate(system, death).Ok?
    ensures j >= FirstKept(system, death, s, startFrom) <==> Kept(system, death, startFrom, OccursOn(system, s, j))
  {
    hide Slot, DateOf, ParsiToGregorian, DeathIndex;
    var j0 := FirstAfter(s, DeathIndex(death));
    var j1 := FirstKept(system, death, s, startFrom);
    AfterDeath(system, death, Slot(s, j));
    SlotOrder(s, j0, j);
    SlotOrder(s, j, j0 - 1);
    OccursInOrder(system, s, j, j1);
    OccursInOrder(system, s, j1 - 1, j);
  }

  // --- The scan widths ---

  /** How many extra years a late start scans for. */
  function Gone(system: CalendarSystem, death: Death, startFrom: Option<int>): int
    requires DeathDate(system, death).Ok?
  {
    if startFrom.None? then 0
    else
      var years := (startFrom.value - DeathDate(system, death).value) / CYCLE_DAYS + 1;
      if years < 0 then 0 else years
  }

  /** `gone` years of slots always cover everything that has passed before `startFrom`. */
  lemma GoneCovers(system: CalendarSystem, death: Death, s: Series, startFrom: Option<int>)
    requires DeathDate(system, death).Ok?
    ensures Gone(system, death, startFrom) >= 0
    ensures FirstAfter(s, DeathIndex(death)) <= FirstKept(system, death, s, startFrom)
    ensures FirstKept(system, death, s, startFrom)
            <= FirstAfter(s, DeathIndex(death)) + PerYear(s) * Gone(system, death, startFrom)
  {
    hide Slot, DateOf, ParsiToGregorian, DeathIndex;
    var j0 := FirstAfter(s, DeathIndex(death));
    var gone := Gone(system, death, startFrom);
    if startFrom.Some? {
      var j := j0 + PerYear(s) * gone;
      SlotYears(s, j0, gone);
      AfterDeath(system, death, Slot(s, j));
      FirstKeptIsFirst(system, death, s, startFrom, j);
    }
  }
}
