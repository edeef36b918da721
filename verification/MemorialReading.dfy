/**
 What a schedule tells a family, in the calendar's own terms: which day each observance is, under which Roj and Mah,
 by which title, and which of them the family gets for what it picked.
 */
module MemorialReading {
  import opened Results
  import opened Engine
  import opened RojMahCount
  import opened MemorialSeries
  import opened MemorialObservances
  import opened MemorialSchedule
  import opened MemorialClaims
  import opened MemorialBuild
  import opened MemorialPromises

  const ROJ_NAMES: seq<string> := [
    "Hormazd", "Bahman", "Ardibehesht", "Shahrevar", "Aspandard", "Khordad", "Amardad", "Dae-Pa-Adar", "Adar", "Avan",
    "Khorshed", "Mohor", "Tir", "Gosh", "Dae-Pa-Meher", "Meher", "Sarosh", "Rashne", "Fravardin", "Behram", "Ram",
    "Govad", "Dae-Pa-Din", "Din", "Ashishvangh", "Ashtad", "Asman", "Zamyad", "Mareshpand", "Aneran"]

  const MAH_NAMES: seq<string> := [
    "Fravardin", "Ardibehesht", "Khordad", "Tir", "Amardad", "Shahrevar", "Meher", "Avan", "Adar", "Dae-Dadar",
    "Bahman", "Aspandard"]

  /** The Roj that shares its name with the Mah; Hormazd in Dae-Dadar, which no Roj is called. */
  predicate IsParabDay(roj: int, mah: int) {
    && 1 <= roj <= 30 && 1 <= mah <= 12
    && if MAH_NAMES[mah - 1] == "Dae-Dadar" then ROJ_NAMES[roj - 1] == "Hormazd" else ROJ_NAMES[roj - 1] == MAH_NAMES[mah - 1]
  }

  // --- What an observance says ---

  /** The observance is on this Roj and Mah, and its date is that day's. */
  predicate OnRojMah(o: Observance, system: CalendarSystem, roj: int, mah: int, year: int) {
    && o.roj == Some(roj) && o.mah == Some(mah) && o.year == year && o.gatha == None
    && ParsiToGregorian(year, system, DayRequest(Some(mah), Some(roj), None)) == Ok(o.date)
  }

  /** The observance is on this Gatha day, or on the last the year has if it has not that one. */
  predicate OnGathaOrLast(o: Observance, system: CalendarSystem, gatha: int, year: int) {
    && o.roj == None && o.mah == None && o.year == year && o.gatha.Some? && o.gatha.value <= gatha
    && ParsiToGregorian(year, system, DayRequest(None, None, o.gatha)) == Ok(o.date)
    && (o.gatha.value < gatha ==> ParsiToGregorian(year, system, DayRequest(None, None, Some(o.gatha.value + 1))) == ValueError)
  }

  /** Roj, Mah, year and Gatha are what the date reads as. */
  predicate ReadsItsDate(o: Observance, system: CalendarSystem) {
    match GregorianToParsi(o.date, system)
    case RojMah(year, mah, roj) => o.roj == Some(roj) && o.mah == Some(mah) && o.year == year && o.gatha == None
    case Gatha(year, index) => o.roj == None && o.mah == None && o.year == year && o.gatha == Some(index)
  }

  /**
   `m` months after the death: the same Roj, that many Mahs on. After a death on a Gatha day, which has no Roj and Mah,
   Roj 1, that many Mahs into the next year.
   */
  predicate MonthsAfter(c: Choice, o: Observance, m: int) {
    if c.death.mah == 13 then
      OnRojMah(o, c.system, 1, m % 12 + 1, c.death.year + 1 + m / 12) && o.dayNumber == 30 * m + 2
    else
      && OnRojMah(o, c.system, c.death.roj, (c.death.mah - 1 + m) % 12 + 1, c.death.year + (c.death.mah - 1 + m) / 12)
      && o.dayNumber == 30 * m + 1
  }

  /** `k` years after the death: the same Roj and Mah, or the same Gatha day. */
  predicate YearsAfter(c: Choice, o: Observance, k: int) {
    && o.dayNumber == 360 * k + 1
    && if c.death.mah == 13 then OnGathaOrLast(o, c.system, c.death.roj, c.death.year + k)
       else OnRojMah(o, c.system, c.death.roj, c.death.mah, c.death.year + k)
  }

  predicate DayBefore(o: Observance, p: Observance) {
    o.date == p.date - 1 && o.dayNumber == p.dayNumber - 1
  }

  /** The day the named day `n` falls on: one, two, six and twelve months after, and the day before each. */
  ghost predicate OnNamedDay(c: Choice, o: Observance, n: int) {
    match n
    case 30 => MonthsAfter(c, o, 1)
    case 60 => MonthsAfter(c, o, 2)
    case 180 => MonthsAfter(c, o, 6)
    case 360 => YearsAfter(c, o, 1)
    case 29 => exists p :: MonthsAfter(c, p, 1) && DayBefore(o, p)
    case 59 => exists p :: MonthsAfter(c, p, 2) && DayBefore(o, p)
    case 179 => exists p :: MonthsAfter(c, p, 6) && DayBefore(o, p)
    case 359 => exists p :: YearsAfter(c, p, 1) && DayBefore(o, p)
    case _ => false
  }

  /** Counting by Roj and Mah, the death day being day 1; a Gatha death counts from just before the next year. */
  function CountedDay(death: Death, roj: int, mah: int, year: int): int {
    if death.mah == 13 then 360 * (year - death.year - 1) + 30 * (mah - 1) + roj + 1
    else 360 * (year - death.year) + 30 * (mah - death.mah) + (roj - death.roj) + 1
  }

  predicate CountedOn(c: Choice, o: Observance, roj: int, mah: int, year: int) {
    OnRojMah(o, c.system, roj, mah, year) && o.dayNumber == CountedDay(c.death, roj, mah, year)
  }

  /** The day its code says. */
  ghost predicate OnItsDay(c: Choice, o: Observance)
    requires DeathDate(c.system, c.death).Ok?
  {
    match o.code
    case DayCode(n) =>
      if 1 <= n <= 10 then o.date == DeathDate(c.system, c.death).value + n - 1 && o.dayNumber == n else OnNamedDay(c, o, n)
    case MonthCode(k) => k >= 1 && MonthsAfter(c, o, k)
    case YearCode(k) => k >= 1 && YearsAfter(c, o, k)
    case ParabCode(mah, year) =>
      && o.roj.Some? && IsParabDay(o.roj.value, mah) && CountedOn(c, o, o.roj.value, mah, year)
      && c.parabs.Some? && (c.parabs.value == FravardinAndTir ==> mah == 1 || mah == 4)
    case FravRojCode(year, mah) => ROJ_NAMES[18] == "Fravardin" && CountedOn(c, o, 19, mah, year)
    case BirthdayCode(year) => c.birthday.Some? && CountedOn(c, o, c.birthday.value.0, c.birthday.value.1, year)
  }

  function TitleOf(plainLabels: bool, code: Code): Label {
    match code
    case DayCode(n) =>
      if n == 10 then Dasmi else if n == 30 then Masiso else if n == 60 then Bamsi else if n == 180 then Chamsi
      else if n == 360 then Varsi else if n < 10 then DayLabel(n) else Deci
    case YearCode(k) => if plainLabels then Yearly else YearLabel(k)
    case MonthCode(k) => if plainLabels then Monthly else MonthLabel(k)
    case ParabCode(mah, _) => ParabLabel(mah)
    case FravRojCode(_, _) => RojFravardinLabel
    case BirthdayCode(_) => BirthdayLabel
  }

  /** Which wins on a shared date, lower first: opening days, yearly, monthly, Deci, Parab, Roj Fravardin, birthday. */
  function RankOf(death: Death, code: Code): int {
    match code
    case DayCode(n) => if n <= 10 then 0 else if n == 360 then 1 else if n == 30 || n == 60 || n == 180 then 2 else 3
    case YearCode(_) => 1
    case MonthCode(k) => if death.mah != 13 && k % 12 == 0 then 1 else 2
    case ParabCode(_, _) => 4
    case FravRojCode(_, _) => 5
    case BirthdayCode(_) => 6
  }

  // --- Keys, resolved ---

  lemma OnReading(code: Code, title: Label, dayNumber: int, when: int, system: CalendarSystem)
    ensures var o := OnDate(code, title, dayNumber, when, system);
            ReadsItsDate(o, system) && o.date == when && o.dayNumber == dayNumber
  {
    hide GregorianToParsi;
  }

  lemma RojMahReading(o: Observance, system: CalendarSystem, roj: int, mah: int, year: int)
    requires OnRojMah(o, system, roj, mah, year)
    ensures ReadsItsDate(o, system)
  {
    hide GregorianToParsi;
    HasDate(system, RojMah(year, mah, roj));
    ParsiRoundTrip(system, RojMah(year, mah, roj));
  }

  /** Thirty a month on the count is the same Roj, so many Mahs on. */
  lemma MonthsOn(year: int, mah: int, roj: int, m: int)
    requires 1 <= mah <= 12 && 1 <= roj <= 30
    ensures var t := Index(year, mah, roj) + 30 * m;
            IndexRoj(t) == roj && IndexMah(t) == (mah - 1 + m) % 12 + 1 && IndexYear(t) == year + (mah - 1 + m) / 12
  {
    IndexParts(year + (mah - 1 + m) / 12, (mah - 1 + m) % 12 + 1, roj);
  }

  lemma ByCount(c: Choice, code: Code, title: Label, m: int)
    requires DeathDate(c.system, c.death).Ok? && c.death.mah != 13 && m >= 1
    ensures MonthsAfter(c, ByRojAndMah(code, title, 1 + DAYS_PER_MONTH * m, c.death, c.system), m)
  {
    hide ParsiToGregorian, DateOf;
    var o := ByRojAndMah(code, title, 1 + DAYS_PER_MONTH * m, c.death, c.system);
    CountFromIndex(c.death, 1 + DAYS_PER_MONTH * m);
    MonthsOn(c.death.year, c.death.mah, c.death.roj, m);
    assert DeathIndex(c.death) == Index(c.death.year, c.death.mah, c.death.roj);
    DateOfRojMah(c.system, o.year, o.mah.value, o.roj.value);
  }

  lemma MonthKey(c: Choice, k: int, code: Code, title: Label)
    requires DeathDate(c.system, c.death).Ok? && k >= 1
    ensures var o := Resolve(c, M(k), code, title); MonthsAfter(c, o, k) && ReadsItsDate(o, c.system)
  {
    hide ParsiToGregorian, GregorianToParsi, DateOf, ByRojAndMah;
    var o := Resolve(c, M(k), code, title);
    if c.death.mah == 13 {
      DateOfRojMah(c.system, c.death.year + 1 + k / 12, k % 12 + 1, 1);
      RojMahReading(o, c.system, 1, k % 12 + 1, c.death.year + 1 + k / 12);
    } else {
      ByCount(c, code, title, k);
      RojMahReading(o, c.system, o.roj.value, o.mah.value, o.year);
    }
  }

  lemma YearKey(c: Choice, k: int, code: Code, title: Label)
    requires DeathDate(c.system, c.death).Ok? && k >= 1
    ensures var o := Resolve(c, Y(k), code, title); YearsAfter(c, o, k) && ReadsItsDate(o, c.system)
    ensures c.death.mah != 13 ==> MonthsAfter(c, Resolve(c, Y(k), code, title), 12 * k)
  {
    hide ParsiToGregorian, GregorianToParsi, DateOf, ByRojAndMah, GathaDay;
    var o := Resolve(c, Y(k), code, title);
    if c.death.mah == 13 {
      GathaYearKey(c, k, code, title);
    } else {
      ByCount(c, code, title, 12 * k);
      RojMahReading(o, c.system, o.roj.value, o.mah.value, o.year);
      WholeTwelves(c.death.mah - 1, k);
    }
  }

  lemma WholeTwelves(a: int, k: int)
    requires 0 <= a < 12
    ensures (a + 12 * k) % 12 == a && (a + 12 * k) / 12 == k
  {
  }

  lemma GathaYearKey(c: Choice, k: int, code: Code, title: Label)
    requires DeathDate(c.system, c.death).Ok? && k >= 1 && c.death.mah == 13
    ensures var o := Resolve(c, Y(k), code, title); YearsAfter(c, o, k) && ReadsItsDate(o, c.system)
  {
    hide ParsiToGregorian, GregorianToParsi, GathaDay, Navroze, MaxGatha;
    var year := c.death.year + k;
    var most := MaxGatha(c.system, year);
    var g := if c.death.roj <= most then c.death.roj else most;
    GathaDayIs(year, c.system, c.death.roj);
    YearLength(c.system, year);
    HasDate(c.system, Gatha(year, g));
    HasDate(c.system, Gatha(year, g + 1));
    ParsiRoundTrip(c.system, Gatha(year, g));
    OnReading(code, title, 1 + CYCLE_DAYS * k, Navroze(c.system, year) + 359 + g, c.system);
  }

  /** A key resolved is on the day its code says, and says what its date reads as. */
  lemma KeyReads(c: Choice, e: Entry)
    requires ValidChoice(c) && FromClaims(c, e)
    requires e.code.DayCode? && !(1 <= e.code.day <= 10) ==> IsNamedDay(e.code.day)
    requires (e.code.YearCode? || e.code.MonthCode?) ==> e.code.k >= 1
    ensures var o := Resolve(c, e.key, e.code, e.title);
            OnItsDay(c, o) && ReadsItsDate(o, c.system) && o.code == e.code && o.title == e.title
    ensures Rank(e.key) == RankOf(c.death, e.code)
  {
    hide Resolve, MonthsAfter, YearsAfter, ReadsItsDate, DeathDate;
    ResolveDate(c, e.key, e.code, e.title);
    match e.code
    case DayCode(n) =>
      if 1 <= n <= 10 {
        LiteralKey(c, n, e.code, e.title);
      } else if n == 360 {
        YearKey(c, 1, e.code, e.title);
      } else if n == 30 || n == 60 || n == 180 {
        MonthKey(c, if n == 30 then 1 else if n == 60 then 2 else 6, e.code, e.title);
      } else {
        DeciKeyReads(c, n, e.code, e.title);
      }
    case YearCode(k) => YearKey(c, k, e.code, e.title);
    case MonthCode(k) =>
      if c.death.mah != 13 && k % 12 == 0 {
        YearKey(c, k / 12, e.code, e.title);
        assert 12 * (k / 12) == k;
      } else {
        MonthKey(c, k, e.code, e.title);
      }
  }

  lemma LiteralKey(c: Choice, n: int, code: Code, title: Label)
    requires DeathDate(c.system, c.death).Ok?
    ensures var o := Resolve(c, Lit(n), code, title);
            o.date == DeathDate(c.system, c.death).value + n - 1 && o.dayNumber == n && ReadsItsDate(o, c.system)
  {
    hide DeathDate, OnDate, ReadsItsDate;
    OnReading(code, title, n, DeathDate(c.system, c.death).value + n - 1, c.system);
  }

  lemma DeciKeyReads(c: Choice, n: int, code: Code, title: Label)
    requires DeathDate(c.system, c.death).Ok? && (n == 29 || n == 59 || n == 179 || n == 359)
    ensures var o := Resolve(c, DeciKey(n), code, title); OnNamedDay(c, o, n) && ReadsItsDate(o, c.system)
  {
    hide DeathDate, OnDate, ReadsItsDate, MonthsAfter, YearsAfter;
    var target := DeciTarget(c.death, n);
    var p := Resolve(c, target, code, title);
    OnReading(code, title, p.dayNumber - 1, p.date - 1, c.system);
    if n == 359 {
      YearKey(c, 1, code, title);
    } else {
      MonthKey(c, if n == 29 then 1 else if n == 59 then 2 else 6, code, title);
    }
    assert DayBefore(Resolve(c, DeciKey(n), code, title), p);
  }

  // --- What is picked is what is claimed ---

  /** The family picked day `n`: with the opening, or by itself. */
  predicate Picked(c: Choice, n: int) {
    || (c.opening == DaysOneToTen && 1 <= n <= 10)
    || (c.opening == DaysFiveToNine && 5 <= n <= 9)
    || (c.opening == TenthOnly && n == 10)
    || n in c.dayCounts
  }

  predicate IsDayEntry(c: Choice, e: Entry) {
    e.code.DayCode? && Picked(c, e.code.day) && e.key == KeyOfCode(c.death, e.code) && e.title == TitleOf(c.plainLabels, e.code)
  }

  lemma OpeningExactly(c: Choice)
    requires forall n :: n in c.dayCounts ==> IsNamedDay(n)
    ensures DistinctKeys(OpeningEntries(c))
    ensures forall e :: e in OpeningEntries(c) <==> e.code.DayCode? && IsDayEntry(c, e) && e.code.day <= 10
  {
    hide ClaimAll, Assign, IsDayEntry;
    OpeningEntriesAre(c);
    var days, tenth := OpeningDays(c), Entry(Lit(10), DayCode(10), Dasmi);
    ClaimAllIs([], days);
    var opening := ClaimAll([], days);
    if TenthWanted(c) {
      AssignIs(opening, tenth);
    }
    forall e
      ensures e in OpeningEntries(c) <==> e.code.DayCode? && IsDayEntry(c, e) && e.code.day <= 10
    {
      OpeningDayIs(c, e);
    }
  }

  lemma OpeningDayIs(c: Choice, e: Entry)
    requires forall n :: n in c.dayCounts ==> IsNamedDay(n)
    ensures e.code.DayCode? && IsDayEntry(c, e) && e.code.day <= 10 <==>
              || (TenthWanted(c) && e == Entry(Lit(10), DayCode(10), Dasmi))
              || (e in OpeningDays(c) && !(TenthWanted(c) && e.key == Lit(10)))
  {
    var days := OpeningDays(c);
    assert forall i :: 0 <= i < |days| ==> days[i] in days;
    if e.code.DayCode? && c.opening == DaysOneToTen && 1 <= e.code.day <= 10 {
      assert days[e.code.day - 1] == Entry(Lit(e.code.day), DayCode(e.code.day), DayLabel(e.code.day));
    }
    if e.code.DayCode? && c.opening == DaysFiveToNine && 5 <= e.code.day <= 9 {
      assert days[e.code.day - 5] == Entry(Lit(e.code.day), DayCode(e.code.day), DayLabel(e.code.day));
    }
  }

  lemma PickedDayEntry(c: Choice, e: Entry)
    requires forall n :: n in c.dayCounts ==> IsNamedDay(n)
    ensures e in PickedDays(c, c.dayCounts) <==> e.code.DayCode? && IsDayEntry(c, e) && e.code.day > 10
    ensures e in PickedDays(c, c.dayCounts) ==> !e.key.Lit?
  {
    if e.code.DayCode? && e.code.day in c.dayCounts {
      assert IsNamedDay(e.code.day);
    }
  }

  /** The days claimed by name are exactly those picked, each under its own key and title. */
  lemma NamedExactly(c: Choice)
    requires forall n :: n in c.dayCounts ==> IsNamedDay(n)
    ensures DistinctKeys(NamedEntries(c))
    ensures forall e :: e in NamedEntries(c) <==> IsDayEntry(c, e)
  {
    hide ClaimAll, OpeningEntries, PickedDays, IsDayEntry, NamedKey;
    OpeningExactly(c);
    PickedDaysAre(c);
    ClaimAllIs(OpeningEntries(c), PickedDays(c, c.dayCounts));
    forall e
      ensures e in NamedEntries(c) <==> IsDayEntry(c, e)
    {
      PickedDayEntry(c, e);
      if IsDayEntry(c, e) {
        DayEntryTitle(c, e);
      }
      if e in PickedDays(c, c.dayCounts) && HasKey(OpeningEntries(c), e.key) {
        var f :| f in OpeningEntries(c) && f.key == e.key;
        OpeningIsLit(c, f);
      }
    }
  }

  lemma OpeningIsLit(c: Choice, e: Entry)
    requires e.code.DayCode? && IsDayEntry(c, e) && e.code.day <= 10 && forall n :: n in c.dayCounts ==> IsNamedDay(n)
    ensures e.key.Lit?
  {
  }

  /** Every claim is a day picked, or a member of the series chosen, under its own title. */
  lemma WantedReads(c: Choice, e: Entry)
    requires ValidChoice(c) && e in WantedEntries(c)
    ensures e.title == TitleOf(c.plainLabels, e.code)
    ensures e.code.DayCode? ==> IsDayEntry(c, e)
    ensures (e.code.YearCode? || e.code.MonthCode?) ==> e.code.k >= 1
  {
    hide NamedEntries, FirstK, CanonMonth, ClaimAll, IsDayEntry;
    NamedExactly(c);
    var years := PlainClaims(c, false, FirstK(c, false), c.yearlyYears);
    var months := PlainClaims(c, true, FirstK(c, true), c.monthlyMonths);
    PlainClaimsOneName(c, false, FirstK(c, false), c.yearlyYears);
    PlainClaimsOneName(c, true, FirstK(c, true), c.monthlyMonths);
    ClaimAllIs(NamedEntries(c), years);
    ClaimAllIs(ClaimAll(NamedEntries(c), years), months);
    if e in NamedEntries(c) {
      DayEntryTitle(c, e);
    } else {
      assert e in years || e in months;
    }
  }

  lemma DayEntryTitle(c: Choice, e: Entry)
    requires IsDayEntry(c, e)
    ensures e.code.DayCode? && e.title == TitleOf(c.plainLabels, e.code)
  {
  }

  lemma NamedIsWanted(c: Choice, e: Entry)
    requires ValidChoice(c) && IsDayEntry(c, e)
    ensures e in NamedEntries(c) && e in WantedEntries(c)
  {
    hide NamedEntries, FirstK, CanonMonth, ClaimAll, IsDayEntry;
    NamedExactly(c);
    var years := PlainClaims(c, false, FirstK(c, false), c.yearlyYears);
    PlainClaimsOneName(c, false, FirstK(c, false), c.yearlyYears);
    PlainClaimsOneName(c, true, FirstK(c, true), c.monthlyMonths);
    ClaimAllIs(NamedEntries(c), years);
    ClaimAllIs(ClaimAll(NamedEntries(c), years), PlainClaims(c, true, FirstK(c, true), c.monthlyMonths));
  }

  // --- What the candidates say ---

  lemma EntryReads(c: Choice, x: Candidate, e: Entry)
    requires ValidChoice(c) && FromEntry(c, x, e)
    ensures OnItsDay(c, x.o) && ReadsItsDate(x.o, c.system)
    ensures x.o.title == TitleOf(c.plainLabels, x.o.code) && x.rank == RankOf(c.death, x.o.code)
    ensures x.o.code.DayCode? ==> IsDayEntry(c, e) && x.o.code == e.code
  {
    hide WantedEntries, Resolve, LeftOut, OnItsDay, ReadsItsDate, FromClaims, IsDayEntry;
    WantedReads(c, e);
    if e.code.DayCode? {
      PickedIsNamed(c, e);
    }
    KeyReads(c, e);
  }

  lemma PickedIsNamed(c: Choice, e: Entry)
    requires ValidChoice(c) && IsDayEntry(c, e)
    ensures 1 <= e.code.day <= 10 || IsNamedDay(e.code.day)
  {
  }

  lemma MemberReads(c: Choice, x: Candidate, rank: int, s: Series, n: nat, j: int)
    requires ValidChoice(c) && FromSeries(c, x, rank, s, n, j)
    requires s == RojFravardin || (s == ParabsOf(c) && c.parabs.Some?) || (s == BirthdayOf(c) && c.birthday.Some?)
    ensures OnItsDay(c, x.o) && ReadsItsDate(x.o, c.system) && x.o.title == TitleOf(c.plainLabels, x.o.code)
  {
    hide DateOf, FirstKept, ParsiToGregorian, GregorianToParsi, ROJ_NAMES, MAH_NAMES, ReadsItsDate;
    var o, t := x.o, Slot(s, j);
    var roj, mah, year := IndexRoj(t), IndexMah(t), IndexYear(t);
    IndexOfParts(t);
    DateOfRojMah(c.system, year, mah, roj);
    RojMahReading(o, c.system, roj, mah, year);
    CountsFrom(c.death, t);
    SeriesDay(s, j);
    NamesOfParabs(mah);
    FravardinIsNineteenth();
  }

  lemma FravardinIsNineteenth()
    ensures |ROJ_NAMES| == 30 && ROJ_NAMES[18] == "Fravardin"
  {
  }

  lemma CountsFrom(death: Death, t: int)
    requires Start(death).Ok?
    ensures t - DeathIndex(death) + 1 == CountedDay(death, IndexRoj(t), IndexMah(t), IndexYear(t))
  {
    IndexOfParts(t);
  }

  /** The Roj and Mah a member of a series falls on. */
  lemma SeriesDay(s: Series, j: int)
    requires s == RojFravardin || s.AllParabs? || s.FravardinTirParabs? || (s.Birthday? && ValidBirthday((s.roj, s.mah)))
    ensures var t := Slot(s, j);
            && (s.RojFravardin? ==> IndexRoj(t) == 19)
            && (s.AllParabs? || s.FravardinTirParabs? ==> IndexRoj(t) == ParabRoj(IndexMah(t)))
            && (s.FravardinTirParabs? ==> IndexMah(t) == 1 || IndexMah(t) == 4)
            && (s.Birthday? ==> IndexRoj(t) == s.roj && IndexMah(t) == s.mah)
  {
    match s
    case AllParabs =>
      ParabSlot(true, j / 12, j % 12);
      IndexParts(j / 12, j % 12 + 1, ParabRoj(j % 12 + 1));
    case FravardinTirParabs =>
      assert Slot(s, j) == Index(j / 2, if j % 2 == 0 then 1 else 4, if j % 2 == 0 then 19 else 13);
      IndexParts(j / 2, if j % 2 == 0 then 1 else 4, if j % 2 == 0 then 19 else 13);
    case RojFravardin => IndexParts(j / 12, j % 12 + 1, 19);
    case Birthday(roj, mah) => IndexParts(j, mah, roj);
  }

  /** The Parab of every Mah, by its name. */
  lemma NamesOfParabs(mah: int)
    requires 1 <= mah <= 12
    ensures |ROJ_NAMES| == 30 && |MAH_NAMES| == 12 && IsParabDay(ParabRoj(mah), mah)
  {
  }

  /**
   Every candidate is on the day its code says, under the Roj, Mah, year or Gatha that its date reads as, with its
   day's own title, and at its day's own rank.
   */
  lemma CandidateReads(c: Choice, x: Candidate)
    requires ValidChoice(c) && x in Candidates(c)
    ensures OnItsDay(c, x.o) && ReadsItsDate(x.o, c.system)
    ensures x.o.title == TitleOf(c.plainLabels, x.o.code) && x.rank == RankOf(c.death, x.o.code)
  {
    hide FromEntry, FromSeries, Candidates, OnItsDay, ReadsItsDate;
    CandidatesAre(c, x);
    Kinds(c, x);
    if e :| FromEntry(c, x, e) {
      EntryReads(c, x, e);
    } else if j :| FromSeries(c, x, PARAB_RANK, ParabsOf(c), ParabsAsked(c), j) {
      assert c.parabs.Some? by { NeedsParabs(c, x, j); }
      MemberReads(c, x, PARAB_RANK, ParabsOf(c), ParabsAsked(c), j);
    } else if j :| FromSeries(c, x, FRAVARDIN_ROJ_RANK, RojFravardin, Rojs(c), j) {
      MemberReads(c, x, FRAVARDIN_ROJ_RANK, RojFravardin, Rojs(c), j);
    } else {
      var j :| FromSeries(c, x, BIRTHDAY_RANK, BirthdayOf(c), BirthdaysAsked(c), j);
      NeedsBirthday(c, x, j);
      MemberReads(c, x, BIRTHDAY_RANK, BirthdayOf(c), BirthdaysAsked(c), j);
    }
  }

  lemma NeedsParabs(c: Choice, x: Candidate, i: int)
    requires ValidChoice(c) && FromSeries(c, x, PARAB_RANK, ParabsOf(c), ParabsAsked(c), i)
    ensures c.parabs.Some?
  {
  }

  /** So is every observance of the schedule. */
  lemma ScheduleReads(c: Choice, o: Observance)
    requires Accepted(c) && o in Schedule(c).value
    ensures OnItsDay(c, o) && ReadsItsDate(o, c.system) && o.title == TitleOf(c.plainLabels, o.code)
  {
    hide Candidates, ValidChoice, FirstK, Schedule, Chosen, OnItsDay, ReadsItsDate;
    ScheduleKeepsTheBest(c);
    var rank :| Chosen(Candidates(c), Candidate(rank, o));
    ChosenIsThere(Candidates(c), Candidate(rank, o));
    CandidateReads(c, Candidate(rank, o));
  }

  /**
   Exactly the days picked are candidates, each on its own day: with a start date, those not before it, and without one
   all of them.
   */
  lemma PickedDayIsThere(c: Choice, n: int) returns (o: Observance)
    requires ValidChoice(c)
    ensures Picked(c, n) ==>
              && o.code == DayCode(n) && OnItsDay(c, o)
              && ((c.startFrom.Some? ==> o.date >= c.startFrom.value) <==> Candidate(RankOf(c.death, DayCode(n)), o) in Candidates(c))
    ensures forall x :: x in Candidates(c) && x.o.code == DayCode(n) ==>
              Picked(c, n) && x == Candidate(RankOf(c.death, DayCode(n)), o)
  {
    hide Candidates, OnItsDay, Resolve, WantedEntries, NamedEntries, FromClaims, InSeries, FromEntry, KeyOfCode;
    var code := DayCode(n);
    var e := Entry(KeyOfCode(c.death, code), code, TitleOf(c.plainLabels, code));
    WantedEntriesAre(c);
    if Picked(c, n) {
      assert IsDayEntry(c, e);
      NamedIsWanted(c, e);
      assert FromClaims(c, e);
      assert ValidKey(e.key) by { KeyIsValid(c, e); }
      o := Resolve(c, e.key, e.code, e.title);
      PickedIsNamed(c, e);
      KeyReads(c, e);
      var x := Candidate(RankOf(c.death, code), o);
      LeftOutExactly(c, e);
      if x in Candidates(c) {
        NotBeforeStart(c, x);
      }
      if c.startFrom.Some? ==> o.date >= c.startFrom.value {
        assert FromEntry(c, x, e) by { Enters(c, x, e); }
        CandidatesAre(c, x);
      }
    } else {
      o := *;
    }
    forall x | x in Candidates(c) && x.o.code == code
      ensures Picked(c, n) && x == Candidate(RankOf(c.death, code), o)
    {
      SameDayEntry(c, x, n);
      assert x.o == Resolve(c, e.key, e.code, e.title);
    }
  }

  lemma KeyIsValid(c: Choice, e: Entry)
    requires FromClaims(c, e)
    ensures ValidKey(e.key)
  {
  }

  lemma NotBeforeStart(c: Choice, x: Candidate)
    requires ValidChoice(c) && x in Candidates(c)
    ensures c.startFrom.Some? ==> x.o.date >= c.startFrom.value
  {
    hide Candidates;
    if c.startFrom.Some? {
      NothingBeforeStart(c, x);
    }
  }

  lemma LeftOutExactly(c: Choice, e: Entry)
    requires ValidChoice(c) && ValidKey(e.key)
    ensures (c.startFrom.Some? ==> Resolve(c, e.key, e.code, e.title).date >= c.startFrom.value) ==> !LeftOut(c, e)
  {
    hide Resolve, NamedEntries, InSeries;
  }

  lemma Enters(c: Choice, x: Candidate, e: Entry)
    requires ValidChoice(c) && e in WantedEntries(c) && FromClaims(c, e) && !LeftOut(c, e)
    requires x.rank == Rank(e.key) && x.o == Resolve(c, e.key, e.code, e.title)
    ensures FromEntry(c, x, e)
  {
    hide Resolve, WantedEntries, LeftOut, FromClaims;
  }

  /** A candidate under a day's code comes of that day's own entry. */
  lemma SameDayEntry(c: Choice, x: Candidate, n: int)
    requires ValidChoice(c) && x in Candidates(c) && x.o.code == DayCode(n)
    ensures Picked(c, n) && ValidKey(KeyOfCode(c.death, DayCode(n)))
    ensures x == Candidate(RankOf(c.death, DayCode(n)),
                           Resolve(c, KeyOfCode(c.death, DayCode(n)), DayCode(n), TitleOf(c.plainLabels, DayCode(n))))
  {
    hide Candidates, FromSeries, OnItsDay, Resolve, WantedEntries, LeftOut, KeyOfCode, ReadsItsDate;
    CandidatesAre(c, x);
    Kinds(c, x);
    var e :| FromEntry(c, x, e);
    EntryReads(c, x, e);
    KeyIsValid(c, e);
  }

  // --- How many, and which ---

  /** After the death, and not before the start date if one is given. */
  predicate IsAhead(c: Choice, date: int)
    requires DeathDate(c.system, c.death).Ok?
  {
    date > DeathDate(c.system, c.death).value && (c.startFrom.Some? ==> date >= c.startFrom.value)
  }

  /**
   `out` is what the family gets of one series: so many, in order, all ahead, all candidates of this rank and the only
   ones; and none ahead is passed over.
   */
  ghost predicate AreTheNext(c: Choice, out: seq<Observance>, rank: int, s: Series, n: nat)
    requires ValidChoice(c)
  {
    && |out| == n
    && (forall i, k :: 0 <= i < k < n ==> out[i].date < out[k].date)
    && (forall o :: o in out <==> Candidate(rank, o) in Candidates(c))
    && (forall o :: o in out ==> IsAhead(c, o.date))
    && (forall j :: IsAhead(c, OccursOn(c.system, s, j)) ==>
          (exists o :: o in out && o.date == OccursOn(c.system, s, j)) || forall o :: o in out ==> o.date < OccursOn(c.system, s, j))
  }

  lemma MembersAreTheNext(c: Choice, rank: int, s: Series, n: nat) returns (out: seq<Observance>)
    requires ValidChoice(c)
    requires (rank == PARAB_RANK && s == ParabsOf(c) && n == ParabsAsked(c))
             || (rank == FRAVARDIN_ROJ_RANK && s == RojFravardin && n == Rojs(c))
             || (rank == BIRTHDAY_RANK && s == BirthdayOf(c) && n == BirthdaysAsked(c))
    ensures AreTheNext(c, out, rank, s, n)
  {
    hide Candidates, FromEntry, FromSeries, NextMembers, OccursOn, ObservanceAt;
    out := NextMembers(c.system, c.death, s, c.startFrom, n);
    NextMembersAreNext(c.system, c.death, s, c.startFrom, n);
    forall o
      ensures o in out <==> Candidate(rank, o) in Candidates(c)
    {
      var x := Candidate(rank, o);
      CandidatesAre(c, x);
      RankedSpanIs(c, x, rank, s, n);
      RankedIn(rank, out, o);
      if IsCandidate(c, x) {
        Kinds(c, x);
      }
    }
    forall j | IsAhead(c, OccursOn(c.system, s, j))
      ensures (exists o :: o in out && o.date == OccursOn(c.system, s, j)) || forall o :: o in out ==> o.date < OccursOn(c.system, s, j)
    {
      assert Kept(c.system, c.death, c.startFrom, OccursOn(c.system, s, j));
      MemberDate(c, s, j);
    }
  }

  lemma MemberDate(c: Choice, s: Series, j: int)
    requires Start(c.death).Ok?
    ensures ObservanceAt(c.system, c.death, s, j).date == OccursOn(c.system, s, j)
  {
  }

  lemma RankedIn(rank: int, s: seq<Observance>, o: Observance)
    ensures Candidate(rank, o) in Ranked(rank, s) <==> o in s
  {
    if o in s {
      var i :| 0 <= i < |s| && s[i] == o;
      assert Ranked(rank, s)[i] == Candidate(rank, o);
    }
  }

  /** How many Parabs: the number given, or for each year every Mah's, or Fravardin's and Tir's. */
  function ParabsPromised(c: Choice): int {
    if c.parabs.None? then 0
    else if c.parabCount != 0 then c.parabCount
    else if c.parabs.value == FravardinAndTir then 2 * c.parabYears else 12 * c.parabYears
  }

  /** The next Parabs, as many as promised, and no Parab ahead is passed over. */
  lemma ParabsAreTheNext(c: Choice) returns (out: seq<Observance>)
    requires ValidChoice(c)
    ensures |out| == ParabsPromised(c) && forall i, k :: 0 <= i < k < |out| ==> out[i].date < out[k].date
    ensures forall o :: o in out <==> o.code.ParabCode? && Candidate(4, o) in Candidates(c)
    ensures forall o :: o in out ==> IsAhead(c, o.date)
    ensures forall year, mah, roj, date ::
              c.parabs.Some? && IsParabDay(roj, mah) && (c.parabs.value == FravardinAndTir ==> mah == 1 || mah == 4)
              && ParsiToGregorian(year, c.system, AskRojMah(mah, roj)) == Ok(date) && IsAhead(c, date) ==>
                (exists o :: o in out && o.date == date) || forall o :: o in out ==> o.date < date
  {
    hide Candidates, OccursOn, ParsiToGregorian, IsParabDay, DeathDate;
    out := MembersAreTheNext(c, PARAB_RANK, ParabsOf(c), ParabsAsked(c));
    forall o | o in out
      ensures o.code.ParabCode?
    {
      RankAndCode(c, Candidate(4, o));
    }
    forall year, mah, roj, date |
      c.parabs.Some? && IsParabDay(roj, mah) && (c.parabs.value == FravardinAndTir ==> mah == 1 || mah == 4)
      && ParsiToGregorian(year, c.system, AskRojMah(mah, roj)) == Ok(date) && IsAhead(c, date)
      ensures (exists o :: o in out && o.date == date) || forall o :: o in out ==> o.date < date
    {
      var j := ParabPlace(c, year, mah, roj, date);
      assert IsAhead(c, OccursOn(c.system, ParabsOf(c), j));
    }
  }

  lemma RankAndCode(c: Choice, x: Candidate)
    requires ValidChoice(c) && x in Candidates(c)
    ensures x.rank == 4 <==> x.o.code.ParabCode?
    ensures x.rank == 5 <==> x.o.code.FravRojCode?
    ensures x.rank == 6 <==> x.o.code.BirthdayCode?
  {
    hide Candidates, OnItsDay, ReadsItsDate;
    CandidateReads(c, x);
  }

  lemma ParabPlace(c: Choice, year: int, mah: int, roj: int, date: int) returns (j: int)
    requires c.parabs.Some? && IsParabDay(roj, mah) && (c.parabs.value == FravardinAndTir ==> mah == 1 || mah == 4)
    requires ParsiToGregorian(year, c.system, AskRojMah(mah, roj)) == Ok(date)
    ensures OccursOn(c.system, ParabsOf(c), j) == date
  {
    hide ParsiToGregorian, DateOf, ROJ_NAMES, MAH_NAMES;
    assert 1 <= roj <= 30 && 1 <= mah <= 12 && roj == ParabRoj(mah) by { OneParabRoj(roj, mah); }
    DateOfRojMah(c.system, year, mah, roj);
    var all := c.parabs.value == EveryParab;
    var idx := if all then mah - 1 else if mah == 1 then 0 else 1;
    j := PerYear(ParabsOf(c)) * year + idx;
    ParabSlot(all, year, idx);
  }

  /** A Mah has one Parab. */
  lemma OneParabRoj(roj: int, mah: int)
    requires IsParabDay(roj, mah)
    ensures 1 <= roj <= 30 && 1 <= mah <= 12 && roj == ParabRoj(mah)
  {
    hide ROJ_NAMES, MAH_NAMES;
    NamesOfParabs(mah);
    NamesDiffer(roj, ParabRoj(mah));
  }

  lemma NamesDiffer(i: int, j: int)
    requires 1 <= i <= 30 && 1 <= j <= 30
    ensures |ROJ_NAMES| == 30 && (ROJ_NAMES[i - 1] == ROJ_NAMES[j - 1] ==> i == j)
  {
  }

  /** The next Roj Fravardins, as many as asked, none ahead passed over. */
  lemma RojFravardinsAreTheNext(c: Choice) returns (out: seq<Observance>)
    requires ValidChoice(c)
    ensures |out| == c.fravardinRojMonths && forall i, k :: 0 <= i < k < |out| ==> out[i].date < out[k].date
    ensures forall o :: o in out <==> o.code.FravRojCode? && Candidate(5, o) in Candidates(c)
    ensures forall o :: o in out ==> IsAhead(c, o.date)
    ensures forall year, mah, date ::
              1 <= mah <= 12 && ParsiToGregorian(year, c.system, AskRojMah(mah, 19)) == Ok(date) && IsAhead(c, date) ==>
                (exists o :: o in out && o.date == date) || forall o :: o in out ==> o.date < date
  {
    hide Candidates, OccursOn, ParsiToGregorian, DeathDate;
    out := MembersAreTheNext(c, FRAVARDIN_ROJ_RANK, RojFravardin, Rojs(c));
    forall o | o in out
      ensures o.code.FravRojCode?
    {
      RankAndCode(c, Candidate(5, o));
    }
    forall year, mah, date |
      1 <= mah <= 12 && ParsiToGregorian(year, c.system, AskRojMah(mah, 19)) == Ok(date) && IsAhead(c, date)
      ensures (exists o :: o in out && o.date == date) || forall o :: o in out ==> o.date < date
    {
      DateOfRojMah(c.system, year, mah, 19);
      assert Slot(RojFravardin, 12 * year + mah - 1) == Index(year, mah, 19);
      assert OccursOn(c.system, RojFravardin, 12 * year + mah - 1) == date by { OccursAt(c.system, RojFravardin, 12 * year + mah - 1); }
    }
  }

  lemma OccursAt(system: CalendarSystem, s: Series, j: int)
    ensures OccursOn(system, s, j) == DateOf(system, Slot(s, j))
  {
  }

  /** The next birthdays, as many years as asked, none ahead passed over. */
  lemma BirthdaysAreTheNext(c: Choice) returns (out: seq<Observance>)
    requires ValidChoice(c)
    ensures |out| == (if c.birthday.Some? then c.birthdayYears else 0)
    ensures forall i, k :: 0 <= i < k < |out| ==> out[i].date < out[k].date
    ensures forall o :: o in out <==> o.code.BirthdayCode? && Candidate(6, o) in Candidates(c)
    ensures forall o :: o in out ==> IsAhead(c, o.date)
    ensures c.birthday.Some? ==> forall year, date ::
              ParsiToGregorian(year, c.system, AskRojMah(c.birthday.value.1, c.birthday.value.0)) == Ok(date) && IsAhead(c, date) ==>
                (exists o :: o in out && o.date == date) || forall o :: o in out ==> o.date < date
  {
    hide Candidates, OccursOn, ParsiToGregorian, DeathDate;
    out := MembersAreTheNext(c, BIRTHDAY_RANK, BirthdayOf(c), BirthdaysAsked(c));
    forall o | o in out
      ensures o.code.BirthdayCode?
    {
      RankAndCode(c, Candidate(6, o));
    }
    if c.birthday.Some? {
      var roj, mah := c.birthday.value.0, c.birthday.value.1;
      forall year, date | ParsiToGregorian(year, c.system, AskRojMah(mah, roj)) == Ok(date) && IsAhead(c, date)
        ensures (exists o :: o in out && o.date == date) || forall o :: o in out ==> o.date < date
      {
        DateOfRojMah(c.system, year, mah, roj);
        OccursAt(c.system, BirthdayOf(c), year);
      }
    }
  }

  /**
   The monthly and yearly days, so many from the first not before the start date: each has a candidate on the day that
   many months or years after the death, at the series' own rank or better.
   */
  lemma PlainMemberIsThere(c: Choice, monthly: bool, k: int) returns (o: Observance)
    requires ValidChoice(c) && k >= 1 && SeriesLength(c, monthly) != 0
    ensures if monthly then MonthsAfter(c, o, k) else YearsAfter(c, o, k)
    ensures k >= FirstK(c, monthly) <==> (c.startFrom.Some? ==> o.date >= c.startFrom.value)
    ensures FirstK(c, monthly) <= k < FirstK(c, monthly) + (if monthly then c.monthlyMonths else c.yearlyYears) ==>
              exists x :: x in Candidates(c) && x.o.date == o.date && x.rank <= if monthly then 2 else 1
  {
    hide Candidates, Resolve, FirstK, KeyDate, MonthsAfter, YearsAfter;
    var key, code, title := PlainKey(c, monthly, k), PlainCode(monthly, k), PlainTitle(c, monthly, k);
    CanonSameDate(c, k);
    o := Resolve(c, key, code, title);
    ResolveDate(c, key, code, title);
    PlainSeriesWhole(c, monthly, k);
    if !monthly {
      YearKey(c, k, code, title);
    } else if key.Y? {
      YearKey(c, k / 12, code, title);
      assert 12 * (k / 12) == k;
    } else {
      MonthKey(c, k, code, title);
    }
  }

  // --- What is refused ---

  /** The day of the death exists. */
  predicate DeathExists(system: CalendarSystem, death: Death) {
    if death.mah == 13 then
      1 <= death.roj <= 6 && ParsiToGregorian(death.year, system, DayRequest(None, None, Some(death.roj))).Ok?
    else 1 <= death.mah <= 12 && 1 <= death.roj <= 30
  }

  /** Everything asked for makes sense: days that have a name, no negative number, one length for the Parabs, a real birthday. */
  predicate MakesSense(c: Choice) {
    && (forall n :: n in c.dayCounts ==> n in {10, 29, 30, 59, 60, 179, 180, 359, 360})
    && c.monthlyMonths >= 0 && c.yearlyYears >= 0 && c.parabYears >= 0 && c.parabCount >= 0 && c.fravardinRojMonths >= 0
    && (c.parabs.Some? ==> (c.parabYears >= 1 && c.parabCount == 0) || (c.parabYears == 0 && c.parabCount >= 1))
    && (c.birthday.Some? ==> 1 <= c.birthday.value.0 <= 30 && 1 <= c.birthday.value.1 <= 12 && c.birthdayYears >= 1)
  }

  lemma SensibleIsValid(c: Choice)
    ensures ValidChoice(c) <==> MakesSense(c) && DeathExists(c.system, c.death)
  {
    hide ParsiToGregorian;
    if 1 <= c.death.mah <= 12 && 1 <= c.death.roj <= 30 {
      DateOfRojMah(c.system, c.death.year, c.death.mah, c.death.roj);
    }
    if ValidChoice(c) {
      forall n | n in c.dayCounts
        ensures n in {10, 29, 30, 59, 60, 179, 180, 359, 360}
      {
        assert IsNamedDay(n);
      }
    }
  }

  /** The series begins late enough: by its hundred thousandth day it has reached the start date. */
  ghost predicate InReach(c: Choice, monthly: bool) {
    c.startFrom.Some? && (if monthly then c.monthlyMonths else c.yearlyYears) != 0 ==>
      exists o :: (if monthly then MonthsAfter(c, o, 100000) else YearsAfter(c, o, 100000)) && o.date >= c.startFrom.value
  }

  lemma ReachExactly(c: Choice, monthly: bool)
    requires ValidChoice(c)
    ensures FirstK(c, monthly) <= 100000 <==> InReach(c, monthly)
  {
    hide FirstK, ParsiToGregorian;
    if SeriesLength(c, monthly) != 0 && c.startFrom.Some? {
      var o := PlainMemberIsThere(c, monthly, 100000);
      forall p | if monthly then MonthsAfter(c, p, 100000) else YearsAfter(c, p, 100000)
        ensures p.date == o.date
      {
        if !monthly && c.death.mah == 13 {
          OneGathaDate(c, o, p, 100000);
        }
      }
    } else {
      FromTheFirst(c, monthly);
    }
  }

  lemma FromTheFirst(c: Choice, monthly: bool)
    requires ValidChoice(c) && (c.startFrom.None? || SeriesLength(c, monthly) == 0)
    ensures FirstK(c, monthly) == 1
  {
  }

  lemma OneGathaDate(c: Choice, o: Observance, p: Observance, k: int)
    requires c.death.mah == 13 && YearsAfter(c, o, k) && YearsAfter(c, p, k)
    ensures o.date == p.date
  {
    hide ParsiToGregorian, Navroze, MaxGatha;
    var year := c.death.year + k;
    HasDate(c.system, Gatha(year, o.gatha.value));
    HasDate(c.system, Gatha(year, p.gatha.value));
    HasDate(c.system, Gatha(year, o.gatha.value + 1));
    HasDate(c.system, Gatha(year, p.gatha.value + 1));
  }

  /** A schedule is refused exactly for a choice that makes no sense, a death day that is none, or a start too far from it. */
  lemma RefusedExactly(c: Choice)
    ensures Schedule(c).Ok? <==> MakesSense(c) && DeathExists(c.system, c.death) && InReach(c, false) && InReach(c, true)
  {
    hide MakesSense, DeathExists, InReach, Candidates, FirstK, ValidChoice, SortByDate, Best;
    SensibleIsValid(c);
    if ValidChoice(c) {
      ReachExactly(c, false);
      ReachExactly(c, true);
    }
  }
}
