/**
 A death more than a year ago is given by Roj and Mah alone, and its year is a stand-in. The dates and
 labels of its schedule do not depend on which year stands in.
 */
module StandIn {
  import opened Results
  import opened Engine
  import opened RojMahCount
  import opened MemorialSeries
  import opened MemorialObservances
  import opened MemorialSchedule
  import opened MemorialClaims
  import opened MemorialBuild
  import opened MemorialPromises

  /** The choice as it would be with the death `years` earlier. */
  function Earlier(c: Choice, years: nat): Choice {
    c.(death := c.death.(year := c.death.year - years))
  }

  /** Only what repeats is chosen, under plain labels, from a date past the stand-in's Gatha days. */
  predicate LongAgo(c: Choice) {
    && c.plainLabels && c.opening == NoOpening && c.dayCounts == []
    && DeathDate(c.system, c.death).Ok?
    && c.startFrom.Some? && c.startFrom.value > DeathDate(c.system, c.death).value + 7
  }

  /** Both choices with their stand-ins accepted. */
  ghost predicate BothStand(c: Choice, years: nat) {
    LongAgo(c) && Accepted(c) && Accepted(Earlier(c, years))
  }

  function Shift(years: nat, monthly: bool): nat {
    if monthly then 12 * years else years
  }

  /** An earlier stand-in is an earlier death. */
  lemma EarlierDeath(c: Choice, years: nat)
    requires DeathDate(c.system, c.death).Ok? && DeathDate(c.system, Earlier(c, years).death).Ok?
    ensures DeathIndex(Earlier(c, years).death) == DeathIndex(c.death) - CYCLE_DAYS * years
    ensures DeathDate(c.system, Earlier(c, years).death).value <= DeathDate(c.system, c.death).value
  {
    hide Navroze, ParsiToGregorian, DateOf, DeathIndex;
    assert DeathIndex(Earlier(c, years).death) == DeathIndex(c.death) - CYCLE_DAYS * years by { ShiftedIndex(c, years); }
    if years > 0 {
      DeathBetween(c.system, c.death);
      DeathBetween(c.system, Earlier(c, years).death);
      DatesOutrunIndex(c.system, DeathIndex(Earlier(c, years).death) + 1, DeathIndex(c.death));
    }
  }

  lemma ShiftedIndex(c: Choice, years: nat)
    requires Start(c.death).Ok?
    ensures Start(Earlier(c, years).death).Ok?
    ensures DeathIndex(Earlier(c, years).death) == DeathIndex(c.death) - CYCLE_DAYS * years
  {
  }

  /** The k-th member from one stand-in is the shifted one from the other. */
  lemma ShiftedDate(c: Choice, years: nat, monthly: bool, k: int)
    requires DeathDate(c.system, c.death).Ok? && DeathDate(c.system, Earlier(c, years).death).Ok? && k >= 1
    ensures PlainDate(Earlier(c, years), monthly, k + Shift(years, monthly)) == PlainDate(c, monthly, k)
  {
    hide DateOf, Navroze, MaxGatha, ParsiToGregorian, DeathIndex;
    var d := Earlier(c, years);
    ShiftedIndex(c, years);
    CanonSameDate(c, k);
    CanonSameDate(d, k + Shift(years, monthly));
    if monthly {
      assert Slot(MonthSeries(d.death), k + 12 * years) == Slot(MonthSeries(c.death), k);
    } else if !IsGatha(c.death) {
      assert Slot(EveryYear(DeathIndex(d.death)), k + years) == Slot(EveryYear(DeathIndex(c.death)), k);
    }
  }

  /** What the earlier stand-in counts before the later one's first member is already past. */
  lemma ShiftedPast(c: Choice, years: nat, monthly: bool)
    requires LongAgo(c) && DeathDate(c.system, Earlier(c, years).death).Ok? && years >= 1
    ensures PlainDate(Earlier(c, years), monthly, Shift(years, monthly)) < c.startFrom.value
  {
    hide DateOf, Navroze, MaxGatha, DeathIndex;
    var d := Earlier(c, years);
    ShiftedIndex(c, years);
    DeathBetween(c.system, c.death);
    CanonSameDate(d, Shift(years, monthly));
    if monthly {
      var t := Slot(MonthSeries(d.death), 12 * years);
      assert t == DeathIndex(c.death) || t == DeathIndex(c.death) + 1;
    } else if IsGatha(c.death) {
      WritesOut(c.death.year, c.system, AskGatha(c.death.roj));
    } else {
      assert Slot(EveryYear(DeathIndex(d.death)), years) == DeathIndex(c.death);
    }
  }

  /** The series start on the same date: the first k is just counted from further back. */
  lemma ShiftedFirst(c: Choice, years: nat, monthly: bool)
    requires LongAgo(c) && DeathDate(c.system, Earlier(c, years).death).Ok?
    requires SeriesLength(c, monthly) != 0
    ensures FirstK(Earlier(c, years), monthly) == FirstK(c, monthly) + Shift(years, monthly)
  {
    hide PlainDate, ParsiToGregorian, FirstK;
    var d, off := Earlier(c, years), Shift(years, monthly);
    assert c.startFrom.Some? by { StartGiven(c); }
    var first, other := FirstK(c, monthly), FirstK(d, monthly);
    FirstKIsFirst(c, monthly, first);
    FirstKIsFirst(d, monthly, other);
    ShiftedDate(c, years, monthly, first);
    FirstKIsFirst(d, monthly, first + off);
    if years >= 1 {
      ShiftedPast(c, years, monthly);
      FirstKIsFirst(d, monthly, off);
    }
    ShiftedDate(c, years, monthly, other - off);
    FirstKIsFirst(c, monthly, other - off);
  }

  lemma StartGiven(c: Choice)
    requires LongAgo(c)
    ensures c.startFrom.Some? && DeathDate(c.system, c.death).Ok?
  {
  }

  /** A stand-in `years` back is accepted exactly when its first members are still within the search limit. */
  lemma EarlierAccepted(c: Choice, years: nat)
    requires LongAgo(c) && Accepted(c) && DeathDate(c.system, Earlier(c, years).death).Ok?
    ensures Accepted(Earlier(c, years)) <==>
              && (c.yearlyYears != 0 ==> FirstK(c, false) + years <= FIRST_VALID_LIMIT)
              && (c.monthlyMonths != 0 ==> FirstK(c, true) + 12 * years <= FIRST_VALID_LIMIT)
  {
    hide PlainDate, DeathDate, FirstFrom;
    if c.yearlyYears != 0 { ShiftedFirst(c, years, false); }
    if c.monthlyMonths != 0 { ShiftedFirst(c, years, true); }
  }

  // --- The days on offer ---

  /** A member of the monthly or yearly series under its own name: a monthly day that is also a chosen yearly one is not. */
  ghost predicate PlainOffer(c: Choice, monthly: bool, k: int)
    requires ValidChoice(c)
  {
    && FirstK(c, monthly) <= k < FirstK(c, monthly) + SeriesLength(c, monthly)
    && (monthly ==> !YearTaken(c, PlainKey(c, true, k)))
  }

  ghost predicate YearTaken(c: Choice, key: Key)
    requires ValidChoice(c)
  {
    key.Y? && FirstK(c, false) <= key.k < FirstK(c, false) + c.yearlyYears
  }

  /** What a family is shown of a candidate. */
  predicate Shows(x: Candidate, rank: int, date: int, title: Label) {
    x.rank == rank && x.o.date == date && x.o.title == title
  }

  lemma NothingNamed(c: Choice)
    requires c.opening == NoOpening && c.dayCounts == []
    ensures NamedEntries(c) == []
  {
  }

  ghost function YearClaims(c: Choice): seq<Entry>
    requires ValidChoice(c)
  {
    PlainClaims(c, false, FirstK(c, false), c.yearlyYears)
  }

  ghost function MonthClaims(c: Choice): seq<Entry>
    requires ValidChoice(c)
  {
    PlainClaims(c, true, FirstK(c, true), c.monthlyMonths)
  }

  lemma YearsTaken(c: Choice)
    requires ValidChoice(c)
    ensures DistinctKeys(ClaimAll([], YearClaims(c)))
    ensures forall e :: e in ClaimAll([], YearClaims(c)) <==> e in YearClaims(c)
    ensures forall key :: HasKey(ClaimAll([], YearClaims(c)), key) <==> YearTaken(c, key)
  {
    hide FirstK, ParsiToGregorian, ClaimAll;
    var years := YearClaims(c);
    PlainClaimsOneName(c, false, FirstK(c, false), YearCount(c));
    ClaimAllIs([], years);
    forall key
      ensures HasKey(ClaimAll([], years), key) <==> YearTaken(c, key)
    {
      if YearTaken(c, key) {
        assert years[key.k - FirstK(c, false)] in years;
      }
    }
  }

  function YearCount(c: Choice): nat
    requires ValidChoice(c)
  {
    c.yearlyYears
  }

  /** A claim of a series is the entry of one of its members. */
  lemma PlainClaimIs(c: Choice, monthly: bool, e: Entry)
    requires ValidChoice(c)
    ensures e in (if monthly then MonthClaims(c) else YearClaims(c)) <==>
              exists k :: FirstK(c, monthly) <= k < FirstK(c, monthly) + SeriesLength(c, monthly)
                          && e == PlainEntry(c, monthly, k)
  {
    hide FirstK, PlainEntry, ParsiToGregorian;
    var claims := if monthly then MonthClaims(c) else YearClaims(c);
    var first := FirstK(c, monthly);
    if e in claims {
      var i :| 0 <= i < |claims| && claims[i] == e;
      assert e == PlainEntry(c, monthly, first + i);
    }
    if k :| first <= k < first + SeriesLength(c, monthly) && e == PlainEntry(c, monthly, k) {
      assert claims[k - first] == e;
    }
  }

  /** With nothing named, the claims are the yearly series and what the monthly one adds. */
  lemma PlainClaimsOnly(c: Choice, e: Entry)
    requires LongAgo(c) && ValidChoice(c)
    ensures e in WantedEntries(c) <==> exists monthly, k :: PlainOffer(c, monthly, k) && e == PlainEntry(c, monthly, k)
  {
    hide FirstK, CanonMonth, ParsiToGregorian, NamedEntries, ClaimAll, YearTaken, YearClaims, MonthClaims;
    NothingNamed(c);
    YearsTaken(c);
    var mid := ClaimAll([], YearClaims(c));
    assert OneName(MonthClaims(c)) by { MonthsOneName(c); }
    ClaimAllIs(mid, MonthClaims(c));
    assert WantedEntries(c) == ClaimAll(mid, MonthClaims(c)) by { WantedIs(c); }
    PlainClaimIs(c, false, e);
    PlainClaimIs(c, true, e);
    if e in YearClaims(c) {
      var k :| FirstK(c, false) <= k < FirstK(c, false) + c.yearlyYears && e == PlainEntry(c, false, k);
      assert PlainOffer(c, false, k);
    } else if e in WantedEntries(c) {
      var k :| FirstK(c, true) <= k < FirstK(c, true) + c.monthlyMonths && e == PlainEntry(c, true, k);
      assert PlainOffer(c, true, k);
    }
  }

  lemma MonthsOneName(c: Choice)
    requires ValidChoice(c)
    ensures OneName(MonthClaims(c))
  {
    PlainClaimsOneName(c, true, FirstK(c, true), c.monthlyMonths);
  }

  lemma WantedIs(c: Choice)
    requires ValidChoice(c) && NamedEntries(c) == []
    ensures WantedEntries(c) == ClaimAll(ClaimAll([], YearClaims(c)), MonthClaims(c))
  {
  }

  /** An offer from one stand-in is the shifted offer from the other. */
  lemma ShiftedOffer(c: Choice, years: nat, monthly: bool, k: int)
    requires BothStand(c, years)
    ensures PlainOffer(c, monthly, k) <==> PlainOffer(Earlier(c, years), monthly, k + Shift(years, monthly))
  {
    hide FirstK, DeathDate, PlainDate;
    var d := Earlier(c, years);
    assert DeathDate(d.system, d.death).Ok? && SeriesLength(d, monthly) == SeriesLength(c, monthly);
    if SeriesLength(c, monthly) != 0 {
      ShiftedFirst(c, years, monthly);
    }
    if monthly {
      ShiftedTaken(c, years, k);
    }
  }

  lemma ShiftedTaken(c: Choice, years: nat, k: int)
    requires BothStand(c, years)
    ensures YearTaken(c, PlainKey(c, true, k)) <==> YearTaken(Earlier(c, years), PlainKey(Earlier(c, years), true, k + 12 * years))
  {
    hide FirstK, DeathDate, PlainDate;
    if c.yearlyYears != 0 {
      ShiftedFirst(c, years, false);
    }
  }

  ghost predicate PlainShown(c: Choice, monthly: bool, k: int, rank: int, date: int, title: Label)
    requires ValidChoice(c)
  {
    PlainOffer(c, monthly, k) && rank == Rank(PlainKey(c, monthly, k)) && date == PlainDate(c, monthly, k)
    && title == PlainTitle(c, monthly, k)
  }

  /** The claimed days on offer are those of the two series, dates and titles and all. */
  lemma PlainOffersAre(c: Choice, rank: int, date: int, title: Label)
    requires LongAgo(c) && ValidChoice(c)
    ensures (exists x, e :: FromEntry(c, x, e) && Shows(x, rank, date, title)) <==>
            exists monthly, k :: PlainShown(c, monthly, k, rank, date, title)
  {
    hide FirstK, CanonMonth, ParsiToGregorian, WantedEntries, PlainOffer, KeyDate, Resolve, NamedEntries, Rank;
    NothingNamed(c);
    WantedEntriesAre(c);
    if x, e :| FromEntry(c, x, e) && Shows(x, rank, date, title) {
      PlainClaimsOnly(c, e);
      EntryRankAndCode(c, x, e);
      var monthly, k :| PlainOffer(c, monthly, k) && e == PlainEntry(c, monthly, k);
      assert PlainShown(c, monthly, k, rank, date, title);
    }
    if monthly, k :| PlainShown(c, monthly, k, rank, date, title) {
      var e := PlainEntry(c, monthly, k);
      PlainClaimsOnly(c, e);
      var x := Candidate(Rank(e.key), Resolve(c, e.key, e.code, e.title));
      assert FromEntry(c, x, e);
      EntryRankAndCode(c, x, e);
    }
  }

  lemma ShiftedShown(c: Choice, years: nat, monthly: bool, k: int, rank: int, date: int, title: Label)
    requires BothStand(c, years) && k >= 1
    ensures PlainShown(c, monthly, k, rank, date, title)
            <==> PlainShown(Earlier(c, years), monthly, k + Shift(years, monthly), rank, date, title)
  {
    hide FirstK, DeathDate, PlainDate, PlainOffer, Accepted;
    ShiftedOffer(c, years, monthly, k);
    StartGiven(c);
    assert DeathDate(c.system, Earlier(c, years).death).Ok? by { AcceptedHasDeath(Earlier(c, years)); }
    ShiftedDate(c, years, monthly, k);
  }

  lemma AcceptedHasDeath(c: Choice)
    requires Accepted(c)
    ensures ValidChoice(c) && DeathDate(c.system, c.death).Ok? && Start(c.death).Ok?
  {
  }

  /** Only what comes after the shift is on offer from the earlier stand-in. */
  lemma NothingBeforeShift(c: Choice, years: nat, monthly: bool, k: int)
    requires BothStand(c, years) && PlainOffer(Earlier(c, years), monthly, k)
    ensures k - Shift(years, monthly) >= 1
  {
    hide FirstK, DeathDate, PlainDate;
    ShiftedFirst(c, years, monthly);
  }

  /** The other series start on the same member whichever stand-in is used. */
  lemma SameFirstKept(c: Choice, years: nat, s: Series)
    requires BothStand(c, years)
    ensures FirstKept(c.system, c.death, s, c.startFrom) == FirstKept(c.system, Earlier(c, years).death, s, c.startFrom)
  {
    hide FirstKept, DateOf, ParsiToGregorian, DeathIndex, FirstK, Slot;
    var d := Earlier(c, years);
    EarlierDeath(c, years);
    var i, j := FirstKept(c.system, c.death, s, c.startFrom), FirstKept(c.system, d.death, s, c.startFrom);
    FirstKeptIsFirst(c.system, c.death, s, c.startFrom, i);
    FirstKeptIsFirst(c.system, c.death, s, c.startFrom, j);
    FirstKeptIsFirst(c.system, d.death, s, c.startFrom, i);
    FirstKeptIsFirst(c.system, d.death, s, c.startFrom, j);
  }

  lemma SeriesCarries(c: Choice, d: Choice, x: Candidate, rank: int, s: Series, n: nat, j: int)
    requires ValidChoice(c) && ValidChoice(d) && d.system == c.system && d.startFrom == c.startFrom
    requires FirstKept(c.system, c.death, s, c.startFrom) == FirstKept(c.system, d.death, s, c.startFrom)
    requires FromSeries(c, x, rank, s, n, j)
    ensures exists y :: FromSeries(d, y, rank, s, n, j) && Shows(y, x.rank, x.o.date, x.o.title)
  {
    hide FirstKept, DateOf, ParsiToGregorian, DeathIndex, Slot;
    var y := Candidate(rank, ObservanceAt(c.system, d.death, s, j));
    assert FromSeries(d, y, rank, s, n, j);
  }

  /** One choice is the other with its death moved by whole years. */
  ghost predicate Twins(c: Choice, d: Choice, years: nat) {
    (BothStand(c, years) && d == Earlier(c, years)) || (BothStand(d, years) && c == Earlier(d, years))
  }

  lemma TwinsSame(c: Choice, d: Choice, years: nat)
    requires Twins(c, d, years)
    ensures Accepted(c) && Accepted(d) && ValidChoice(c) && ValidChoice(d)
    ensures d.system == c.system && d.startFrom == c.startFrom
    ensures ParabsOf(c) == ParabsOf(d) && ParabsAsked(c) == ParabsAsked(d) && Rojs(c) == Rojs(d)
    ensures BirthdayOf(c) == BirthdayOf(d) && BirthdaysAsked(c) == BirthdaysAsked(d)
    ensures LongAgo(c) && LongAgo(d)
  {
    hide FirstK, ParsiToGregorian, DateOf, DeathIndex;
    if BothStand(c, years) && d == Earlier(c, years) {
      EarlierDeath(c, years);
    } else {
      EarlierDeath(d, years);
    }
  }

  lemma TwinsFirst(c: Choice, d: Choice, years: nat, s: Series)
    requires Twins(c, d, years) && Accepted(c) && Accepted(d) && c.system == d.system && c.startFrom == d.startFrom
    requires Start(c.death).Ok? && Start(d.death).Ok?
    ensures FirstKept(c.system, c.death, s, c.startFrom) == FirstKept(d.system, d.death, s, d.startFrom)
  {
    hide FirstKept, Accepted, LongAgo;
    if BothStand(c, years) && d == Earlier(c, years) {
      SameFirstKept(c, years, s);
    } else {
      SameFirstKept(d, years, s);
    }
  }

  lemma PlainCarries(c: Choice, d: Choice, years: nat, x: Candidate, e: Entry)
    requires Twins(c, d, years) && ValidChoice(c) && ValidChoice(d) && LongAgo(c) && LongAgo(d)
    requires FromEntry(c, x, e)
    ensures exists y, f :: FromEntry(d, y, f) && Shows(y, x.rank, x.o.date, x.o.title)
  {
    hide FromEntry, LongAgo, ValidChoice, PlainOffer, PlainDate, Accepted, FirstK, PlainKey, Rank;
    var rank, date, title := x.rank, x.o.date, x.o.title;
    PlainOffersAre(c, rank, date, title);
    PlainOffersAre(d, rank, date, title);
    var monthly, k :| PlainShown(c, monthly, k, rank, date, title);
    if BothStand(c, years) && d == Earlier(c, years) {
      assert k >= 1 by { OfferPositive(c, monthly, k); }
      ShiftedShown(c, years, monthly, k, rank, date, title);
      assert PlainShown(d, monthly, k + Shift(years, monthly), rank, date, title);
    } else {
      var i := k - Shift(years, monthly);
      NothingBeforeShift(d, years, monthly, k);
      ShiftedShown(d, years, monthly, i, rank, date, title);
      assert i + Shift(years, monthly) == k;
      assert PlainShown(d, monthly, i, rank, date, title);
    }
  }

  lemma OfferPositive(c: Choice, monthly: bool, k: int)
    requires ValidChoice(c) && PlainOffer(c, monthly, k)
    ensures k >= 1
  {
  }

  /** Whatever one stand-in offers, the other offers: the same rank, date and title. */
  lemma OfferCarries(c: Choice, d: Choice, years: nat, x: Candidate)
    requires Twins(c, d, years) && Accepted(c) && Accepted(d)
    requires x in Candidates(c)
    ensures exists y :: y in Candidates(d) && Shows(y, x.rank, x.o.date, x.o.title)
  {
    hide FromEntry, FromSeries, Candidates, LongAgo, FirstK, FirstKept, Twins, ParabsAsked, BirthdaysAsked, Shows, ParsiToGregorian;
    TwinsSame(c, d, years);
    CandidatesAre(c, x);
    if e :| FromEntry(c, x, e) {
      PlainCarries(c, d, years, x, e);
      var y, f :| FromEntry(d, y, f) && Shows(y, x.rank, x.o.date, x.o.title);
      CandidatesAre(d, y);
    } else if j :| FromSeries(c, x, PARAB_RANK, ParabsOf(c), ParabsAsked(c), j) {
      TwinsFirst(c, d, years, ParabsOf(c));
      SeriesCarries(c, d, x, PARAB_RANK, ParabsOf(c), ParabsAsked(c), j);
      var y :| FromSeries(d, y, PARAB_RANK, ParabsOf(d), ParabsAsked(d), j) && Shows(y, x.rank, x.o.date, x.o.title);
      CandidatesAre(d, y);
    } else if j :| FromSeries(c, x, FRAVARDIN_ROJ_RANK, RojFravardin, Rojs(c), j) {
      TwinsFirst(c, d, years, RojFravardin);
      SeriesCarries(c, d, x, FRAVARDIN_ROJ_RANK, RojFravardin, Rojs(c), j);
      var y :| FromSeries(d, y, FRAVARDIN_ROJ_RANK, RojFravardin, Rojs(d), j) && Shows(y, x.rank, x.o.date, x.o.title);
      CandidatesAre(d, y);
    } else {
      var j :| FromSeries(c, x, BIRTHDAY_RANK, BirthdayOf(c), BirthdaysAsked(c), j);
      TwinsFirst(c, d, years, BirthdayOf(c));
      SeriesCarries(c, d, x, BIRTHDAY_RANK, BirthdayOf(c), BirthdaysAsked(c), j);
      var y :| FromSeries(d, y, BIRTHDAY_RANK, BirthdayOf(d), BirthdaysAsked(d), j) && Shows(y, x.rank, x.o.date, x.o.title);
      CandidatesAre(d, y);
    }
  }

  // --- The schedules themselves ---

  predicate SameShown(o: Observance, p: Observance) {
    o.date == p.date && o.title == p.title
  }

  /** Every day one schedule shows, the other shows under the same title. */
  lemma ShownCarries(c: Choice, d: Choice, years: nat, o: Observance)
    requires Twins(c, d, years) && Accepted(c) && Accepted(d)
    requires o in Schedule(c).value
    ensures exists p :: p in Schedule(d).value && SameShown(o, p)
  {
    hide Candidates, Schedule, Accepted, Twins;
    assert Schedule(c).Ok? && Schedule(d).Ok? && ValidChoice(c) && ValidChoice(d) by { Built(c); Built(d); }
    assert Twins(d, c, years) by { TwinsBack(c, d, years); }
    ScheduleKeepsTheBest(c);
    ScheduleKeepsTheBest(d);
    var r :| Chosen(Candidates(c), Candidate(r, o));
    ChosenIsThere(Candidates(c), Candidate(r, o));
    OfferCarries(c, d, years, Candidate(r, o));
    var x :| x in Candidates(d) && Shows(x, r, o.date, o.title);
    var p :| p in Schedule(d).value && p.date == x.o.date;
    var q :| Chosen(Candidates(d), Candidate(q, p));
    ChosenIsThere(Candidates(d), Candidate(q, p));
    OfferCarries(d, c, years, Candidate(q, p));
    var y :| y in Candidates(c) && Shows(y, q, p.date, p.title);
    CandidatesApart(d, x, Candidate(q, p));
  }

  lemma Built(c: Choice)
    requires Accepted(c)
    ensures Schedule(c).Ok? && ValidChoice(c)
  {
  }

  lemma TwinsBack(c: Choice, d: Choice, years: nat)
    requires Twins(c, d, years)
    ensures Twins(d, c, years)
  {
  }

  ghost predicate ShownIn(o: Observance, b: seq<Observance>) {
    exists p :: p in b && SameShown(o, p)
  }

  ghost predicate AllShownIn(a: seq<Observance>, b: seq<Observance>) {
    forall o :: o in a ==> ShownIn(o, b)
  }

  /** Two lists in date order that show the same days are shown alike, place by place. */
  lemma {:induction false} ShownAlike(a: seq<Observance>, b: seq<Observance>)
    requires Ascending(a) && Ascending(b) && AllShownIn(a, b) && AllShownIn(b, a)
    ensures |a| == |b| && forall i :: 0 <= i < |a| ==> SameShown(a[i], b[i])
  {
    assert b != [] ==> b[0] in b;
    assert a != [] ==> a[0] in a && ShownIn(a[0], b);
    if a != [] {
      LastsAlike(a, b);
      FrontsAlike(a, b);
      FrontsAlike(b, a);
      ShownAlike(a[..|a| - 1], b[..|b| - 1]);
    }
  }

  lemma LastIsLatest(b: seq<Observance>, o: Observance)
    requires Ascending(b) && b != [] && ShownIn(o, b)
    ensures o.date <= b[|b| - 1].date
    ensures o.date == b[|b| - 1].date ==> SameShown(o, b[|b| - 1])
  {
    var p :| p in b && SameShown(o, p);
    var i :| 0 <= i < |b| && b[i] == p;
  }

  lemma LastsAlike(a: seq<Observance>, b: seq<Observance>)
    requires Ascending(a) && Ascending(b) && a != [] && b != []
    requires AllShownIn(a, b) && AllShownIn(b, a)
    ensures SameShown(a[|a| - 1], b[|b| - 1]) && SameShown(b[|b| - 1], a[|a| - 1])
  {
    assert a[|a| - 1] in a && b[|b| - 1] in b;
    LastIsLatest(b, a[|a| - 1]);
    LastIsLatest(a, b[|b| - 1]);
  }

  lemma FrontsAlike(a: seq<Observance>, b: seq<Observance>)
    requires Ascending(a) && Ascending(b) && a != [] && b != []
    requires SameShown(a[|a| - 1], b[|b| - 1])
    requires AllShownIn(a, b)
    ensures AllShownIn(a[..|a| - 1], b[..|b| - 1])
  {
    var front := a[..|a| - 1];
    forall k | 0 <= k < |front|
      ensures ShownIn(front[k], b[..|b| - 1])
    {
      assert front[k] in a && ShownIn(front[k], b);
      var p :| p in b && SameShown(front[k], p);
      var i :| 0 <= i < |b| && b[i] == p;
      assert front[k] == a[k];
      assert b[..|b| - 1][i] == p;
    }
  }

  /**
   Moving the stand-in death back any number of years changes no date and no label of the schedule,
   as long as both stand-ins are real days within the search limit.
   */
  lemma StandInDoesNotMatter(c: Choice, years: nat)
    requires BothStand(c, years)
    ensures var a, b := Schedule(c).value, Schedule(Earlier(c, years)).value;
            |a| == |b| && forall i :: 0 <= i < |a| ==> SameShown(a[i], b[i])
  {
    hide Schedule, Accepted, LongAgo;
    var d := Earlier(c, years);
    assert Schedule(c).Ok? && Schedule(d).Ok? by { Built(c); Built(d); }
    ScheduleKeepsTheBest(c);
    ScheduleKeepsTheBest(d);
    forall o | o in Schedule(c).value
      ensures ShownIn(o, Schedule(d).value)
    {
      ShownCarries(c, d, years, o);
    }
    forall p | p in Schedule(d).value
      ensures ShownIn(p, Schedule(c).value)
    {
      ShownCarries(d, c, years, p);
    }
    ShownAlike(Schedule(c).value, Schedule(d).value);
  }
}
