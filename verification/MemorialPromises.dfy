/**
 What a built schedule promises: one observance a date, always the best of those that fall there and
 never a matter of luck; no two under one code; nothing before the start date; every series whole.
 */
module MemorialPromises {
  import opened Results
  import opened Engine
  import opened RojMahCount
  import opened MemorialSeries
  import opened MemorialObservances
  import opened MemorialSchedule
  import opened MemorialClaims
  import opened MemorialBuild

  // --- Where candidates come from ---

  ghost predicate FromEntry(c: Choice, x: Candidate, e: Entry)
    requires ValidChoice(c)
  {
    && e in WantedEntries(c) && FromClaims(c, e) && !LeftOut(c, e)
    && x == Candidate(Rank(e.key), Resolve(c, e.key, e.code, e.title))
  }

  ghost predicate FromSeries(c: Choice, x: Candidate, rank: int, s: Series, n: nat, j: int)
    requires ValidChoice(c)
  {
    && FirstKept(c.system, c.death, s, c.startFrom) <= j < FirstKept(c.system, c.death, s, c.startFrom) + n
    && x == Candidate(rank, ObservanceAt(c.system, c.death, s, j))
  }

  function ParabsOf(c: Choice): Series {
    ParabSeries(c.parabs.Some? && IsEvery(c.parabs.value))
  }

  function BirthdayOf(c: Choice): Series {
    if c.birthday.Some? then Birthday(c.birthday.value.0, c.birthday.value.1) else RojFravardin
  }

  function ParabsAsked(c: Choice): nat
    requires ValidChoice(c)
  {
    if c.parabs.Some? then ParabTotal(c) else 0
  }

  function BirthdaysAsked(c: Choice): nat
    requires ValidChoice(c)
  {
    if c.birthday.Some? then c.birthdayYears else 0
  }

  /** Candidates are the claimed days not left out, and the members of the three other series. */
  ghost predicate IsCandidate(c: Choice, x: Candidate)
    requires ValidChoice(c)
  {
    || (exists e :: FromEntry(c, x, e))
    || (exists j :: FromSeries(c, x, PARAB_RANK, ParabsOf(c), ParabsAsked(c), j))
    || (exists j :: FromSeries(c, x, FRAVARDIN_ROJ_RANK, RojFravardin, Rojs(c), j))
    || (exists j :: FromSeries(c, x, BIRTHDAY_RANK, BirthdayOf(c), BirthdaysAsked(c), j))
  }

  lemma {:induction false} EntryCandidatesAre(c: Choice, w: seq<Entry>)
    requires ValidChoice(c) && forall e :: e in w ==> ValidKey(e.key)
    ensures forall x :: x in EntryCandidates(c, w) <==>
              exists e :: e in w && !LeftOut(c, e) && x == Candidate(Rank(e.key), Resolve(c, e.key, e.code, e.title))
  {
    hide ValidChoice, Resolve, LeftOut, Rank;
    if w != [] {
      var front, last := w[..|w| - 1], w[|w| - 1];
      EntryCandidatesAre(c, front);
      assert forall e :: e in w <==> e in front || e == last;
    }
  }

  lemma RankedSpanIs(c: Choice, x: Candidate, rank: int, s: Series, n: nat)
    requires ValidChoice(c)
    ensures x in Ranked(rank, NextMembers(c.system, c.death, s, c.startFrom, n))
            <==> exists j :: FromSeries(c, x, rank, s, n, j)
  {
    hide ObservanceAt, FirstKept, ParsiToGregorian;
    var first := FirstKept(c.system, c.death, s, c.startFrom);
    var span := NextMembers(c.system, c.death, s, c.startFrom, n);
    if x in Ranked(rank, span) {
      var i :| 0 <= i < n && Ranked(rank, span)[i] == x;
      assert FromSeries(c, x, rank, s, n, first + i);
    }
    if exists j :: FromSeries(c, x, rank, s, n, j) {
      var j :| FromSeries(c, x, rank, s, n, j);
      assert span[j - first] == ObservanceAt(c.system, c.death, s, j);
      assert Ranked(rank, span)[j - first] == x;
    }
  }

  lemma ClaimedCandidatesAre(c: Choice, x: Candidate)
    requires ValidChoice(c)
    requires forall e :: e in WantedEntries(c) ==> FromClaims(c, e) && ValidKey(e.key)
    ensures x in EntryCandidates(c, WantedEntries(c)) <==> exists e :: FromEntry(c, x, e)
  {
    hide WantedEntries, Resolve, LeftOut, ParsiToGregorian;
    EntryCandidatesAre(c, WantedEntries(c));
    forall e | e in WantedEntries(c) && !LeftOut(c, e) && x == Candidate(Rank(e.key), Resolve(c, e.key, e.code, e.title))
      ensures FromEntry(c, x, e)
    {
    }
  }

  lemma CandidatesAre(c: Choice, x: Candidate)
    requires ValidChoice(c)
    ensures x in Candidates(c) <==> IsCandidate(c, x)
  {
    hide FromSeries, FromEntry, WantedEntries, EntryCandidates, NextMembers, ValidChoice;
    WantedEntriesAre(c);
    ClaimedCandidatesAre(c, x);
    RankedSpanIs(c, x, PARAB_RANK, ParabsOf(c), ParabsAsked(c));
    RankedSpanIs(c, x, FRAVARDIN_ROJ_RANK, RojFravardin, Rojs(c));
    RankedSpanIs(c, x, BIRTHDAY_RANK, BirthdayOf(c), BirthdaysAsked(c));
    HasStart(c);
    assert Parabs(c) == NextMembers(c.system, c.death, ParabsOf(c), c.startFrom, ParabsAsked(c)) by {
      NoMembers(c.system, c.death, ParabsOf(c), c.startFrom);
    }
    assert Birthdays(c) == NextMembers(c.system, c.death, BirthdayOf(c), c.startFrom, BirthdaysAsked(c)) by {
      NoMembers(c.system, c.death, BirthdayOf(c), c.startFrom);
    }
  }

  function Rojs(c: Choice): nat
    requires ValidChoice(c)
  {
    c.fravardinRojMonths
  }

  lemma HasStart(c: Choice)
    requires ValidChoice(c)
    ensures Start(c.death).Ok?
  {
  }

  // --- No two candidates share a code, or a date and a rank ---

  /** The slot a Parab, Roj Fravardin or birthday code names. */
  function SlotOfCode(s: Series, code: Code): int {
    match code
    case ParabCode(mah, year) => if s == AllParabs then 12 * year + mah - 1 else 2 * year + (if mah == 1 then 0 else 1)
    case FravRojCode(year, mah) => 12 * year + mah - 1
    case BirthdayCode(year) => year
    case _ => 0
  }

  lemma CodeNamesSlot(system: CalendarSystem, death: Death, s: Series, j: int)
    requires Start(death).Ok?
    requires s.AllParabs? || s.FravardinTirParabs? || s.RojFravardin? || (s.Birthday? && ValidBirthday((s.roj, s.mah)))
    ensures SlotOfCode(s, ObservanceAt(system, death, s, j).code) == j
  {
    hide DateOf, ParabRoj;
    match s
    case AllParabs =>
      ParabSlot(true, j / 12, j % 12);
      IndexParts(j / 12, j % 12 + 1, ParabRoj(j % 12 + 1));
    case FravardinTirParabs =>
      assert Slot(s, j) == Index(j / 2, if j % 2 == 0 then 1 else 4, if j % 2 == 0 then 19 else 13);
      IndexParts(j / 2, if j % 2 == 0 then 1 else 4, if j % 2 == 0 then 19 else 13);
    case RojFravardin =>
      FravardinSlot(system, j / 12, j % 12 + 1);
    case Birthday(roj, mah) =>
      IndexParts(j, mah, roj);
  }

  /** Rank and code say which of the four sources a candidate comes from. */
  lemma EntryRankAndCode(c: Choice, x: Candidate, e: Entry)
    requires ValidChoice(c) && FromEntry(c, x, e)
    ensures 0 <= x.rank <= 3 && x.rank == Rank(e.key) && x.o.code == e.code && x.o.title == e.title
    ensures x.o.date == KeyDate(c, e.key)
    ensures e.code.DayCode? || e.code.YearCode? || e.code.MonthCode?
  {
    hide Resolve, WantedEntries, LeftOut, NamedKey;
    ResolveDate(c, e.key, e.code, e.title);
  }

  lemma SeriesRankAndCode(c: Choice, x: Candidate, rank: int, s: Series, n: nat, j: int)
    requires ValidChoice(c) && FromSeries(c, x, rank, s, n, j)
    ensures x.rank == rank && x.o.date == OccursOn(c.system, s, j)
    ensures s.AllParabs? || s.FravardinTirParabs? ==> x.o.code.ParabCode?
    ensures s.RojFravardin? ==> x.o.code.FravRojCode?
    ensures s.Birthday? ==> x.o.code.BirthdayCode?
  {
    hide Slot, DateOf, FirstKept, ParsiToGregorian;
  }

  lemma EntriesApart(c: Choice, x: Candidate, y: Candidate, e: Entry, f: Entry)
    requires ValidChoice(c) && FromEntry(c, x, e) && FromEntry(c, y, f)
    requires x.o.code == y.o.code || (x.o.date == y.o.date && x.rank == y.rank)
    ensures x == y
  {
    hide Resolve, WantedEntries, LeftOut, NamedKey, KeyDate, CanonMonth, ParsiToGregorian;
    EntryRankAndCode(c, x, e);
    EntryRankAndCode(c, y, f);
    WantedEntriesAre(c);
    if e.code != f.code {
      SameRankSameDate(c, e.key, f.key);
    }
    var i :| 0 <= i < |WantedEntries(c)| && WantedEntries(c)[i] == e;
    var k :| 0 <= k < |WantedEntries(c)| && WantedEntries(c)[k] == f;
    assert e == f;
  }

  predicate DeciDay(n: int) {
    n == 29 || n == 59 || n == 179 || n == 359
  }

  /** Keys of one rank on one date are one key. */
  lemma SameRankSameDate(c: Choice, k1: Key, k2: Key)
    requires DeathDate(c.system, c.death).Ok? && ValidKey(k1) && ValidKey(k2)
    requires Rank(k1) == Rank(k2) && KeyDate(c, k1) == KeyDate(c, k2)
    requires (k1.DeciKey? ==> DeciDay(k1.n)) && (k2.DeciKey? ==> DeciDay(k2.n))
    ensures k1 == k2
  {
    hide DateOf, Navroze, MaxGatha, ParsiToGregorian, OccursOn, DeathDate;
    if k1.M? || k1.Y? {
      if k1.k < k2.k {
        SeriesDatesIncrease(c, k1.k, k2.k);
      } else if k2.k < k1.k {
        SeriesDatesIncrease(c, k2.k, k1.k);
      }
    } else if k1.DeciKey? {
      DeciTargetsInOrder(c);
    }
  }

  /** Masiso, Bamsi, Chamsi and Varsi come in that order, so their Decis do too. */
  lemma DeciTargetsInOrder(c: Choice)
    requires DeathDate(c.system, c.death).Ok?
    ensures KeyDate(c, M(1)) < KeyDate(c, M(2)) < KeyDate(c, M(6)) < KeyDate(c, Y(1))
  {
    hide DateOf, Navroze, MaxGatha, ParsiToGregorian;
    SeriesDatesIncrease(c, 1, 2);
    SeriesDatesIncrease(c, 2, 6);
    SeriesDatesIncrease(c, 6, 12);
    if IsGatha(c.death) {
      LastOfYear(c.system, c.death.year + 1);
      YearLength(c.system, c.death.year + 1);
      DateOrder(c.system, Slot(MonthSeries(c.death), 6), CYCLE_DAYS * (c.death.year + 2) - 1);
    } else {
      CanonSameDate(c, 12);
    }
  }

  lemma SeriesApart(c: Choice, x: Candidate, y: Candidate, rank: int, s: Series, n: nat, i: int, j: int)
    requires ValidChoice(c) && FromSeries(c, x, rank, s, n, i) && FromSeries(c, y, rank, s, n, j)
    requires s.AllParabs? || s.FravardinTirParabs? || s.RojFravardin? || (s.Birthday? && ValidBirthday((s.roj, s.mah)))
    requires x.o.code == y.o.code || x.o.date == y.o.date
    ensures x == y
  {
    hide Slot, DateOf, FirstKept, ParsiToGregorian, SlotOfCode;
    CodeNamesSlot(c.system, c.death, s, i);
    CodeNamesSlot(c.system, c.death, s, j);
    OccursInOrder(c.system, s, i, j);
    OccursInOrder(c.system, s, j, i);
  }

  /**
   Two candidates of one code are one candidate; and two of one date and rank are too, so the cut to
   one a date never has a tie to break.
   */
  lemma CandidatesApart(c: Choice, x: Candidate, y: Candidate)
    requires ValidChoice(c) && x in Candidates(c) && y in Candidates(c)
    requires x.o.code == y.o.code || (x.o.date == y.o.date && x.rank == y.rank)
    ensures x == y
  {
    hide FromEntry, FromSeries, Candidates;
    CandidatesAre(c, x);
    CandidatesAre(c, y);
    var p, r, b := ParabsAsked(c), Rojs(c), BirthdaysAsked(c);
    Kinds(c, x);
    Kinds(c, y);
    if e, f :| FromEntry(c, x, e) && FromEntry(c, y, f) {
      EntriesApart(c, x, y, e, f);
    } else if i, j :| FromSeries(c, x, PARAB_RANK, ParabsOf(c), p, i) && FromSeries(c, y, PARAB_RANK, ParabsOf(c), p, j) {
      SeriesApart(c, x, y, PARAB_RANK, ParabsOf(c), p, i, j);
    } else if i, j :| FromSeries(c, x, FRAVARDIN_ROJ_RANK, RojFravardin, r, i)
                      && FromSeries(c, y, FRAVARDIN_ROJ_RANK, RojFravardin, r, j) {
      SeriesApart(c, x, y, FRAVARDIN_ROJ_RANK, RojFravardin, r, i, j);
    } else if i, j :| FromSeries(c, x, BIRTHDAY_RANK, BirthdayOf(c), b, i)
                      && FromSeries(c, y, BIRTHDAY_RANK, BirthdayOf(c), b, j) {
      assert c.birthday.Some? by { NeedsBirthday(c, x, i); }
      SeriesApart(c, x, y, BIRTHDAY_RANK, BirthdayOf(c), b, i, j);
    }
  }

  lemma NeedsBirthday(c: Choice, x: Candidate, i: int)
    requires ValidChoice(c) && FromSeries(c, x, BIRTHDAY_RANK, BirthdayOf(c), BirthdaysAsked(c), i)
    ensures c.birthday.Some?
  {
  }

  function KindOf(x: Candidate): int {
    if x.rank <= 3 then 0 else x.rank
  }

  /** The kind of a candidate can be read off its rank, and off its code. */
  lemma Kinds(c: Choice, x: Candidate)
    requires ValidChoice(c) && IsCandidate(c, x)
    ensures KindOf(x) == (match x.o.code
                          case ParabCode(_, _) => PARAB_RANK
                          case FravRojCode(_, _) => FRAVARDIN_ROJ_RANK
                          case BirthdayCode(_) => BIRTHDAY_RANK
                          case _ => 0)
    ensures KindOf(x) == 0 <==> exists e :: FromEntry(c, x, e)
    ensures KindOf(x) == PARAB_RANK <==> exists j :: FromSeries(c, x, PARAB_RANK, ParabsOf(c), ParabsAsked(c), j)
    ensures KindOf(x) == FRAVARDIN_ROJ_RANK <==> exists j :: FromSeries(c, x, FRAVARDIN_ROJ_RANK, RojFravardin, Rojs(c), j)
    ensures KindOf(x) == BIRTHDAY_RANK <==> exists j :: FromSeries(c, x, BIRTHDAY_RANK, BirthdayOf(c), BirthdaysAsked(c), j)
  {
    hide FromEntry, FromSeries;
    forall e | FromEntry(c, x, e)
      ensures 0 <= x.rank <= 3 && (x.o.code.DayCode? || x.o.code.YearCode? || x.o.code.MonthCode?)
    {
      EntryRankAndCode(c, x, e);
    }
    forall j | FromSeries(c, x, PARAB_RANK, ParabsOf(c), ParabsAsked(c), j)
      ensures x.rank == PARAB_RANK && x.o.code.ParabCode?
    {
      SeriesRankAndCode(c, x, PARAB_RANK, ParabsOf(c), ParabsAsked(c), j);
    }
    forall j | FromSeries(c, x, FRAVARDIN_ROJ_RANK, RojFravardin, Rojs(c), j)
      ensures x.rank == FRAVARDIN_ROJ_RANK && x.o.code.FravRojCode?
    {
      SeriesRankAndCode(c, x, FRAVARDIN_ROJ_RANK, RojFravardin, Rojs(c), j);
    }
    forall j | FromSeries(c, x, BIRTHDAY_RANK, BirthdayOf(c), BirthdaysAsked(c), j)
      ensures x.rank == BIRTHDAY_RANK && x.o.code.BirthdayCode?
    {
      NeedsBirthday(c, x, j);
      SeriesRankAndCode(c, x, BIRTHDAY_RANK, BirthdayOf(c), BirthdaysAsked(c), j);
    }
  }

  // --- The promises ---

  /**
   The schedule lists the dates of all candidates, each once, in order, under pairwise distinct codes;
   and each date keeps the candidate no other beats, the first such.
   */
  lemma ScheduleKeepsTheBest(c: Choice)
    requires Accepted(c)
    ensures var out, all := Schedule(c).value, Candidates(c);
            && Ascending(out)
            && (forall i, j :: 0 <= i < j < |out| ==> out[i].code != out[j].code)
            && (forall o :: o in out <==> exists rank :: Chosen(all, Candidate(rank, o)))
            && (forall x :: x in all ==> exists o :: o in out && o.date == x.o.date)
  {
    hide Candidates, ValidChoice, FirstK, Best, SortByDate, Chosen;
    var out, all := Schedule(c).value, Candidates(c);
    var best := Best(all);
    BestIs(all);
    SortByDateIs(Observances(best));
    forall o
      ensures o in out <==> exists rank :: Chosen(all, Candidate(rank, o))
    {
      if o in out {
        var i :| 0 <= i < |best| && Observances(best)[i] == o;
        assert best[i] in best && Chosen(all, Candidate(best[i].rank, o));
      }
      if rank :| Chosen(all, Candidate(rank, o)) {
        var i :| 0 <= i < |best| && best[i] == Candidate(rank, o);
        assert Observances(best)[i] == o;
      }
    }
    forall x | x in all
      ensures exists o :: o in out && o.date == x.o.date
    {
      var y :| y in best && y.o.date == x.o.date;
      var i :| 0 <= i < |best| && best[i] == y;
      assert Observances(best)[i] in out;
    }
    forall i, j | 0 <= i < j < |out|
      ensures out[i].code != out[j].code
    {
      assert out[i] in out && out[j] in out;
      var r :| Chosen(all, Candidate(r, out[i]));
      var q :| Chosen(all, Candidate(q, out[j]));
      ChosenIsThere(all, Candidate(r, out[i]));
      ChosenIsThere(all, Candidate(q, out[j]));
      if out[i].code == out[j].code {
        CandidatesApart(c, Candidate(r, out[i]), Candidate(q, out[j]));
        assert false;
      }
    }
  }

  lemma ChosenIsThere(ranked: seq<Candidate>, x: Candidate)
    requires Chosen(ranked, x)
    ensures x in ranked
  {
  }

  lemma InSeriesNotEarlier(c: Choice, key: Key)
    requires ValidChoice(c) && c.startFrom.Some? && ValidKey(key) && InSeries(c, key)
    ensures KeyDate(c, key) >= c.startFrom.value
  {
    hide KeyDate, FirstK, CanonMonth, ParsiToGregorian;
    if key.Y? && FirstK(c, false) <= key.k < FirstK(c, false) + c.yearlyYears {
      FirstKIsFirst(c, false, key.k);
    } else {
      var k :| FirstK(c, true) <= k < FirstK(c, true) + c.monthlyMonths && key == CanonMonth(c.death, k);
      FirstKIsFirst(c, true, k);
    }
  }

  /** A family that starts late is booked nothing before its start. */
  lemma NothingBeforeStart(c: Choice, x: Candidate)
    requires ValidChoice(c) && c.startFrom.Some? && x in Candidates(c)
    ensures x.o.date >= c.startFrom.value
  {
    hide FromSeries, Candidates, WantedEntries, NamedEntries, Resolve, InSeries, Kept;
    CandidatesAre(c, x);
    if e :| FromEntry(c, x, e) {
      EntryRankAndCode(c, x, e);
      WantedEntriesAre(c);
      if InSeries(c, e.key) {
        InSeriesNotEarlier(c, e.key);
      } else {
        assert HasKey(NamedEntries(c), e.key);
      }
    } else if j :| FromSeries(c, x, PARAB_RANK, ParabsOf(c), ParabsAsked(c), j) {
      SeriesNotEarlier(c, x, PARAB_RANK, ParabsOf(c), ParabsAsked(c), j);
    } else if j :| FromSeries(c, x, FRAVARDIN_ROJ_RANK, RojFravardin, Rojs(c), j) {
      SeriesNotEarlier(c, x, FRAVARDIN_ROJ_RANK, RojFravardin, Rojs(c), j);
    } else {
      var j :| FromSeries(c, x, BIRTHDAY_RANK, BirthdayOf(c), BirthdaysAsked(c), j);
      SeriesNotEarlier(c, x, BIRTHDAY_RANK, BirthdayOf(c), BirthdaysAsked(c), j);
    }
  }

  lemma SeriesNotEarlier(c: Choice, x: Candidate, rank: int, s: Series, n: nat, j: int)
    requires ValidChoice(c) && FromSeries(c, x, rank, s, n, j)
    ensures Kept(c.system, c.death, c.startFrom, x.o.date)
    ensures c.startFrom.Some? ==> x.o.date >= c.startFrom.value
  {
    hide FirstKept, DateOf, Slot, ParsiToGregorian;
    FirstKeptIsFirst(c.system, c.death, s, c.startFrom, j);
  }

  /**
   The monthly or yearly series asked for is there whole: its `n` members are the next ones not before
   the start date, none passed over, and each is a candidate at its own rank or better. And there is no more of
   it: a candidate under a code of the series is one of the `n`.
   */
  lemma PlainSeriesWhole(c: Choice, monthly: bool, k: int)
    requires ValidChoice(c) && k >= 1 && SeriesLength(c, monthly) != 0
    ensures k >= FirstK(c, monthly) <==> (c.startFrom.Some? ==> PlainDate(c, monthly, k) >= c.startFrom.value)
    ensures FirstK(c, monthly) <= k < FirstK(c, monthly) + SeriesLength(c, monthly) ==>
              exists x :: x in Candidates(c) && x.o.date == PlainDate(c, monthly, k) && x.rank == Rank(PlainKey(c, monthly, k))
    ensures forall x :: x in Candidates(c) && x.o.code == PlainCode(monthly, k) ==>
              FirstK(c, monthly) <= k < FirstK(c, monthly) + SeriesLength(c, monthly)
  {
    hide KeyDate, FirstK, CanonMonth, ParsiToGregorian, WantedEntries, NamedEntries, Candidates, Resolve;
    FirstKIsFirst(c, monthly, k);
    if FirstK(c, monthly) <= k < FirstK(c, monthly) + SeriesLength(c, monthly) {
      var key := PlainKey(c, monthly, k);
      WantedEntriesAre(c);
      assert InSeries(c, key);
      var e :| e in WantedEntries(c) && e.key == key;
      var x := Candidate(Rank(key), Resolve(c, key, e.code, e.title));
      assert FromEntry(c, x, e);
      CandidatesAre(c, x);
      EntryRankAndCode(c, x, e);
    }
    forall x | x in Candidates(c) && x.o.code == PlainCode(monthly, k)
      ensures FirstK(c, monthly) <= k < FirstK(c, monthly) + SeriesLength(c, monthly)
    {
      PlainSeriesOnly(c, monthly, k, x);
    }
  }

  /** Whatever the length asked for, none included, no further member is a candidate. */
  lemma PlainSeriesOnly(c: Choice, monthly: bool, k: int, x: Candidate)
    requires ValidChoice(c) && x in Candidates(c) && x.o.code == PlainCode(monthly, k)
    ensures FirstK(c, monthly) <= k < FirstK(c, monthly) + SeriesLength(c, monthly)
  {
    hide FromEntry, FromSeries, Candidates, FirstK, WantedEntries;
    CandidatesAre(c, x);
    Kinds(c, x);
    var e :| FromEntry(c, x, e);
    EntryRankAndCode(c, x, e);
    assert e in WantedEntries(c) by { IsWanted(c, x, e); }
    PlainCodesAreChosen(c, e, monthly, k);
  }

  lemma IsWanted(c: Choice, x: Candidate, e: Entry)
    requires ValidChoice(c) && FromEntry(c, x, e)
    ensures e in WantedEntries(c)
  {
  }
}
