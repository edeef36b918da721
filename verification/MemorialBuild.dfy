/**
 Building the schedule: the claims, the series and the cut to one observance a date, as the code does
 it step by step, against a specification of the result; and what that result promises a family.
 */
module MemorialBuild {
  import opened Results
  import opened Engine
  import opened RojMahCount
  import opened MemorialSeries
  import opened MemorialObservances
  import opened MemorialSchedule
  import opened MemorialClaims

  const PARAB_RANK := 4
  const FRAVARDIN_ROJ_RANK := 5
  const BIRTHDAY_RANK := 6

  function Rank(key: Key): int {
    match key
    case Lit(_) => 0
    case Y(_) => 1
    case M(_) => 2
    case DeciKey(_) => 3
  }

  // --- Filtering, sorting and cutting a list of observances ---

  predicate Ascending(s: seq<Observance>) {
    forall i, j :: 0 <= i < j < |s| ==> s[i].date < s[j].date
  }

  function KeepFrom(s: seq<Observance>, start: int): seq<Observance> {
    if s == [] then []
    else
      var last := s[|s| - 1];
      KeepFrom(s[..|s| - 1], start) + (if last.date >= start then [last] else [])
  }

  function InsertByDate(s: seq<Observance>, o: Observance): seq<Observance> {
    if s == [] || s[|s| - 1].date <= o.date then s + [o]
    else InsertByDate(s[..|s| - 1], o) + [s[|s| - 1]]
  }

  /** A stable sort by date. */
  function SortByDate(s: seq<Observance>): seq<Observance> {
    if s == [] then [] else InsertByDate(SortByDate(s[..|s| - 1]), s[|s| - 1])
  }

  function FirstOf(s: seq<Observance>, n: nat): seq<Observance> {
    if n <= |s| then s[..n] else s
  }

  lemma {:induction false} SortAscending(s: seq<Observance>)
    requires Ascending(s)
    ensures SortByDate(s) == s
  {
    if s != [] {
      SortAscending(s[..|s| - 1]);
    }
  }

  lemma SpanAscending(system: CalendarSystem, death: Death, s: Series, first: int, n: nat)
    requires Start(death).Ok?
    ensures Ascending(Span(system, death, s, first, n))
  {
    hide Slot, DateOf;
    var span := Span(system, death, s, first, n);
    forall i, j | 0 <= i < j < n
      ensures span[i].date < span[j].date
    {
      OccursInOrder(system, s, first + i, first + j);
    }
  }

  lemma KeepFromAppend(s: seq<Observance>, o: Observance, start: int)
    ensures KeepFrom(s + [o], start) == KeepFrom(s, start) + (if o.date >= start then [o] else [])
  {
    assert (s + [o])[..|s|] == s;
  }

  /** What is left of a span from a date on is the span from the first member on or after it. */
  lemma {:induction false} KeepFromSpan(system: CalendarSystem, death: Death, s: Series, first: int, n: nat, date: int)
    requires Start(death).Ok?
    ensures var kept := FirstOn(system, s, first, date);
            KeepFrom(Span(system, death, s, first, n), date)
            == Span(system, death, s, kept, if kept < first + n then n - (kept - first) else 0)
    decreases n
  {
    hide Slot, DateOf, FirstOn, KeepFrom, Span, DeathIndex;
    var kept := FirstOn(system, s, first, date);
    if n == 0 {
      assert KeepFrom([], date) == [] by { KeepFromNothing(date); }
      assert Span(system, death, s, first, 0) == [] == Span(system, death, s, kept, 0);
    } else {
      var last := first + n - 1;
      KeepFromSpan(system, death, s, first, n - 1, date);
      SpanGrows(system, death, s, first, n - 1);
      KeepFromAppend(Span(system, death, s, first, n - 1), ObservanceAt(system, death, s, last), date);
      OccursInOrder(system, s, last, kept);
      OccursInOrder(system, s, kept - 1, last);
      if kept <= last {
        SpanGrows(system, death, s, kept, last - kept);
      }
    }
  }

  lemma KeepFromNothing(date: int)
    ensures KeepFrom([], date) == []
  {
  }

  lemma FirstOfSpan(system: CalendarSystem, death: Death, s: Series, first: int, n: nat, m: nat)
    requires Start(death).Ok? && m <= n
    ensures FirstOf(Span(system, death, s, first, n), m) == Span(system, death, s, first, m)
  {
  }

  // --- Parabs ---

  function IsEvery(kind: ParabKind): bool {
    kind == EveryParab
  }

  /** How many Parabs were asked for, either way of asking. */
  function ParabTotal(c: Choice): nat
    requires ValidChoice(c) && c.parabs.Some?
  {
    if c.parabCount != 0 then c.parabCount
    else PerYear(ParabSeries(IsEvery(c.parabs.value))) * c.parabYears
  }

  /** Scanned for long enough, filtered, sorted and cut: the next Parabs, exactly as many as were asked for. */
  lemma ParabsFound(c: Choice, years: nat, n: nat)
    requires ValidChoice(c) && c.parabs.Some?
    requires var s := ParabSeries(IsEvery(c.parabs.value));
             n <= PerYear(s) * (years - Gone(c.system, c.death, c.startFrom))
    ensures var s := ParabSeries(IsEvery(c.parabs.value));
            var scan := Span(c.system, c.death, s, FirstAfter(s, DeathIndex(c.death)), PerYear(s) * years);
            var kept := if c.startFrom.Some? then KeepFrom(scan, c.startFrom.value) else scan;
            FirstOf(SortByDate(kept), n) == NextMembers(c.system, c.death, s, c.startFrom, n)
  {
    hide Slot, DateOf, FirstAfter, DeathIndex, Gone, ParsiToGregorian, KeepFrom, SortByDate;
    var s := ParabSeries(IsEvery(c.parabs.value));
    var first := FirstAfter(s, DeathIndex(c.death));
    var total := PerYear(s) * years;
    var from := FirstKept(c.system, c.death, s, c.startFrom);
    GoneCovers(c.system, c.death, s, c.startFrom);
    MulApart(PerYear(s), years, Gone(c.system, c.death, c.startFrom));
    assert n <= total - (from - first);
    if c.startFrom.Some? {
      KeepFromSpan(c.system, c.death, s, first, total, c.startFrom.value);
    }
    SpanAscending(c.system, c.death, s, from, total - (from - first));
    SortAscending(Span(c.system, c.death, s, from, total - (from - first)));
    FirstOfSpan(c.system, c.death, s, from, total - (from - first), n);
  }

  lemma MulApart(p: nat, a: int, b: int)
    ensures p * (a - b) == p * a - p * b
  {
  }

  // --- The specification of a schedule ---

  /** A named day already passed is not booked when starting late, unless a series books it. */
  ghost predicate LeftOut(c: Choice, e: Entry)
    requires ValidChoice(c) && ValidKey(e.key)
  {
    c.startFrom.Some? && HasKey(NamedEntries(c), e.key) && !InSeries(c, e.key)
    && Resolve(c, e.key, e.code, e.title).date < c.startFrom.value
  }

  ghost function EntryCandidates(c: Choice, w: seq<Entry>): seq<Candidate>
    requires ValidChoice(c)
    requires forall e :: e in w ==> ValidKey(e.key)
  {
    if w == [] then []
    else
      var e := w[|w| - 1];
      EntryCandidates(c, w[..|w| - 1])
      + (if LeftOut(c, e) then [] else [Candidate(Rank(e.key), Resolve(c, e.key, e.code, e.title))])
  }

  function Ranked(rank: int, s: seq<Observance>): (out: seq<Candidate>)
    ensures |out| == |s|
    ensures forall i :: 0 <= i < |s| ==> out[i] == Candidate(rank, s[i])
  {
    seq(|s|, i requires 0 <= i < |s| => Candidate(rank, s[i]))
  }

  ghost function Parabs(c: Choice): seq<Observance>
    requires ValidChoice(c)
  {
    if c.parabs.None? then []
    else NextMembers(c.system, c.death, ParabSeries(IsEvery(c.parabs.value)), c.startFrom, ParabTotal(c))
  }

  ghost function FravardinRojs(c: Choice): seq<Observance>
    requires ValidChoice(c)
  {
    NextMembers(c.system, c.death, RojFravardin, c.startFrom, c.fravardinRojMonths)
  }

  ghost function Birthdays(c: Choice): seq<Observance>
    requires ValidChoice(c)
  {
    if c.birthday.None? then []
    else NextMembers(c.system, c.death, Birthday(c.birthday.value.0, c.birthday.value.1), c.startFrom, c.birthdayYears)
  }

  /** Everything the family chose, before the cut to one a date. */
  ghost function Candidates(c: Choice): seq<Candidate>
    requires ValidChoice(c)
  {
    WantedEntriesAre(c);
    EntryCandidates(c, WantedEntries(c))
    + Ranked(PARAB_RANK, Parabs(c))
    + Ranked(FRAVARDIN_ROJ_RANK, FravardinRojs(c))
    + Ranked(BIRTHDAY_RANK, Birthdays(c))
  }

  /** Keep a candidate if it is the first of its date, or beats the one kept there. */
  function Improve(best: seq<Candidate>, x: Candidate): seq<Candidate> {
    if best == [] then [x]
    else if best[0].o.date == x.o.date then (if x.rank < best[0].rank then [x] else [best[0]]) + best[1..]
    else [best[0]] + Improve(best[1..], x)
  }

  /** For each date the best-ranked candidate, the first among equals. */
  function Best(ranked: seq<Candidate>): seq<Candidate> {
    if ranked == [] then [] else Improve(Best(ranked[..|ranked| - 1]), ranked[|ranked| - 1])
  }

  function Observances(best: seq<Candidate>): (s: seq<Observance>)
    ensures |s| == |best|
    ensures forall i :: 0 <= i < |s| ==> s[i] == best[i].o
  {
    seq(|best|, i requires 0 <= i < |best| => best[i].o)
  }

  ghost function Schedule(c: Choice): Result<seq<Observance>> {
    if !Accepted(c) then ValueError else Ok(SortByDate(Observances(Best(Candidates(c)))))
  }

  // --- The cut to one observance a date ---

  ghost predicate DistinctDates(best: seq<Candidate>) {
    forall i, j :: 0 <= i < j < |best| ==> best[i].o.date != best[j].o.date
  }

  lemma {:induction false} ImproveIs(best: seq<Candidate>, x: Candidate)
    requires DistinctDates(best)
    ensures DistinctDates(Improve(best, x))
    ensures forall y :: y in Improve(best, x) <==>
              || (y == x && forall z :: z in best && z.o.date == x.o.date ==> x.rank < z.rank)
              || (y in best && (y.o.date == x.o.date ==> !(x.rank < y.rank)))
  {
    if best != [] {
      assert forall y :: y in best <==> y == best[0] || y in best[1..];
      var tail := Improve(best[1..], x);
      if best[0].o.date == x.o.date {
        assert forall y :: y in best[1..] ==> y.o.date != x.o.date;
      } else {
        ImproveIs(best[1..], x);
        forall i | 0 <= i < |tail|
          ensures tail[i].o.date != best[0].o.date
        {
          assert tail[i] in tail;
        }
        assert forall y :: y in Improve(best, x) <==> y == best[0] || y in tail;
      }
    }
  }

  /** The i-th candidate beats every earlier one of its date. */
  ghost predicate FirstBest(ranked: seq<Candidate>, i: nat)
    requires i < |ranked|
  {
    forall k :: 0 <= k < i && ranked[k].o.date == ranked[i].o.date ==> ranked[k].rank > ranked[i].rank
  }

  /** A candidate no other of its date beats, and the first such. */
  ghost predicate Chosen(ranked: seq<Candidate>, x: Candidate) {
    && (exists i :: 0 <= i < |ranked| && ranked[i] == x && FirstBest(ranked, i))
    && forall y :: y in ranked && y.o.date == x.o.date ==> x.rank <= y.rank
  }

  lemma {:induction false} BestIs(ranked: seq<Candidate>)
    ensures DistinctDates(Best(ranked))
    ensures forall x :: x in Best(ranked) <==> Chosen(ranked, x)
    ensures forall x :: x in ranked ==> exists y :: y in Best(ranked) && y.o.date == x.o.date
  {
    hide Improve, Chosen;
    assert forall x :: !Chosen([], x) by { NothingChosen(); }
    if ranked != [] {
      var front, x := ranked[..|ranked| - 1], ranked[|ranked| - 1];
      BestIs(front);
      ImproveIs(Best(front), x);
      assert ranked == front + [x];
      forall y
        ensures y in Best(ranked) <==> Chosen(ranked, y)
      {
        ChosenStep(front, x, y);
      }
      forall y | y in ranked
        ensures exists z :: z in Best(ranked) && z.o.date == y.o.date
      {
        DateKept(Best(front), x, y.o.date);
      }
    }
  }

  lemma NothingChosen()
    ensures forall x :: !Chosen([], x)
  {
  }

  /** No step loses a date. */
  lemma DateKept(best: seq<Candidate>, x: Candidate, date: int)
    requires DistinctDates(best)
    requires date == x.o.date || exists z :: z in best && z.o.date == date
    ensures exists z :: z in Improve(best, x) && z.o.date == date
  {
    ImproveIs(best, x);
    if exists z :: z in best && z.o.date == date {
      var z :| z in best && z.o.date == date;
      if date == x.o.date && x.rank < z.rank {
        assert x in Improve(best, x) || exists w :: w in best && w.o.date == date && w.rank <= x.rank;
      } else {
        assert z in Improve(best, x);
      }
    } else {
      assert x in Improve(best, x);
    }
  }

  lemma ChosenStep(front: seq<Candidate>, x: Candidate, y: Candidate)
    requires DistinctDates(Best(front))
    requires forall z :: z in Best(front) <==> Chosen(front, z)
    requires forall z :: z in front ==> exists w :: w in Best(front) && w.o.date == z.o.date
    ensures y in Improve(Best(front), x) <==> Chosen(front + [x], y)
  {
    hide Best, Improve;
    ImproveIs(Best(front), x);
    if Chosen(front + [x], y) {
      ChosenFrom(front, x, y);
      forall z | z in Best(front) && z.o.date == x.o.date
        ensures !Chosen(front, y) ==> x.rank < z.rank
      {
        assert Chosen(front, z);
      }
    } else if y in Best(front) && Chosen(front, y) && (y.o.date == x.o.date ==> !(x.rank < y.rank)) {
      ChosenStays(front, x, y);
    } else if y == x && forall z :: z in Best(front) && z.o.date == x.o.date ==> x.rank < z.rank {
      forall k | 0 <= k < |front| && front[k].o.date == x.o.date
        ensures x.rank < front[k].rank
      {
        assert front[k] in front;
        var w :| w in Best(front) && w.o.date == front[k].o.date;
        assert Chosen(front, w);
      }
      NewIsChosen(front, x);
    }
  }

  lemma ChosenFrom(front: seq<Candidate>, x: Candidate, y: Candidate)
    requires Chosen(front + [x], y)
    ensures y.o.date == x.o.date ==> y.rank <= x.rank
    ensures Chosen(front, y) || (y == x && forall z :: z in front && z.o.date == x.o.date ==> x.rank < z.rank)
  {
    var ranked := front + [x];
    assert forall z :: z in front ==> z in ranked;
    assert x in ranked;
    var i :| 0 <= i < |ranked| && ranked[i] == y && FirstBest(ranked, i);
    if i < |front| {
      assert front[i] == y;
      forall k | 0 <= k < i && front[k].o.date == y.o.date
        ensures front[k].rank > y.rank
      {
        assert ranked[k] == front[k];
      }
      assert FirstBest(front, i);
    } else {
      forall z | z in front && z.o.date == x.o.date
        ensures x.rank < z.rank
      {
        var k :| 0 <= k < |front| && front[k] == z;
        assert ranked[k] == z;
      }
    }
  }

  lemma ChosenStays(front: seq<Candidate>, x: Candidate, y: Candidate)
    requires Chosen(front, y) && (y.o.date == x.o.date ==> !(x.rank < y.rank))
    ensures Chosen(front + [x], y)
  {
    var ranked := front + [x];
    var i :| 0 <= i < |front| && front[i] == y && FirstBest(front, i);
    assert FirstBest(ranked, i) && ranked[i] == y;
    assert forall z :: z in ranked <==> z in front || z == x;
  }

  lemma NewIsChosen(front: seq<Candidate>, x: Candidate)
    requires forall k :: 0 <= k < |front| && front[k].o.date == x.o.date ==> x.rank < front[k].rank
    ensures Chosen(front + [x], x)
  {
    var ranked := front + [x];
    assert FirstBest(ranked, |front|) && ranked[|front|] == x;
    assert forall z :: z in ranked <==> z in front || z == x;
  }

  // --- Sorting ---

  lemma {:induction false} InsertByDateIs(s: seq<Observance>, o: Observance)
    requires Ascending(s) && forall p :: p in s ==> p.date != o.date
    ensures Ascending(InsertByDate(s, o))
    ensures forall p :: p in InsertByDate(s, o) <==> p in s || p == o
  {
    if s != [] && s[|s| - 1].date > o.date {
      var front, last := s[..|s| - 1], s[|s| - 1];
      InsertByDateIs(front, o);
      assert s == front + [last];
      var inner := InsertByDate(front, o);
      forall i | 0 <= i < |inner|
        ensures inner[i].date < last.date
      {
        assert inner[i] in inner;
      }
    }
  }

  lemma {:induction false} SortByDateIs(s: seq<Observance>)
    requires forall i, j :: 0 <= i < j < |s| ==> s[i].date != s[j].date
    ensures Ascending(SortByDate(s))
    ensures forall o :: o in SortByDate(s) <==> o in s
  {
    if s != [] {
      var front, last := s[..|s| - 1], s[|s| - 1];
      assert s == front + [last];
      SortByDateIs(front);
      forall p | p in SortByDate(front)
        ensures p.date != last.date
      {
        assert p in front;
      }
      InsertByDateIs(SortByDate(front), last);
    }
  }

  // --- Building it, step by step ---

  /** The first k whose date is not before the start date; an error if that is absurdly far on. */
  method FirstValid(c: Choice, monthly: bool) returns (r: Result<int>)
    requires DeathDate(c.system, c.death).Ok? && c.startFrom.Some?
    ensures r == var first := FirstFrom(c, monthly); if first <= FIRST_VALID_LIMIT then Ok(first) else ValueError
  {
    hide PlainDate;
    var k := 1;
    while PlainDate(c, monthly, k) < c.startFrom.value
      invariant 1 <= k <= FIRST_VALID_LIMIT
      invariant k > 1 ==> PlainDate(c, monthly, k - 1) < c.startFrom.value
      decreases c.startFrom.value - PlainDate(c, monthly, k)
    {
      PlainDatesIncrease(c, monthly, k, k + 1);
      k := k + 1;
      if k > FIRST_VALID_LIMIT {
        PlainDatesIncrease(c, monthly, FirstFrom(c, monthly), k - 1);
        return ValueError;
      }
    }
    OneFirst(c, monthly, k, FirstFrom(c, monthly));
    return Ok(k);
  }

  method ClaimLiteralDays(wanted: seq<Entry>, first: int, n: nat) returns (out: seq<Entry>)
    ensures out == ClaimAll(wanted, LiteralDays(first, n))
  {
    out := wanted;
    var i := 0;
    ghost var claims := LiteralDays(first, n);
    while i < n
      invariant 0 <= i <= n
      invariant out == ClaimAll(wanted, claims[..i])
    {
      assert claims[..i + 1][..i] == claims[..i];
      out := Claim(out, Entry(Lit(first + i), DayCode(first + i), DayLabel(first + i)));
      i := i + 1;
    }
    assert claims[..n] == claims;
  }

  method ClaimPickedDays(c: Choice, wanted: seq<Entry>) returns (out: seq<Entry>)
    ensures out == ClaimAll(wanted, PickedDays(c, c.dayCounts))
  {
    out := wanted;
    var i := 0;
    while i < |c.dayCounts|
      invariant 0 <= i <= |c.dayCounts|
      invariant out == ClaimAll(wanted, PickedDays(c, c.dayCounts[..i]))
    {
      var n := c.dayCounts[i];
      var days := c.dayCounts[..i + 1];
      assert days[..|days| - 1] == c.dayCounts[..i];
      if n != 10 {
        var e := Entry(NamedKey(c.death, n), DayCode(n), NamedTitle(n));
        ghost var picked := PickedDays(c, days);
        assert picked[..|picked| - 1] == PickedDays(c, c.dayCounts[..i]);
        out := Claim(out, e);
      }
      i := i + 1;
    }
    assert c.dayCounts[..i] == c.dayCounts;
  }

  method ClaimSeries(c: Choice, monthly: bool, wanted: seq<Entry>, first: int, n: nat) returns (out: seq<Entry>)
    ensures out == ClaimAll(wanted, PlainClaims(c, monthly, first, n))
  {
    out := wanted;
    ghost var claims := PlainClaims(c, monthly, first, n);
    var k := first;
    while k < first + n
      invariant first <= k <= first + n
      invariant out == ClaimAll(wanted, claims[..k - first])
    {
      assert claims[..k + 1 - first][..k - first] == claims[..k - first];
      out := Claim(out, PlainEntry(c, monthly, k));
      k := k + 1;
    }
    assert claims[..n] == claims;
  }

  method ResolveEntries(c: Choice, wanted: seq<Entry>, named: seq<Entry>, y0: int, m0: int)
    returns (ranked: seq<Candidate>)
    requires ValidChoice(c) && forall e :: e in wanted ==> ValidKey(e.key)
    requires named == NamedEntries(c) && y0 == FirstK(c, false) && m0 == FirstK(c, true)
    ensures ranked == EntryCandidates(c, wanted)
  {
    hide ValidKey, Resolve, DeathDate, FirstK, SeriesHas, HasKey;
    ranked := [];
    var i := 0;
    while i < |wanted|
      invariant 0 <= i <= |wanted|
      invariant ranked == EntryCandidates(c, wanted[..i])
    {
      var e := wanted[i];
      assert wanted[..i + 1][..i] == wanted[..i];
      var o := Resolve(c, e.key, e.code, e.title);
      if !(c.startFrom.Some? && HasKey(named, e.key) && !SeriesHas(c, y0, m0, e.key) && o.date < c.startFrom.value) {
        ranked := ranked + [Candidate(Rank(e.key), o)];
      }
      i := i + 1;
    }
    assert wanted[..i] == wanted;
  }

  method FindParabs(c: Choice) returns (found: seq<Observance>)
    requires ValidChoice(c)
    ensures found == Parabs(c)
  {
    hide KeepFrom, SortByDate, FirstOf, NextMembers, Span, FirstAfter, DeathIndex, Slot, ParsiToGregorian;
    found := [];
    if c.parabs.None? {
      return;
    }
    var all := IsEvery(c.parabs.value);
    var perYear := PerYear(ParabSeries(all));
    var gone := Gone(c.system, c.death, c.startFrom);
    if c.parabCount != 0 {
      var years := c.parabCount / perYear + 2 + gone;
      CountWidth(perYear, c.parabCount, gone);
      found := ParabObservances(c.death, c.system, all, years);
      ParabsFound(c, years, c.parabCount);
      if c.startFrom.Some? {
        found := KeepFrom(found, c.startFrom.value);
      }
      found := FirstOf(SortByDate(found), c.parabCount);
    } else {
      var years := c.parabYears + gone;
      found := ParabObservances(c.death, c.system, all, years);
      if c.startFrom.Some? {
        ParabsFound(c, years, c.parabYears * perYear);
        found := KeepFrom(found, c.startFrom.value);
        found := FirstOf(SortByDate(found), c.parabYears * perYear);
      } else {
        WholeScan(c, perYear * years);
      }
    }
  }

  /** `count / perYear + 2` years of Parabs are always enough for `count` of them. */
  lemma CountWidth(perYear: int, count: nat, gone: nat)
    requires perYear == 2 || perYear == 12
    ensures count <= perYear * (count / perYear + 2 + gone - gone)
  {
  }

  /** Without a start date the scan itself is the list. */
  lemma WholeScan(c: Choice, n: nat)
    requires ValidChoice(c) && c.parabs.Some? && c.startFrom.None?
    ensures var s := ParabSeries(IsEvery(c.parabs.value));
            Span(c.system, c.death, s, FirstAfter(s, DeathIndex(c.death)), n)
            == NextMembers(c.system, c.death, s, c.startFrom, n)
  {
  }

  method KeepBest(ranked: seq<Candidate>) returns (out: seq<Observance>)
    ensures out == SortByDate(Observances(Best(ranked)))
  {
    hide Improve, SortByDate;
    var best: seq<Candidate> := [];
    var i := 0;
    while i < |ranked|
      invariant 0 <= i <= |ranked|
      invariant best == Best(ranked[..i])
    {
      assert ranked[..i + 1][..i] == ranked[..i];
      best := Improve(best, ranked[i]);
      i := i + 1;
    }
    assert ranked[..i] == ranked;
    out := SortByDate(Observances(best));
  }

  /** Every observance the family chose, soonest first. */
  method BuildSchedule(c: Choice) returns (r: Result<seq<Observance>>)
    ensures r == Schedule(c)
  {
    hide ClaimAll, PlainDate, Resolve, NextMembers, Best, SortByDate, EntryCandidates, ParabTotal,
         DeathIndex, ParsiToGregorian, FirstFrom, SeriesHas, Assign, TenthWanted;
    if !ValidChoice(c) {
      return ValueError;
    }
    var deathDate := DeathDate(c.system, c.death).value;

    var wanted: seq<Entry> := [];
    if c.opening == DaysOneToTen {
      wanted := ClaimLiteralDays(wanted, 1, 10);
    } else if c.opening == DaysFiveToNine {
      wanted := ClaimLiteralDays(wanted, 5, 5);
    } else {
      assert ClaimAll([], []) == [] by { ClaimNothing(); }
    }
    if TenthWanted(c) {
      wanted := Assign(wanted, Entry(Lit(10), DayCode(10), Dasmi));
    }
    wanted := ClaimPickedDays(c, wanted);
    assert wanted == NamedEntries(c);
    var named := wanted;

    var y0, m0 := 1, 1;
    if c.startFrom.Some? && c.yearlyYears != 0 {
      var first := FirstValid(c, false);
      if first.ValueError? {
        return ValueError;
      }
      y0 := first.value;
    }
    if c.startFrom.Some? && c.monthlyMonths != 0 {
      var first := FirstValid(c, true);
      if first.ValueError? {
        return ValueError;
      }
      m0 := first.value;
    }
    assert y0 == FirstK(c, false) && m0 == FirstK(c, true);
    wanted := ClaimSeries(c, false, wanted, y0, c.yearlyYears);
    wanted := ClaimSeries(c, true, wanted, m0, c.monthlyMonths);
    assert wanted == WantedEntries(c);
    WantedEntriesAre(c);

    var ranked := ResolveEntries(c, wanted, named, y0, m0);
    var gone := Gone(c.system, c.death, c.startFrom);
    var parabs := FindParabs(c);
    ranked := ranked + Ranked(PARAB_RANK, parabs);
    var rojs: seq<Observance> := [];
    if c.fravardinRojMonths != 0 {
      rojs := FravardinRojObservances(c.death, deathDate, c.system, c.fravardinRojMonths, c.startFrom, gone);
    } else {
      assert FravardinRojs(c) == [] by { NoMembers(c.system, c.death, RojFravardin, c.startFrom); }
    }
    ranked := ranked + Ranked(FRAVARDIN_ROJ_RANK, rojs);
    var birthdays: seq<Observance> := [];
    if c.birthday.Some? {
      var (roj, mah) := c.birthday.value;
      birthdays := BirthdayObservances(c.death, deathDate, c.system, roj, mah, c.birthdayYears, c.startFrom, gone);
    }
    ranked := ranked + Ranked(BIRTHDAY_RANK, birthdays);
    assert ranked == Candidates(c);

    var out := KeepBest(ranked);
    return Ok(out);
  }

  lemma ClaimNothing()
    ensures ClaimAll([], []) == []
  {
  }

  lemma NoMembers(system: CalendarSystem, death: Death, s: Series, startFrom: Option<int>)
    requires Start(death).Ok?
    ensures NextMembers(system, death, s, startFrom, 0) == []
  {
  }
}
