/**
 The evening's planning pass. It keeps a running tally of what has been planned today and this month, and
 gives each observance one row: pending, or failed with the mobed told, when a cap or another reminder to
 the same number stands in its way. Its running tally is proved to be a recount of the rows at every step,
 so the pass is specified, and its promises proved, by counting afresh each time.
 */
module Planner {
  import opened Results
  import opened Gregorian

  const MINUTES_PER_DAY := 1440

  /** A reminder row. Its owner is read through its observance, so it is lost when that is deleted. */
  datatype Note = Note(obs: int, phone: int, owner: Option<int>, agyary: int, createdAt: int, failed: bool)

  /** An observance tomorrow whose family agreed, in order of id; `allowed` is the allowlist, `badText` its wording. */
  datatype Candidate = Candidate(obs: int, phone: int, owner: int, agyary: int, allowed: bool, badText: bool)

  datatype Caps = Caps(daily: int, monthly: int, perMobed: int, perAgyary: int, newAccounts: map<int, int>)

  datatype Mode = Off | DryRun | Live

  // --- Days and months ---

  function DayNumber(at: int): int {
    at / MINUTES_PER_DAY
  }

  predicate InDay(at: int, now: int) {
    MINUTES_PER_DAY * DayNumber(now) <= at < MINUTES_PER_DAY * (DayNumber(now) + 1)
  }

  function MonthStart(day: int): int {
    Date(YearOf(day), MonthOf(day), 1)
  }

  function NextMonthStart(day: int): int {
    Date(if MonthOf(day) == 12 then YearOf(day) + 1 else YearOf(day), MonthOf(day) % 12 + 1, 1)
  }

  predicate InMonth(at: int, now: int) {
    MINUTES_PER_DAY * MonthStart(DayNumber(now)) <= at < MINUTES_PER_DAY * NextMonthStart(DayNumber(now))
  }

  /** A month runs from its first to just before the next month's. */
  lemma MonthLength(day: int)
    ensures NextMonthStart(day) == MonthStart(day) + DaysInMonth(YearOf(day), MonthOf(day))
  {
    hide YearOf, MonthOf;
  }

  lemma WithinMonth(day: int, today: int)
    ensures MonthStart(today) <= day < NextMonthStart(today) <==> YearOf(day) == YearOf(today) && MonthOf(day) == MonthOf(today)
  {
    hide YearOf, MonthOf, DayOf, NextMonthStart, DaysBeforeMonth;
    MonthLength(today);
    DateRoundTrip(day);
    if MonthStart(today) <= day < NextMonthStart(today) {
      YmdRoundTrip(YearOf(today), MonthOf(today), day - MonthStart(today) + 1);
    }
  }

  /** The bounds are the calendar month, no day more and no day less. */
  lemma MonthBoundsAreTheMonth(at: int, now: int)
    ensures InMonth(at, now) <==>
            YearOf(DayNumber(at)) == YearOf(DayNumber(now)) && MonthOf(DayNumber(at)) == MonthOf(DayNumber(now))
  {
    hide YearOf, MonthOf, MonthStart, NextMonthStart;
    WithinMonth(DayNumber(at), DayNumber(now));
  }

  // --- Counting ---

  /** What is counted: the day, the month, and within the day a mobed, a fire temple, a number. */
  datatype Figure = Today | Month | Mobed(owner: int) | Temple(agyary: int) | Number(phone: int)

  predicate Counts(n: Note, f: Figure, now: int) {
    !n.failed &&
    match f
    case Today => InDay(n.createdAt, now)
    case Month => InMonth(n.createdAt, now)
    case Mobed(owner) => InDay(n.createdAt, now) && n.owner == Some(owner)
    case Temple(agyary) => InDay(n.createdAt, now) && n.owner.Some? && n.agyary == agyary
    case Number(phone) => InDay(n.createdAt, now) && n.phone == phone
  }

  function Count(rows: seq<Note>, f: Figure, now: int): nat {
    if rows == [] then 0
    else Count(rows[..|rows| - 1], f, now) + if Counts(rows[|rows| - 1], f, now) then 1 else 0
  }

  predicate HasRow(rows: seq<Note>, obs: int) {
    exists i :: 0 <= i < |rows| && rows[i].obs == obs
  }

  datatype Limit = DailyLimit | MonthlyLimit | NewAccountLimit | MobedLimit | TempleLimit

  function CapOf(caps: Caps, f: Figure): int
    requires !f.Number?
  {
    match f
    case Today => caps.daily
    case Month => caps.monthly
    case Mobed(owner) =>
      if owner in caps.newAccounts && caps.newAccounts[owner] < caps.perMobed then caps.newAccounts[owner] else caps.perMobed
    case Temple(_) => caps.perAgyary
  }

  // --- The pass, counting afresh ---

  /** Whether some cap forbids one more reminder. */
  predicate Full(rows: seq<Note>, c: Candidate, caps: Caps, now: int) {
    exists f :: f in [Today, Month, Mobed(c.owner), Temple(c.agyary)] && Count(rows, f, now) >= CapOf(caps, f)
  }

  function RowFor(rows: seq<Note>, c: Candidate, caps: Caps, now: int): Note {
    Note(c.obs, c.phone, Some(c.owner), c.agyary, now,
         c.badText || Count(rows, Number(c.phone), now) > 0 || Full(rows, c, caps, now))
  }

  function PlanOne(rows: seq<Note>, c: Candidate, caps: Caps, now: int): seq<Note> {
    if !c.allowed || HasRow(rows, c.obs) then rows else rows + [RowFor(rows, c, caps, now)]
  }

  function PlanAll(rows: seq<Note>, cands: seq<Candidate>, caps: Caps, now: int): seq<Note> {
    if cands == [] then rows
    else PlanOne(PlanAll(rows, cands[..|cands| - 1], caps, now), cands[|cands| - 1], caps, now)
  }

  // --- What a pass promises ---

  lemma CountOneMore(rows: seq<Note>, n: Note, f: Figure, now: int)
    ensures Count(rows + [n], f, now) == Count(rows, f, now) + if Counts(n, f, now) then 1 else 0
  {
    assert (rows + [n])[..|rows|] == rows;
  }

  /** No figure ends above its cap, unless it was above it already; then it has not risen. */
  lemma {:induction false} CapsHold(rows: seq<Note>, cands: seq<Candidate>, caps: Caps, now: int, f: Figure)
    requires !f.Number?
    ensures Count(rows, f, now) <= Count(PlanAll(rows, cands, caps, now), f, now)
    ensures Count(PlanAll(rows, cands, caps, now), f, now) <= CapOf(caps, f)
            || Count(PlanAll(rows, cands, caps, now), f, now) == Count(rows, f, now)
  {
    if cands != [] {
      hide InDay, InMonth, CapOf;
      var c := cands[|cands| - 1];
      var before := PlanAll(rows, cands[..|cands| - 1], caps, now);
      CapsHold(rows, cands[..|cands| - 1], caps, now, f);
      var n := RowFor(before, c, caps, now);
      CountOneMore(before, n, f, now);
      if Counts(n, f, now) {
        assert f in [Today, Month, Mobed(c.owner), Temple(c.agyary)];
      }
    }
  }

  /** A number that had no reminder today has at most one afterwards; one that had is given no more. */
  lemma {:induction false} OnePerNumber(rows: seq<Note>, cands: seq<Candidate>, caps: Caps, now: int, phone: int)
    ensures Count(PlanAll(rows, cands, caps, now), Number(phone), now) <=
            if Count(rows, Number(phone), now) > 0 then Count(rows, Number(phone), now) else 1
  {
    if cands != [] {
      hide InDay, InMonth, Full;
      var before := PlanAll(rows, cands[..|cands| - 1], caps, now);
      OnePerNumber(rows, cands[..|cands| - 1], caps, now, phone);
      CountOneMore(before, RowFor(before, cands[|cands| - 1], caps, now), Number(phone), now);
    }
  }

  predicate OneRowEach(rows: seq<Note>) {
    forall i, j :: 0 <= i < j < |rows| ==> rows[i].obs != rows[j].obs
  }

  predicate Distinct(cands: seq<Candidate>) {
    forall i, j :: 0 <= i < j < |cands| ==> cands[i].obs != cands[j].obs
  }

  /** Every allowed candidate ends with exactly one row; the old rows stay; no one else gets one. */
  lemma {:induction false} EveryoneOnce(rows: seq<Note>, cands: seq<Candidate>, caps: Caps, now: int)
    requires OneRowEach(rows)
    ensures var after := PlanAll(rows, cands, caps, now);
            && rows <= after && OneRowEach(after)
            && (forall k :: 0 <= k < |cands| && cands[k].allowed ==> HasRow(after, cands[k].obs))
            && (forall i :: |rows| <= i < |after| ==>
                  exists k :: 0 <= k < |cands| && cands[k].allowed && cands[k].obs == after[i].obs)
  {
    if cands != [] {
      hide RowFor;
      var front, c := cands[..|cands| - 1], cands[|cands| - 1];
      EveryoneOnce(rows, front, caps, now);
      var before, after := PlanAll(rows, front, caps, now), PlanAll(rows, cands, caps, now);
      RowForIsFor(before, c, caps, now);
      forall k | 0 <= k < |cands| && cands[k].allowed
        ensures HasRow(after, cands[k].obs)
      {
        if k < |front| {
          assert front[k].allowed && HasRow(before, front[k].obs);
          var i :| 0 <= i < |before| && before[i].obs == front[k].obs;
          assert after[i].obs == cands[k].obs;
        } else if !HasRow(before, c.obs) {
          assert after[|before|].obs == c.obs;
        }
      }
      forall i | |rows| <= i < |after|
        ensures exists k :: 0 <= k < |cands| && cands[k].allowed && cands[k].obs == after[i].obs
      {
        if i < |before| {
          var k :| 0 <= k < |front| && front[k].allowed && front[k].obs == before[i].obs;
          assert cands[k].allowed && cands[k].obs == after[i].obs;
        } else {
          assert cands[|cands| - 1].allowed && cands[|cands| - 1].obs == after[i].obs;
        }
      }
    }
  }

  lemma RowForIsFor(rows: seq<Note>, c: Candidate, caps: Caps, now: int)
    ensures RowFor(rows, c, caps, now).obs == c.obs
  {
  }

  /** A pass over candidates who all have their row, at whatever later time and under whatever caps, changes nothing. */
  lemma {:induction false} NothingLeftToPlan(rows: seq<Note>, cands: seq<Candidate>, caps: Caps, now: int)
    requires forall k :: 0 <= k < |cands| && cands[k].allowed ==> HasRow(rows, cands[k].obs)
    ensures PlanAll(rows, cands, caps, now) == rows
  {
    if cands != [] {
      var front := cands[..|cands| - 1];
      assert forall k :: 0 <= k < |front| ==> front[k] == cands[k];
      NothingLeftToPlan(rows, front, caps, now);
    }
  }

  /** So planning again at once changes nothing. */
  lemma SecondPassIsQuiet(rows: seq<Note>, cands: seq<Candidate>, caps: Caps, now: int, again: Caps, later: int)
    requires OneRowEach(rows)
    ensures var after := PlanAll(rows, cands, caps, now);
            PlanAll(after, cands, again, later) == after
  {
    EveryoneOnce(rows, cands, caps, now);
    NothingLeftToPlan(PlanAll(rows, cands, caps, now), cands, again, later);
  }

  // --- What is counted, and what stands in the way ---

  /** A reminder that was not refused counts on its day, in its month, and on its day for its mobed, temple and number. */
  lemma CountsExactly(n: Note, f: Figure, now: int)
    ensures Counts(n, f, now) <==>
              && !n.failed
              && var today := n.createdAt / 1440 == now / 1440;
                 match f
                 case Today => today
                 case Month => YearOf(n.createdAt / 1440) == YearOf(now / 1440) && MonthOf(n.createdAt / 1440) == MonthOf(now / 1440)
                 case Mobed(owner) => today && n.owner == Some(owner)
                 case Temple(agyary) => today && n.owner.Some? && n.agyary == agyary
                 case Number(phone) => today && n.phone == phone
  {
    hide YearOf, MonthOf, InMonth;
    MonthBoundsAreTheMonth(n.createdAt, now);
  }

  /** The rows that count toward a figure. */
  ghost function Counted(rows: seq<Note>, f: Figure, now: int): set<int> {
    set i | 0 <= i < |rows| && Counts(rows[i], f, now)
  }

  lemma OneMoreCounted(rows: seq<Note>, n: Note, f: Figure, now: int)
    ensures Counted(rows + [n], f, now) == Counted(rows, f, now) + if Counts(n, f, now) then {|rows|} else {}
    ensures |rows| !in Counted(rows, f, now)
  {
    hide Counts;
  }

  /** A figure is how many rows count toward it. */
  lemma {:induction false} CountIsHowMany(rows: seq<Note>, f: Figure, now: int)
    ensures Count(rows, f, now) == |Counted(rows, f, now)|
  {
    hide Counts;
    if rows != [] {
      hide Counted;
      var front, last := rows[..|rows| - 1], rows[|rows| - 1];
      CountIsHowMany(front, f, now);
      OneMoreCounted(front, last, f, now);
      assert rows == front + [last];
    }
  }

  /** The caps and the one-a-day rule, spelled out: what keeps one more reminder from going. */
  predicate StandsInTheWay(rows: seq<Note>, c: Candidate, caps: Caps, now: int) {
    || Count(rows, Today, now) >= caps.daily || Count(rows, Month, now) >= caps.monthly
    || Count(rows, Mobed(c.owner), now) >= caps.perMobed || Count(rows, Temple(c.agyary), now) >= caps.perAgyary
    || (c.owner in caps.newAccounts && Count(rows, Mobed(c.owner), now) >= caps.newAccounts[c.owner])
  }

  lemma FullExactly(rows: seq<Note>, c: Candidate, caps: Caps, now: int)
    ensures Full(rows, c, caps, now) <==> StandsInTheWay(rows, c, caps, now)
  {
    hide Count;
    var figures := [Today, Month, Mobed(c.owner), Temple(c.agyary)];
    assert figures[0] in figures && figures[1] in figures && figures[2] in figures && figures[3] in figures;
    if Full(rows, c, caps, now) {
      var f :| f in figures && Count(rows, f, now) >= CapOf(caps, f);
    }
  }

  /** The row a candidate gets: for its number, mobed and temple, now; refused exactly for its wording, its number or a cap. */
  lemma RowExactly(rows: seq<Note>, c: Candidate, caps: Caps, now: int)
    ensures var n := RowFor(rows, c, caps, now);
            && n.obs == c.obs && n.phone == c.phone && n.owner == Some(c.owner) && n.agyary == c.agyary && n.createdAt == now
            && (n.failed <==> c.badText || Count(rows, Number(c.phone), now) >= 1 || StandsInTheWay(rows, c, caps, now))
  {
    hide Count;
    FullExactly(rows, c, caps, now);
  }

  /** Each row planned was decided on the rows there were before it, for a candidate of its own, in the order they came. */
  lemma {:induction false} EachInTurn(rows: seq<Note>, cands: seq<Candidate>, caps: Caps, now: int)
    requires OneRowEach(rows) && Distinct(cands)
    ensures var after := PlanAll(rows, cands, caps, now);
            && rows <= after
            && (forall i :: |rows| <= i < |after| ==> DecidedFor(after, i, cands, caps, now))
            && (forall i, j, k, l :: |rows| <= i < j < |after| ==> InOrder(after, cands, i, j, k, l))
  {
    if cands != [] {
      hide RowFor, HasRow, Count, DecidedFor, InOrder;
      var front, c := cands[..|cands| - 1], cands[|cands| - 1];
      EachInTurn(rows, front, caps, now);
      EveryoneOnce(rows, front, caps, now);
      var before, after := PlanAll(rows, front, caps, now), PlanAll(rows, cands, caps, now);
      RowForIsFor(before, c, caps, now);
      forall i | |rows| <= i < |after|
        ensures DecidedFor(after, i, cands, caps, now)
      {
        DecidedStill(rows, before, after, front, cands, caps, now, i);
      }
      forall i, j, k, l | |rows| <= i < j < |after|
        ensures InOrder(after, cands, i, j, k, l)
      {
        TurnsStay(before, after, front, cands, |rows|, i, j, k, l);
      }
    }
  }

  /** Of two rows and the candidates they are for, the earlier row is for the earlier candidate. */
  predicate InOrder(after: seq<Note>, cands: seq<Candidate>, i: int, j: int, k: int, l: int)
    requires 0 <= i < |after| && 0 <= j < |after|
  {
    0 <= k < |cands| && 0 <= l < |cands| && cands[k].obs == after[i].obs && cands[l].obs == after[j].obs ==> k < l
  }

  lemma DecidedStill(rows: seq<Note>, before: seq<Note>, after: seq<Note>, front: seq<Candidate>, cands: seq<Candidate>,
                     caps: Caps, now: int, i: int)
    requires cands != [] && front == cands[..|cands| - 1] && rows <= before && |rows| <= i < |after|
    requires after == PlanOne(before, cands[|cands| - 1], caps, now)
    requires i < |before| ==> DecidedFor(before, i, front, caps, now)
    ensures DecidedFor(after, i, cands, caps, now)
  {
    hide RowFor, HasRow, Count;
    if i < |before| {
      var k :| 0 <= k < |front| && front[k].allowed && before[i] == RowFor(before[..i], front[k], caps, now);
      assert cands[k] == front[k] && after[..i] == before[..i];
    } else {
      assert after[..i] == before;
    }
  }

  ghost predicate DecidedFor(after: seq<Note>, i: int, cands: seq<Candidate>, caps: Caps, now: int)
    requires 0 <= i < |after|
  {
    exists k :: 0 <= k < |cands| && cands[k].allowed && after[i] == RowFor(after[..i], cands[k], caps, now)
  }

  lemma TurnsStay(before: seq<Note>, after: seq<Note>, front: seq<Candidate>, cands: seq<Candidate>, from: nat,
                  i: int, j: int, k: int, l: int)
    requires cands != [] && front == cands[..|cands| - 1] && Distinct(cands)
    requires before <= after && |after| <= |before| + 1 && from <= |before|
    requires |after| > |before| ==> after[|before|].obs == cands[|cands| - 1].obs
    requires forall m :: from <= m < |before| ==> exists q :: 0 <= q < |front| && front[q].allowed && front[q].obs == before[m].obs
    requires forall m, n, q, r :: from <= m < n < |before| ==> InOrder(before, front, m, n, q, r)
    requires from <= i < j < |after|
    ensures InOrder(after, cands, i, j, k, l)
  {
    if 0 <= k < |cands| && 0 <= l < |cands| && cands[k].obs == after[i].obs && cands[l].obs == after[j].obs {
      var q :| 0 <= q < |front| && front[q].allowed && front[q].obs == before[i].obs;
      assert cands[q].obs == cands[k].obs;
      assert k == q;
      if j < |before| {
        var r :| 0 <= r < |front| && front[r].allowed && front[r].obs == before[j].obs;
        assert cands[r].obs == cands[l].obs;
        assert l == r;
        assert InOrder(before, front, i, j, k, l);
      }
    }
  }

  /** Each cap by its own name: a figure ends at or under it, or has not risen; a new account's own cap binds it too. */
  lemma EachCapHolds(rows: seq<Note>, cands: seq<Candidate>, caps: Caps, now: int)
    ensures var after := PlanAll(rows, cands, caps, now);
            && (Count(after, Today, now) <= caps.daily || Count(after, Today, now) == Count(rows, Today, now))
            && (Count(after, Month, now) <= caps.monthly || Count(after, Month, now) == Count(rows, Month, now))
            && (forall owner :: Count(after, Mobed(owner), now) <= caps.perMobed
                                || Count(after, Mobed(owner), now) == Count(rows, Mobed(owner), now))
            && (forall owner :: owner in caps.newAccounts ==>
                  Count(after, Mobed(owner), now) <= caps.newAccounts[owner]
                  || Count(after, Mobed(owner), now) == Count(rows, Mobed(owner), now))
            && (forall agyary :: Count(after, Temple(agyary), now) <= caps.perAgyary
                                 || Count(after, Temple(agyary), now) == Count(rows, Temple(agyary), now))
  {
    hide Count, PlanAll;
    CapsHold(rows, cands, caps, now, Today);
    CapsHold(rows, cands, caps, now, Month);
    forall owner
      ensures var after := PlanAll(rows, cands, caps, now);
              Count(after, Mobed(owner), now) <= CapOf(caps, Mobed(owner))
              || Count(after, Mobed(owner), now) == Count(rows, Mobed(owner), now)
    {
      CapsHold(rows, cands, caps, now, Mobed(owner));
    }
    forall agyary
      ensures var after := PlanAll(rows, cands, caps, now);
              Count(after, Temple(agyary), now) <= caps.perAgyary
              || Count(after, Temple(agyary), now) == Count(rows, Temple(agyary), now)
    {
      CapsHold(rows, cands, caps, now, Temple(agyary));
    }
  }

  // --- Whether the admins hear of a limit ---

  /** A cap, and nothing before it, keeps this candidate's reminder from going. */
  predicate CapStops(rows: seq<Note>, c: Candidate, caps: Caps, now: int) {
    c.allowed && !HasRow(rows, c.obs) && !c.badText && Count(rows, Number(c.phone), now) == 0 && Full(rows, c, caps, now)
  }

  predicate Alerts(rows: seq<Note>, cands: seq<Candidate>, caps: Caps, now: int) {
    cands != [] &&
    (Alerts(rows, cands[..|cands| - 1], caps, now)
     || CapStops(PlanAll(rows, cands[..|cands| - 1], caps, now), cands[|cands| - 1], caps, now))
  }

  /** They hear exactly if a cap stopped some candidate, as the rows stood at its turn. */
  lemma {:induction false} AlertsExactly(rows: seq<Note>, cands: seq<Candidate>, caps: Caps, now: int)
    ensures Alerts(rows, cands, caps, now) <==>
              exists k :: 0 <= k < |cands| && CapStops(PlanAll(rows, cands[..k], caps, now), cands[k], caps, now)
  {
    if cands != [] {
      hide CapStops, PlanAll;
      var front := cands[..|cands| - 1];
      AlertsExactly(rows, front, caps, now);
      forall k | 0 <= k < |front|
        ensures front[..k] == cands[..k] && front[k] == cands[k]
      {
      }
      if k :| 0 <= k < |front| && CapStops(PlanAll(rows, front[..k], caps, now), front[k], caps, now) {
        assert CapStops(PlanAll(rows, cands[..k], caps, now), cands[k], caps, now);
      }
      if k :| 0 <= k < |cands| && CapStops(PlanAll(rows, cands[..k], caps, now), cands[k], caps, now) {
        if k < |front| {
          assert CapStops(PlanAll(rows, front[..k], caps, now), front[k], caps, now);
        }
      }
    }
  }

  lemma AlertsNext(rows: seq<Note>, cands: seq<Candidate>, i: nat, caps: Caps, now: int)
    requires i < |cands|
    ensures Alerts(rows, cands[..i + 1], caps, now) <==>
              Alerts(rows, cands[..i], caps, now) || CapStops(PlanAll(rows, cands[..i], caps, now), cands[i], caps, now)
  {
    hide CapStops, PlanAll;
    assert cands[..i + 1][..i] == cands[..i];
  }

  // --- The running tally ---

  /** Reminders planned or sent in the current day and month; failed ones were not sent and cost nothing. */
  datatype Usage = Usage(today: nat, month: nat, perMobed: map<int, nat>, perAgyary: map<int, nat>)

  function Get(m: map<int, nat>, key: int): nat {
    if key in m then m[key] else 0
  }

  function Add(u: Usage, owner: int, agyary: int): Usage {
    Usage(u.today + 1, u.month + 1, u.perMobed[owner := Get(u.perMobed, owner) + 1],
          u.perAgyary[agyary := Get(u.perAgyary, agyary) + 1])
  }

  /** The cap that forbids one more reminder, the widest first. */
  function Blocker(u: Usage, owner: int, agyary: int, caps: Caps): Option<Limit> {
    if u.today >= caps.daily then Some(DailyLimit)
    else if u.month >= caps.monthly then Some(MonthlyLimit)
    else if owner in caps.newAccounts && Get(u.perMobed, owner) >= caps.newAccounts[owner] then Some(NewAccountLimit)
    else if Get(u.perMobed, owner) >= caps.perMobed then Some(MobedLimit)
    else if Get(u.perAgyary, agyary) >= caps.perAgyary then Some(TempleLimit)
    else None
  }

  /** Which limit is named: the first in the way, of the day, the month, the new account, the mobed and the temple. */
  lemma BlockerNames(u: Usage, owner: int, agyary: int, caps: Caps)
    ensures var mine, theirs := Get(u.perMobed, owner), Get(u.perAgyary, agyary);
            var daily, monthly := u.today >= caps.daily, u.month >= caps.monthly;
            var recent, mobed, temple :=
              owner in caps.newAccounts && mine >= caps.newAccounts[owner], mine >= caps.perMobed, theirs >= caps.perAgyary;
            var limit := Blocker(u, owner, agyary, caps);
            && (limit == Some(DailyLimit) <==> daily)
            && (limit == Some(MonthlyLimit) <==> monthly && !daily)
            && (limit == Some(NewAccountLimit) <==> recent && !daily && !monthly)
            && (limit == Some(MobedLimit) <==> mobed && !recent && !daily && !monthly)
            && (limit == Some(TempleLimit) <==> temple && !mobed && !recent && !daily && !monthly)
  {
  }

  ghost predicate IsRecount(u: Usage, rows: seq<Note>, now: int) {
    && u.today == Count(rows, Today, now) && u.month == Count(rows, Month, now)
    && (forall owner :: Get(u.perMobed, owner) == Count(rows, Mobed(owner), now))
    && (forall agyary :: Get(u.perAgyary, agyary) == Count(rows, Temple(agyary), now))
  }

  ghost predicate AreReminded(phones: set<int>, rows: seq<Note>, now: int) {
    forall phone :: phone in phones <==> Count(rows, Number(phone), now) > 0
  }

  /** The running tally blocks exactly when a recount would. */
  lemma BlockerIsFull(u: Usage, rows: seq<Note>, c: Candidate, caps: Caps, now: int)
    requires IsRecount(u, rows, now)
    ensures Blocker(u, c.owner, c.agyary, caps).Some? <==> Full(rows, c, caps, now)
  {
    hide Count;
    var figures := [Today, Month, Mobed(c.owner), Temple(c.agyary)];
    assert figures[0] in figures && figures[1] in figures && figures[2] in figures && figures[3] in figures;
    if Full(rows, c, caps, now) {
      var f :| f in figures && Count(rows, f, now) >= CapOf(caps, f);
    }
  }

  /** One more row moves the tally by what it counts for. */
  lemma TallyOneMore(u: Usage, phones: set<int>, rows: seq<Note>, n: Note, now: int)
    requires IsRecount(u, rows, now) && AreReminded(phones, rows, now)
    ensures n.failed ==> IsRecount(u, rows + [n], now) && AreReminded(phones, rows + [n], now)
    ensures !n.failed && n.createdAt == now && n.owner.Some? ==>
              IsRecount(Add(u, n.owner.value, n.agyary), rows + [n], now) && AreReminded(phones + {n.phone}, rows + [n], now)
  {
    hide InMonth, Count;
    MonthBoundsAreTheMonth(now, now);
    forall f
      ensures Count(rows + [n], f, now) == Count(rows, f, now) + if Counts(n, f, now) then 1 else 0
    {
      CountOneMore(rows, n, f, now);
    }
  }

  // --- Who is told ---

  /** Every reminder that will not go is told to its mobed. */
  function ToldOf(rows: seq<Note>): seq<(Option<int>, int)> {
    if rows == [] then []
    else
      var n := rows[|rows| - 1];
      ToldOf(rows[..|rows| - 1]) + if n.failed then [(n.owner, n.obs)] else []
  }

  /** Told are exactly the mobeds of the refused, once for each; the rest are pending. */
  lemma {:induction false} ToldExactly(rows: seq<Note>)
    ensures forall x :: x in ToldOf(rows) <==> exists i :: 0 <= i < |rows| && rows[i].failed && x == (rows[i].owner, rows[i].obs)
    ensures |ToldOf(rows)| + PendingIn(rows) == |rows|
  {
    if rows != [] {
      var front, last := rows[..|rows| - 1], rows[|rows| - 1];
      ToldExactly(front);
      assert rows == front + [last];
    }
  }

  function PendingIn(rows: seq<Note>): nat {
    if rows == [] then 0 else PendingIn(rows[..|rows| - 1]) + if rows[|rows| - 1].failed then 0 else 1
  }

  lemma OneMoreRow(rows: seq<Note>, n: Note)
    ensures ToldOf(rows + [n]) == ToldOf(rows) + if n.failed then [(n.owner, n.obs)] else []
    ensures PendingIn(rows + [n]) == PendingIn(rows) + if n.failed then 0 else 1
  {
    assert (rows + [n])[..|rows|] == rows;
  }

  /** A dry run passes over no one. */
  function Everyone(cands: seq<Candidate>): (r: seq<Candidate>)
    ensures |r| == |cands| && forall i :: 0 <= i < |cands| ==> r[i] == cands[i].(allowed := true)
  {
    if cands == [] then [] else Everyone(cands[..|cands| - 1]) + [cands[|cands| - 1].(allowed := true)]
  }

  lemma OneMoreCandidate(rows: seq<Note>, cands: seq<Candidate>, i: nat, caps: Caps, now: int)
    requires i < |cands|
    ensures PlanAll(rows, cands[..i + 1], caps, now) == PlanOne(PlanAll(rows, cands[..i], caps, now), cands[i], caps, now)
  {
    assert cands[..i + 1][..i] == cands[..i];
  }

  /** Planning the ones before gives the next observance no row. */
  lemma NoRowFromOthers(rows: seq<Note>, cands: seq<Candidate>, i: nat, caps: Caps, now: int)
    requires OneRowEach(rows) && Distinct(cands) && i < |cands|
    ensures rows <= PlanAll(rows, cands[..i], caps, now)
    ensures HasRow(PlanAll(rows, cands[..i], caps, now), cands[i].obs) <==> HasRow(rows, cands[i].obs)
  {
    hide PlanAll;
    var after := PlanAll(rows, cands[..i], caps, now);
    EveryoneOnce(rows, cands[..i], caps, now);
    if HasRow(after, cands[i].obs) {
      var j :| 0 <= j < |after| && after[j].obs == cands[i].obs;
      assert j < |rows|;
      assert rows[j].obs == cands[i].obs;
    }
    if HasRow(rows, cands[i].obs) {
      var j :| 0 <= j < |rows| && rows[j].obs == cands[i].obs;
      assert after[j].obs == cands[i].obs;
    }
  }

  /** The tally of the rows, one more read. */
  function CountIn(u: Usage, n: Note, now: int): Usage {
    var month := if !n.failed && InMonth(n.createdAt, now) then u.month + 1 else u.month;
    if n.failed || !InDay(n.createdAt, now) then u.(month := month)
    else if n.owner.None? then u.(month := month, today := u.today + 1)
    else Add(u, n.owner.value, n.agyary).(month := month)
  }

  lemma RowCountedIn(u: Usage, phones: set<int>, rows: seq<Note>, n: Note, now: int)
    requires IsRecount(u, rows, now) && AreReminded(phones, rows, now)
    ensures IsRecount(CountIn(u, n, now), rows + [n], now)
    ensures AreReminded(if !n.failed && InDay(n.createdAt, now) then phones + {n.phone} else phones, rows + [n], now)
  {
    hide Count, InMonth, InDay;
    forall f
      ensures Count(rows + [n], f, now) == Count(rows, f, now) + if Counts(n, f, now) then 1 else 0
    {
      CountOneMore(rows, n, f, now);
    }
  }

  /** What the next candidate does to the rows, their own row or none told by the rows there were before. */
  lemma NextCandidate(rows: seq<Note>, cands: seq<Candidate>, i: nat, caps: Caps, now: int)
    requires OneRowEach(rows) && Distinct(cands) && i < |cands|
    ensures var before, after := PlanAll(rows, cands[..i], caps, now), PlanAll(rows, cands[..i + 1], caps, now);
            && rows <= before
            && (HasRow(before, cands[i].obs) <==> HasRow(rows, cands[i].obs))
            && after == (if !cands[i].allowed || HasRow(rows, cands[i].obs) then before
                         else before + [RowFor(before, cands[i], caps, now)])
  {
    hide PlanAll, HasRow, RowFor;
    OneMoreCandidate(rows, cands, i, caps, now);
    NoRowFromOthers(rows, cands, i, caps, now);
  }

  lemma LongerTail(rows: seq<Note>, longer: seq<Note>, n: Note)
    requires rows <= longer
    ensures rows <= longer + [n]
    ensures ToldOf((longer + [n])[|rows|..]) == ToldOf(longer[|rows|..]) + if n.failed then [(n.owner, n.obs)] else []
    ensures PendingIn((longer + [n])[|rows|..]) == PendingIn(longer[|rows|..]) + if n.failed then 0 else 1
  {
    hide ToldOf, PendingIn;
    OneMoreRow(longer[|rows|..], n);
    assert (longer + [n])[|rows|..] == longer[|rows|..] + [n];
  }

  class PlanBook {
    var rows: seq<Note>
    var told: seq<(Option<int>, int)>

    constructor ()
      ensures rows == [] && told == []
    {
      rows, told := [], [];
    }

    /** The tally as the rows stand. */
    method TakeUsage(now: int) returns (u: Usage, reminded: set<int>)
      ensures IsRecount(u, rows, now) && AreReminded(reminded, rows, now)
    {
      hide Count, InMonth, InDay, IsRecount, AreReminded, CountIn;
      u, reminded := Usage(0, 0, map[], map[]), {};
      var i := 0;
      NothingCounted(now);
      while i < |rows|
        invariant 0 <= i <= |rows|
        invariant IsRecount(u, rows[..i], now) && AreReminded(reminded, rows[..i], now)
      {
        var n := rows[i];
        assert rows[..i + 1] == rows[..i] + [n];
        RowCountedIn(u, reminded, rows[..i], n, now);
        u := CountIn(u, n, now);
        if !n.failed && InDay(n.createdAt, now) {
          reminded := reminded + {n.phone};
        }
        i := i + 1;
      }
      assert rows[..i] == rows;
    }

    /** One pass. Live, it does what counting afresh each time would; a dry run writes nothing and counts the same. */
    method PlanTomorrow(cands: seq<Candidate>, mode: Mode, caps: Caps, now: int) returns (planned: nat, alerted: bool)
      requires OneRowEach(rows) && Distinct(cands)
      modifies this
      ensures mode != Live ==> rows == old(rows) && told == old(told)
      ensures mode == Off ==> planned == 0 && !alerted
      ensures mode == Live ==> rows == PlanAll(old(rows), cands, caps, now) && old(rows) <= rows
      ensures mode == Live ==> told == old(told) + ToldOf(rows[|old(rows)|..]) && planned == PendingIn(rows[|old(rows)|..])
      ensures mode == Live ==> (alerted <==> Alerts(old(rows), cands, caps, now))
      ensures mode == DryRun ==> (alerted <==> Alerts(old(rows), Everyone(cands), caps, now))
      ensures mode == DryRun ==>
        var would := PlanAll(old(rows), Everyone(cands), caps, now);
        old(rows) <= would && planned == PendingIn(would[|old(rows)|..])
    {
      hide Count, RowFor, HasRow, PlanAll, PlanOne, IsRecount, AreReminded, Full, Blocker, ToldOf, PendingIn, OneRowEach, Add, Alerts;
      planned, alerted := 0, false;
      if mode == Off {
        return;
      }
      var used, reminded := TakeUsage(now);
      ghost var was, tolds, all := rows, told, if mode == Live then cands else Everyone(cands);
      ghost var shadow := was;
      NothingPlanned(was, all, caps, now);
      var i := 0;
      while i < |cands|
        invariant 0 <= i <= |cands|
        invariant shadow == PlanAll(was, all[..i], caps, now) && was <= shadow
        invariant IsRecount(used, shadow, now) && AreReminded(reminded, shadow, now)
        invariant rows == if mode == Live then shadow else was
        invariant told == if mode == Live then tolds + ToldOf(shadow[|was|..]) else tolds
        invariant planned == PendingIn(shadow[|was|..])
        invariant alerted <==> Alerts(was, all[..i], caps, now)
      {
        var c := cands[i];
        NextCandidate(was, all, i, caps, now);
        AlertsNext(was, all, i, caps, now);
        CapDecides(used, reminded, shadow, all[i], caps, now);
        i := i + 1;
        if mode == Live && !c.allowed {
          continue;
        }
        var already := AlreadyPlanned(c.obs);
        if already {
          continue;
        }
        ghost var n := RowFor(shadow, all[i - 1], caps, now);
        Decided(used, reminded, shadow, all[i - 1], caps, now);
        TallyOneMore(used, reminded, shadow, n, now);
        LongerTail(was, shadow, n);
        shadow := shadow + [n];
        if c.badText || c.phone in reminded {
          if mode == Live {
            RecordNotSent(c, now);
          }
          continue;
        }
        var limit := Blocker(used, c.owner, c.agyary, caps);
        if limit.Some? {
          alerted := true;
          if mode == Live {
            RecordNotSent(c, now);
          }
          continue;
        }
        if mode == Live {
          rows := rows + [Note(c.obs, c.phone, Some(c.owner), c.agyary, now, false)];
        }
        planned := planned + 1;
        reminded := reminded + {c.phone};
        used := Add(used, c.owner, c.agyary);
      }
      assert all[..i] == all;
    }

    method AlreadyPlanned(obs: int) returns (found: bool)
      ensures found <==> HasRow(rows, obs)
    {
      found := exists i :: 0 <= i < |rows| && rows[i].obs == obs;
    }

    /** Note a reminder that will not go, and tell its mobed. */
    method RecordNotSent(c: Candidate, now: int)
      modifies this
      ensures rows == old(rows) + [Note(c.obs, c.phone, Some(c.owner), c.agyary, now, true)]
      ensures told == old(told) + [(Some(c.owner), c.obs)]
    {
      rows := rows + [Note(c.obs, c.phone, Some(c.owner), c.agyary, now, true)];
      told := told + [(Some(c.owner), c.obs)];
    }
  }

  lemma NothingCounted(now: int)
    ensures IsRecount(Usage(0, 0, map[], map[]), [], now) && AreReminded({}, [], now)
  {
  }

  lemma NothingPlanned(rows: seq<Note>, cands: seq<Candidate>, caps: Caps, now: int)
    ensures PlanAll(rows, cands[..0], caps, now) == rows && !Alerts(rows, cands[..0], caps, now)
    ensures ToldOf(rows[|rows|..]) == [] && PendingIn(rows[|rows|..]) == 0
  {
  }

  lemma CapDecides(u: Usage, reminded: set<int>, rows: seq<Note>, c: Candidate, caps: Caps, now: int)
    requires IsRecount(u, rows, now) && AreReminded(reminded, rows, now)
    ensures CapStops(rows, c, caps, now) <==>
              c.allowed && !HasRow(rows, c.obs) && !c.badText && c.phone !in reminded
              && Blocker(u, c.owner, c.agyary, caps).Some?
  {
    hide Full, Blocker, IsRecount, HasRow;
    BlockerIsFull(u, rows, c, caps, now);
  }

  /** The row counting afresh gives is the one the running tally decides on. */
  lemma Decided(u: Usage, reminded: set<int>, rows: seq<Note>, c: Candidate, caps: Caps, now: int)
    requires IsRecount(u, rows, now) && AreReminded(reminded, rows, now)
    ensures RowFor(rows, c, caps, now)
            == Note(c.obs, c.phone, Some(c.owner), c.agyary, now,
                    c.badText || c.phone in reminded || Blocker(u, c.owner, c.agyary, caps).Some?)
  {
    hide Full, Blocker, IsRecount;
    BlockerIsFull(u, rows, c, caps, now);
  }
}
