/**
 What every run of booking, moving, releasing, repeating, topping up and deleting keeps.
 */
module RecurrenceRuns {
  import opened Results
  import opened Engine
  import opened RojMahCount
  import opened MemorialSeries
  import opened Slots
  import opened Recurrence

  datatype Op =
    | ClaimOp(agyary: int, customer: int, geh: int, date: int, owner: Option<int>, seen: set<int>)
    | RebookOp(id: int, geh: int, date: int, seen: set<int>)
    | ReleaseOp(id: int, status: Status)
    | StartOp(id: int, pattern: Pattern, count: Option<int>, now: int)
    | TopUpOp(rule: int, through: int, now: int)
    | StaleTopUpOp(rule: int, source: Machi, k: int, through: int, now: int)
    | DeleteOp(id: int, future: bool, paid: set<int>, heir: int)

  function Apply(st: Store, op: Op): Store {
    match op
    case ClaimOp(agyary, customer, geh, date, owner, seen) =>
      if agyary in st.systems then Claim(st, agyary, customer, geh, date, owner, seen).0 else st
    case RebookOp(id, geh, date, seen) =>
      if id in st.machis && st.machis[id].agyary in st.systems then Rebook(st, id, geh, date, seen).0 else st
    case ReleaseOp(id, status) => Release(st, id, status)
    case StartOp(id, pattern, count, now) => StartSeries(st, id, pattern, count, now)
    case TopUpOp(rule, through, now) => TopUp(st, rule, through, now)
    case StaleTopUpOp(rule, source, k, through, now) => StaleTopUp(st, rule, source, k, through, now)
    case DeleteOp(id, future, paid, heir) => Delete(st, id, future, paid, heir)
  }

  function Run(st: Store, ops: seq<Op>): Store {
    if ops == [] then st else Apply(Run(st, ops[..|ops| - 1]), ops[|ops| - 1])
  }

  // --- Slots stay apart in every run ---

  lemma {:induction false} BookEachKeepsSlots(st: Store, ruleId: int, source: Machi, dates: seq<int>, now: int)
    requires SlotsValid(st) && source.agyary in st.systems
    ensures SlotsValid(BookEach(st, ruleId, source, dates, now))
    ensures BookEach(st, ruleId, source, dates, now).nextId >= st.nextId
  {
    if dates != [] {
      hide SlotKeys, FreeGehs, IndexAccepts;
      BookEachKeepsSlots(st, ruleId, source, dates[..|dates| - 1], now);
      var before, date := BookEach(st, ruleId, source, dates[..|dates| - 1], now), dates[|dates| - 1];
      ClaimKeepsSlots(before, source.agyary, source.customer, source.geh, date, source.owner,
                      FreeGehs(before, source.agyary, date, source.owner, now));
    }
  }

  lemma AttemptKeepsSlots(st: Store, ruleId: int, source: Machi, k: int, until: int, now: int)
    requires SlotsValid(st) && ruleId in st.rules && st.rules[ruleId].agyary in st.systems && source.agyary in st.systems
    ensures SlotsValid(AttemptFrom(st, ruleId, source, k, until, now))
  {
    hide SlotKeys, Attempts, BookEach;
    var rule := st.rules[ruleId];
    var dates := Attempts(st.systems[rule.agyary], SeriesFrom(rule.pattern, rule.origin), k, until, MAX_GENERATE_MONTHS);
    BookEachKeepsSlots(st, ruleId, source, dates, now);
  }

  lemma GenerateKeepsSlots(st: Store, ruleId: int, through: int, now: int)
    requires SlotsValid(st) && ruleId in st.rules && st.rules[ruleId].agyary in st.systems
    ensures SlotsValid(Generate(st, ruleId, through, now))
  {
    hide SlotKeys, AttemptFrom;
    var rule := st.rules[ruleId];
    if rule.source in st.machis {
      AttemptKeepsSlots(st, ruleId, st.machis[rule.source], Progress(rule), Through(rule, through), now);
    }
  }

  lemma StaleTopUpKeepsSlots(st: Store, ruleId: int, source: Machi, k: int, through: int, now: int)
    requires SlotsValid(st)
    ensures SlotsValid(StaleTopUp(st, ruleId, source, k, through, now))
  {
    hide SlotKeys, AttemptFrom, HasMore;
    if HasMore(st, ruleId, k, through) && source.agyary in st.systems {
      assert ruleId in st.rules && st.rules[ruleId].agyary in st.systems by { HasRule(st, ruleId, k, through); }
      AttemptKeepsSlots(st, ruleId, source, k, Through(st.rules[ruleId], through), now);
    }
  }

  lemma HasRule(st: Store, ruleId: int, k: int, through: int)
    requires HasMore(st, ruleId, k, through)
    ensures ruleId in st.rules && st.rules[ruleId].agyary in st.systems
  {
  }

  lemma DeleteKeepsSlots(st: Store, id: int, future: bool, paid: set<int>, heir: int)
    requires SlotsValid(st)
    ensures SlotsValid(Delete(st, id, future, paid, heir))
  {
    hide SlotKeys, Victims, Siblings;
    var after := Delete(st, id, future, paid, heir);
    assert forall k :: k in after.machis ==> k in st.machis && after.machis[k] == st.machis[k];
    assert forall k :: k in after.rules ==> k in st.rules;
  }

  lemma StartKeepsSlots(st: Store, id: int, pattern: Pattern, count: Option<int>, now: int)
    requires SlotsValid(st)
    ensures SlotsValid(StartSeries(st, id, pattern, count, now))
  {
    hide SlotKeys, Generate, LastOccurrence;
    if id in st.machis && st.machis[id].agyary in st.systems && st.machis[id].rule.None? && st.machis[id].mah <= 12 {
      var m := st.machis[id];
      var origin := Index(m.year, m.mah, m.roj);
      var rule := Rule(m.agyary, id, pattern, LastOccurrence(st.systems[m.agyary], pattern, origin, count), count,
                       m.date, true, origin, []);
      var linked := Begun(st, id, pattern, count);
      GenerateKeepsSlots(linked, st.nextId, OccursOn(st.systems[m.agyary], SeriesFrom(pattern, origin), HORIZON_PERIODS), now);
    }
  }

  lemma ApplyKeepsSlots(st: Store, op: Op)
    requires SlotsValid(st)
    ensures SlotsValid(Apply(st, op))
  {
    hide SlotKeys, Claim, Rebook, Generate, StaleTopUp, StartSeries, Delete;
    match op
    case ClaimOp(agyary, customer, geh, date, owner, seen) =>
      if agyary in st.systems {
        ClaimKeepsSlots(st, agyary, customer, geh, date, owner, seen);
      }
    case RebookOp(id, geh, date, seen) =>
      if id in st.machis {
        RebookKeepsSlots(st, id, geh, date, seen);
      }
    case ReleaseOp(id, status) => ReleaseKeepsSlots(st, id, status);
    case StartOp(id, pattern, count, now) => StartKeepsSlots(st, id, pattern, count, now);
    case TopUpOp(rule, through, now) =>
      if rule in st.rules && st.rules[rule].agyary in st.systems {
        GenerateKeepsSlots(st, rule, through, now);
      }
    case StaleTopUpOp(rule, source, k, through, now) => StaleTopUpKeepsSlots(st, rule, source, k, through, now);
    case DeleteOp(id, future, paid, heir) => DeleteKeepsSlots(st, id, future, paid, heir);
  }

  /**
   In every run, whatever races and whatever is moved: no two active machis of one mobed at one temple
   share a day and geh, and each is stored under the key of its own day.
   */
  lemma {:induction false} SlotsStayApart(st: Store, ops: seq<Op>)
    requires SlotsValid(st)
    ensures SlotsValid(Run(st, ops))
  {
    if ops != [] {
      SlotsStayApart(st, ops[..|ops| - 1]);
      ApplyKeepsSlots(Run(st, ops[..|ops| - 1]), ops[|ops| - 1]);
    }
  }

  // --- Rules and their series ---

  /** A rule's own books: its marker and everything it has tried are exactly the occurrences so far. */
  ghost predicate RuleInOrder(st: Store, rule: Rule) {
    && rule.agyary in st.systems
    && rule.marker == OccurrenceDate(st, rule, |rule.attempts|)
    && (forall i :: 0 <= i < |rule.attempts| ==> rule.attempts[i] == OccurrenceDate(st, rule, i + 1))
    && rule.endDate == LastOccurrence(st.systems[rule.agyary], rule.pattern, rule.origin, rule.endCount)
    && (rule.endDate.Some? ==> |rule.attempts| <= rule.endCount.value - 1)
  }

  /** Its source exists and belongs to it. */
  ghost predicate SourceStands(st: Store, ruleId: int, rule: Rule) {
    && rule.source in st.machis && st.machis[rule.source].rule == Some(ruleId)
    && st.machis[rule.source].agyary == rule.agyary
  }

  ghost predicate OnOccurrence(st: Store, rule: Rule, date: int)
    requires rule.agyary in st.systems
  {
    exists k :: 0 <= k <= |rule.attempts| && date == OccurrenceDate(st, rule, k)
  }

  /** A member's rule exists and it stands on one of its occurrences so far. */
  ghost predicate MemberStands(st: Store, m: Machi) {
    m.rule.Some? ==>
      && m.rule.value in st.rules && m.agyary == st.rules[m.rule.value].agyary && m.agyary in st.systems
      && OnOccurrence(st, st.rules[m.rule.value], m.date)
  }

  ghost predicate SeriesValid(st: Store) {
    && SlotsValid(st)
    && (forall r :: r in st.rules ==> RuleInOrder(st, st.rules[r]) && SourceStands(st, r, st.rules[r]))
    && (forall id :: id in st.machis ==> MemberStands(st, st.machis[id]))
  }

  /** A late top-up of a rule acts on its temple's own machi. */
  predicate OwnSource(st: Store, ruleId: int, source: Machi) {
    ruleId in st.rules ==> source.agyary == st.rules[ruleId].agyary
  }

  /** The marker a top-up read is still the one stored, or there was nothing for it to do. */
  predicate ReadsStored(st: Store, ruleId: int, k: int, through: int) {
    HasMore(st, ruleId, k, through) ==> k == Progress(st.rules[ruleId])
  }

  /**
   No member of a series is moved to another day, a rule is re-pointed to its earliest survivor, and a top-up that
   read its marker earlier finds it unchanged and the rule still running, unless it has nothing to do.
   */
  ghost predicate Allowed(st: Store, op: Op) {
    match op
    case RebookOp(id, geh, date, seen) => id in st.machis && st.machis[id].rule.Some? ==> date == st.machis[id].date
    case StaleTopUpOp(r, source, k, through, _) =>
      && OwnSource(st, r, source) && ReadsStored(st, r, k, through)
      && (HasMore(st, r, k, through) ==> st.rules[r].active)
    case DeleteOp(id, future, paid, heir) => ProperHeir(st, id, future, heir)
    case _ => true
  }

  ghost predicate AllAllowed(st: Store, ops: seq<Op>) {
    forall i :: 0 <= i < |ops| ==> Allowed(Run(st, ops[..i]), ops[i])
  }

  /** What one booking of a series does to the rows: nothing but, perhaps, one new member on that date. */
  ghost predicate OnlyNewMembers(st: Store, after: Store, ruleId: int, agyary: int, dates: seq<int>) {
    && after.systems == st.systems && after.rules == st.rules && after.nextId >= st.nextId
    && (forall id :: id in st.machis ==> id in after.machis && after.machis[id] == st.machis[id])
    && (forall id :: id in after.machis && id !in st.machis ==>
          id >= st.nextId && after.machis[id].rule == Some(ruleId) && after.machis[id].agyary == agyary
          && after.machis[id].date in dates)
  }

  lemma {:induction false} BookEachAddsMembers(st: Store, ruleId: int, source: Machi, dates: seq<int>, now: int)
    requires SlotsValid(st) && source.agyary in st.systems
    ensures OnlyNewMembers(st, BookEach(st, ruleId, source, dates, now), ruleId, source.agyary, dates)
  {
    if dates != [] {
      hide SlotKeys, FreeGehs, IndexAccepts, SlotsValid;
      var front := dates[..|dates| - 1];
      BookEachAddsMembers(st, ruleId, source, front, now);
      BookEachKeepsSlots(st, ruleId, source, front, now);
      var before := BookEach(st, ruleId, source, front, now);
      assert forall d :: d in dates <==> d in front || d == dates[|dates| - 1];
      assert before.nextId !in before.machis by { IdsAreBelow(before); }
    }
  }

  /** Bookings on other days leave a day's free gehs as they were. */
  lemma SameFree(st: Store, after: Store, ruleId: int, agyary: int, dates: seq<int>, date: int, owner: Option<int>, now: int)
    requires OnlyNewMembers(st, after, ruleId, agyary, dates) && date !in dates
    ensures FreeGehs(after, agyary, date, owner, now) == FreeGehs(st, agyary, date, owner, now)
  {
    hide CeremonyTime;
    forall geh
      ensures Booked(after, agyary, date, geh, owner) <==> Booked(st, agyary, date, geh, owner)
    {
      if Booked(st, agyary, date, geh, owner) {
        var id :| id in st.machis && HoldsSlot(st.machis[id], agyary, date, geh, owner);
        assert HoldsSlot(after.machis[id], agyary, date, geh, owner);
      }
    }
  }

  lemma IdsAreBelow(st: Store)
    requires SlotsValid(st)
    ensures st.nextId !in st.machis && st.nextId !in st.rules
  {
  }

  /** The attempts of a top-up never run past the last occurrence of a counted repeat. */
  lemma AttemptsWithinCount(system: CalendarSystem, s: Series, k: int, last: int, through: int, cap: nat)
    requires OccursOn(system, s, k) < through <= OccursOn(system, s, last)
    ensures k + |Attempts(system, s, k, through, cap)| <= last
  {
    hide OccursOn;
    var dates := Attempts(system, s, k, through, cap);
    AttemptsAre(system, s, k, through, cap);
    OccursInOrder(system, s, k, last);
    if |dates| > 1 {
      assert dates[|dates| - 2] == OccursOn(system, s, k + |dates| - 1);
      OccursInOrder(system, s, k + |dates| - 1, last);
    }
  }

  /** The rule `ruleId` may have come further; every other rule, and every row, is as it was. */
  ghost predicate Progressed(st: Store, after: Store, ruleId: int)
    requires ruleId in st.rules
  {
    var rule := st.rules[ruleId];
    && after.systems == st.systems && ruleId in after.rules && after.rules.Keys == st.rules.Keys
    && (forall r :: r in st.rules && r != ruleId ==> after.rules[r] == st.rules[r])
    && after.rules[ruleId].(marker := rule.marker, attempts := rule.attempts) == rule
    && RuleInOrder(after, after.rules[ruleId])
    && |rule.attempts| <= |after.rules[ruleId].attempts|
    && OnlyNewMembers(st, after.(rules := st.rules), ruleId, rule.agyary, after.rules[ruleId].attempts[|rule.attempts|..])
  }

  /** What attempting from the marker on does to a rule's own books. */
  lemma AttemptKeepsOrder(st: Store, ruleId: int, source: Machi, through: int, now: int)
    requires SeriesValid(st) && ruleId in st.rules && source.agyary == st.rules[ruleId].agyary
    requires st.rules[ruleId].marker < Through(st.rules[ruleId], through)
    ensures st.rules[ruleId].agyary in st.systems
    ensures var rule, until := st.rules[ruleId], Through(st.rules[ruleId], through);
            Progressed(st, AttemptFrom(st, ruleId, source, Progress(rule), until, now), ruleId)
  {
    hide SlotKeys, SlotsValid, BookEach, OccursOn, Attempts;
    var rule, until := st.rules[ruleId], Through(st.rules[ruleId], through);
    assert RuleInOrder(st, rule);
    var system, s, k := st.systems[rule.agyary], SeriesFrom(rule.pattern, rule.origin), |rule.attempts|;
    var dates := Attempts(system, s, k, until, MAX_GENERATE_MONTHS);
    AttemptsAre(system, s, k, until, MAX_GENERATE_MONTHS);
    BookEachAddsMembers(st, ruleId, source, dates, now);
    if rule.endDate.Some? {
      AttemptsWithinCount(system, s, k, rule.endCount.value - 1, until, MAX_GENERATE_MONTHS);
    }
    assert (rule.attempts + dates)[k..] == dates;
  }

  /** What a top-up does to a rule's own books. */
  lemma GenerateKeepsOrder(st: Store, ruleId: int, through: int, now: int)
    requires SeriesValid(st) && ruleId in st.rules
    ensures st.rules[ruleId].agyary in st.systems && Progressed(st, Generate(st, ruleId, through, now), ruleId)
  {
    hide SlotKeys, SlotsValid, AttemptFrom, OccursOn;
    var rule := st.rules[ruleId];
    assert RuleInOrder(st, rule) && SourceStands(st, ruleId, rule);
    if rule.marker < Through(rule, through) {
      AttemptKeepsOrder(st, ruleId, st.machis[rule.source], through, now);
    } else {
      assert rule.attempts[|rule.attempts|..] == [];
    }
  }

  lemma ProgressKeepsSeries(st: Store, after: Store, ruleId: int)
    requires SeriesValid(st) && SlotsValid(after) && ruleId in st.rules && Progressed(st, after, ruleId)
    ensures SeriesValid(after)
  {
    hide SlotKeys, SlotsValid, OccursOn, RuleInOrder;
    forall r | r in after.rules
      ensures RuleInOrder(after, after.rules[r]) && SourceStands(after, r, after.rules[r])
    {
      if r != ruleId {
        SameBooks(st, after, st.rules[r]);
      }
      assert SourceStands(st, r, st.rules[r]);
    }
    forall id | id in after.machis
      ensures MemberStands(after, after.machis[id])
    {
      NewMemberStands(st, after, ruleId, id);
    }
  }

  lemma GenerateKeepsSeries(st: Store, ruleId: int, through: int, now: int)
    requires SeriesValid(st) && ruleId in st.rules
    ensures SeriesValid(Generate(st, ruleId, through, now))
  {
    hide SlotKeys, SlotsValid, Generate, Progressed, RuleInOrder;
    assert SlotsValid(st);
    GenerateKeepsOrder(st, ruleId, through, now);
    GenerateKeepsSlots(st, ruleId, through, now);
    ProgressKeepsSeries(st, Generate(st, ruleId, through, now), ruleId);
  }

  /** A late top-up that finds the marker it read does what any top-up does. */
  lemma StaleProgresses(st: Store, r: int, source: Machi, k: int, through: int, now: int)
    requires SeriesValid(st) && HasMore(st, r, k, through) && OwnSource(st, r, source) && ReadsStored(st, r, k, through)
    ensures Progressed(st, StaleTopUp(st, r, source, k, through, now), r)
    ensures SeriesValid(StaleTopUp(st, r, source, k, through, now))
  {
    hide SlotKeys, SlotsValid, AttemptFrom, Progressed, OccursOn;
    var rule := st.rules[r];
    assert RuleInOrder(st, rule);
    assert StaleTopUp(st, r, source, k, through, now) == AttemptFrom(st, r, source, k, Through(rule, through), now);
    AttemptKeepsOrder(st, r, source, through, now);
    assert SlotsValid(st);
    StaleTopUpKeepsSlots(st, r, source, k, through, now);
    ProgressKeepsSeries(st, StaleTopUp(st, r, source, k, through, now), r);
  }

  lemma InOrderAgyary(st: Store, rule: Rule)
    requires RuleInOrder(st, rule)
    ensures rule.agyary in st.systems
  {
  }

  lemma SameBooks(st: Store, after: Store, rule: Rule)
    requires after.systems == st.systems && RuleInOrder(st, rule)
    ensures RuleInOrder(after, rule)
  {
  }

  lemma NewMemberStands(st: Store, after: Store, ruleId: int, id: int)
    requires SeriesValid(st) && ruleId in st.rules && id in after.machis && Progressed(st, after, ruleId)
    ensures MemberStands(after, after.machis[id])
  {
    hide SlotKeys, SlotsValid, OccursOn;
    var m := after.machis[id];
    if id in st.machis {
      assert m == st.machis[id] && MemberStands(st, m);
      if m.rule.Some? {
        var rule, later := st.rules[m.rule.value], after.rules[m.rule.value];
        if m.rule.value != ruleId {
          assert later == rule;
        }
        assert later.agyary == rule.agyary && later.pattern == rule.pattern && later.origin == rule.origin;
        var k :| 0 <= k <= |st.rules[m.rule.value].attempts| && m.date == OccurrenceDate(st, st.rules[m.rule.value], k);
        assert m.date == OccurrenceDate(after, after.rules[m.rule.value], k);
      }
    } else {
      var rule := after.rules[ruleId];
      var from := |st.rules[ruleId].attempts|;
      var i :| 0 <= i < |rule.attempts[from..]| && rule.attempts[from..][i] == m.date;
      assert rule.attempts[from + i] == m.date;
      assert m.date == OccurrenceDate(after, rule, from + i + 1);
    }
  }

  /** A machi not on a Gatha day sits on the date of its own Roj and Mah. */
  lemma StoredDate(st: Store, m: Machi)
    requires m.agyary in st.systems && m.mah <= 12
    requires (m.roj, m.mah, m.year) == SlotKeys(st.systems[m.agyary], m.date)
    ensures m.date == DateOf(st.systems[m.agyary], Index(m.year, m.mah, m.roj))
  {
    hide GregorianToParsi, ParsiToGregorian, DateOf;
    var system := st.systems[m.agyary];
    GregorianRoundTrip(m.date, system);
    ReadsBack(m.date, system);
    DateOfRojMah(system, m.year, m.mah, m.roj);
  }

  lemma StartKeepsSeries(st: Store, id: int, pattern: Pattern, count: Option<int>, now: int)
    requires SeriesValid(st)
    ensures SeriesValid(StartSeries(st, id, pattern, count, now))
  {
    hide SlotKeys, Generate, DateOf;
    if id in st.machis && st.machis[id].agyary in st.systems && st.machis[id].rule.None? && st.machis[id].mah <= 12 {
      var m := st.machis[id];
      var system := st.systems[m.agyary];
      var origin := Index(m.year, m.mah, m.roj);
      var rule := Rule(m.agyary, id, pattern, LastOccurrence(system, pattern, origin, count), count, m.date, true, origin, []);
      var linked := Begun(st, id, pattern, count);
      StoredDate(st, m);
      assert Slot(SeriesFrom(pattern, origin), 0) == origin;
      assert m.date == OccurrenceDate(linked, rule, 0);
      LinkedIsValid(st, linked, id, rule);
      GenerateKeepsSeries(linked, st.nextId, OccursOn(system, SeriesFrom(pattern, origin), HORIZON_PERIODS), now);
    }
  }

  lemma LinkedIsValid(st: Store, linked: Store, id: int, rule: Rule)
    requires SeriesValid(st) && id in st.machis && st.machis[id].rule.None? && st.machis[id].agyary in st.systems
    requires linked == st.(rules := st.rules[st.nextId := rule], nextId := st.nextId + 1,
                           machis := st.machis[id := st.machis[id].(rule := Some(st.nextId))])
    requires rule.agyary == st.machis[id].agyary && rule.source == id && rule.attempts == []
    requires rule.endDate == LastOccurrence(st.systems[rule.agyary], rule.pattern, rule.origin, rule.endCount)
    requires rule.marker == st.machis[id].date == OccurrenceDate(linked, rule, 0)
    ensures SeriesValid(linked)
  {
    hide SlotKeys, OccursOn;
    forall r | r in st.rules
      ensures RuleInOrder(linked, st.rules[r]) && SourceStands(linked, r, st.rules[r]) && r != st.nextId
    {
      assert RuleInOrder(st, st.rules[r]) && SourceStands(st, r, st.rules[r]);
    }
    forall k | k in linked.machis
      ensures MemberStands(linked, linked.machis[k])
    {
      if k == id {
        assert OnOccurrence(linked, rule, linked.machis[k].date);
      } else {
        SameMemberStands(st, linked, st.machis[k]);
      }
    }
  }

  /** A row that stays, under a rule with the same books, still stands. */
  lemma SameMemberStands(st: Store, after: Store, m: Machi)
    requires MemberStands(st, m) && after.systems == st.systems
    requires m.rule.Some? ==>
      && m.rule.value in after.rules
      && after.rules[m.rule.value].(source := 0, active := true) == st.rules[m.rule.value].(source := 0, active := true)
    ensures MemberStands(after, m)
  {
    hide OccursOn;
    if m.rule.Some? {
      var k :| 0 <= k <= |st.rules[m.rule.value].attempts| && m.date == OccurrenceDate(st, st.rules[m.rule.value], k);
      assert m.date == OccurrenceDate(after, after.rules[m.rule.value], k);
    }
  }

  lemma DeleteKeepsSeries(st: Store, id: int, future: bool, paid: set<int>, heir: int)
    requires SeriesValid(st) && ProperHeir(st, id, future, heir)
    ensures SeriesValid(Delete(st, id, future, paid, heir))
  {
    hide SlotKeys, OccursOn, SlotsValid;
    assert SlotsValid(st);
    DeleteKeepsSlots(st, id, future, paid, heir);
    var after := Delete(st, id, future, paid, heir);
    forall r | r in after.rules
      ensures RuleInOrder(after, after.rules[r]) && SourceStands(after, r, after.rules[r])
    {
      assert RuleInOrder(st, st.rules[r]) && SourceStands(st, r, st.rules[r]);
      DeleteKeepsSource(st, id, future, paid, heir, r);
    }
    forall k | k in after.machis
      ensures MemberStands(after, after.machis[k])
    {
      assert MemberStands(st, st.machis[k]);
      DeleteKeepsLink(st, id, future, paid, heir, k);
      SameMemberStands(st, after, st.machis[k]);
    }
  }

  lemma DeleteKeepsSource(st: Store, id: int, future: bool, paid: set<int>, heir: int, r: int)
    requires SeriesValid(st) && ProperHeir(st, id, future, heir)
    requires r in Delete(st, id, future, paid, heir).rules
    ensures r in st.rules
    ensures var after := Delete(st, id, future, paid, heir);
            after.rules[r].(source := 0, active := true) == st.rules[r].(source := 0, active := true)
            && SourceStands(after, r, after.rules[r])
  {
    hide SlotKeys, OccursOn, SlotsValid, RuleInOrder;
    assert r in st.rules;
    assert SourceStands(st, r, st.rules[r]);
    if id in st.machis && st.machis[id].rule == Some(r) {
      var victims := Victims(st, id, future);
      if !(Siblings(st, r) <= victims) {
        assert heir in Siblings(st, r) - victims;
        assert MemberStands(st, st.machis[heir]);
      }
    } else if id in st.machis {
      assert st.rules[r].source !in Victims(st, id, future);
    }
  }

  lemma DeleteKeepsLink(st: Store, id: int, future: bool, paid: set<int>, heir: int, k: int)
    requires SeriesValid(st) && k in Delete(st, id, future, paid, heir).machis
    ensures var after, m := Delete(st, id, future, paid, heir), st.machis[k];
            m.rule.Some? ==>
              && m.rule.value in after.rules
              && after.rules[m.rule.value].(source := 0, active := true) == st.rules[m.rule.value].(source := 0, active := true)
  {
    hide SlotKeys, OccursOn, SlotsValid, RuleInOrder;
    var m := st.machis[k];
    assert MemberStands(st, m);
    if m.rule.Some? && id in st.machis && st.machis[id].rule == m.rule {
      assert k in Siblings(st, m.rule.value);
      assert k in Siblings(st, m.rule.value) - Victims(st, id, future) || k in Victims(st, id, future);
    }
  }

  /** Steps that touch no rule and no member's day keep every series in order. */
  lemma QuietStepKeepsSeries(st: Store, after: Store)
    requires SeriesValid(st) && SlotsValid(after)
    requires after.systems == st.systems && after.rules == st.rules
    requires forall id :: id in st.machis ==>
      && id in after.machis
      && after.machis[id].rule == st.machis[id].rule && after.machis[id].agyary == st.machis[id].agyary
      && (st.machis[id].rule.Some? ==> after.machis[id].date == st.machis[id].date)
    requires forall id :: id in after.machis && id !in st.machis ==> after.machis[id].rule.None?
    ensures SeriesValid(after)
  {
    hide SlotKeys, OccursOn, SlotsValid;
    forall r | r in after.rules
      ensures RuleInOrder(after, after.rules[r]) && SourceStands(after, r, after.rules[r])
    {
      assert RuleInOrder(st, st.rules[r]) && SourceStands(st, r, st.rules[r]);
    }
    forall id | id in after.machis
      ensures MemberStands(after, after.machis[id])
    {
      if id in st.machis {
        assert MemberStands(st, st.machis[id]);
        if st.machis[id].rule.Some? {
          SameMemberStands(st, after, st.machis[id]);
        }
      }
    }
  }

  lemma ApplyKeepsSeries(st: Store, op: Op)
    requires SeriesValid(st) && Allowed(st, op)
    ensures SeriesValid(Apply(st, op))
  {
    hide SlotKeys, Generate, AttemptFrom, HasMore, StartSeries, Delete, RuleInOrder, SourceStands, MemberStands, IndexAccepts;
    ApplyKeepsSlots(st, op);
    match op
    case ClaimOp(_, _, _, _, _, _) =>
      IdsAreBelow(st);
      QuietStepKeepsSeries(st, Apply(st, op));
    case RebookOp(_, _, _, _) => QuietStepKeepsSeries(st, Apply(st, op));
    case ReleaseOp(_, _) => QuietStepKeepsSeries(st, Apply(st, op));
    case StartOp(id, pattern, count, now) => StartKeepsSeries(st, id, pattern, count, now);
    case TopUpOp(rule, through, now) =>
      if rule in st.rules && st.rules[rule].agyary in st.systems {
        GenerateKeepsSeries(st, rule, through, now);
      }
    case StaleTopUpOp(r, source, k, through, now) =>
      if HasMore(st, r, k, through) {
        StaleProgresses(st, r, source, k, through, now);
      }
    case DeleteOp(id, future, paid, heir) => DeleteKeepsSeries(st, id, future, paid, heir);
  }

  /**
   In every run that moves no series member to another day, its late top-ups harmless: each rule's source exists and belongs to it,
   each rule link names an existing rule, and what each rule has tried is exactly its first occurrences,
   never past the last one of a counted repeat.
   */
  lemma {:induction false} SeriesStayInOrder(st: Store, ops: seq<Op>)
    requires SeriesValid(st) && AllAllowed(st, ops)
    ensures SeriesValid(Run(st, ops))
  {
    if ops != [] {
      var front := ops[..|ops| - 1];
      forall i | 0 <= i < |front|
        ensures Allowed(Run(st, front[..i]), front[i])
      {
        assert front[..i] == ops[..i];
        assert Allowed(Run(st, ops[..i]), ops[i]);
      }
      SeriesStayInOrder(st, front);
      assert Allowed(Run(st, ops[..|ops| - 1]), ops[|ops| - 1]);
      ApplyKeepsSeries(Run(st, front), ops[|ops| - 1]);
    }
  }

  // --- What that comes to for one rule ---

  /** Each occurrence is tried once, in order, none skipped, and a counted repeat tries no more than its count. */
  lemma TriedOnceInOrder(st: Store, ruleId: int)
    requires SeriesValid(st) && ruleId in st.rules
    ensures var rule := st.rules[ruleId];
            && rule.agyary in st.systems
            && (forall i, j :: 0 <= i < j < |rule.attempts| ==> rule.attempts[i] < rule.attempts[j])
            && (forall i :: 0 <= i < |rule.attempts| ==>
                  rule.attempts[i] == OccursOn(st.systems[rule.agyary], SeriesFrom(rule.pattern, rule.origin), i + 1))
            && (rule.endCount.Some? && rule.endCount.value >= 2 ==> 1 + |rule.attempts| <= rule.endCount.value)
  {
    hide OccursOn, SlotsValid;
    var rule := st.rules[ruleId];
    assert RuleInOrder(st, rule);
    forall i, j | 0 <= i < j < |rule.attempts|
      ensures rule.attempts[i] < rule.attempts[j]
    {
      OccursInOrder(st.systems[rule.agyary], SeriesFrom(rule.pattern, rule.origin), i + 1, j + 1);
    }
  }

  /** A top-up that is due leaves the rule tried through what was asked, or through its end, or 36 further on. */
  lemma TopUpReaches(st: Store, ruleId: int, through: int, now: int)
    requires SeriesValid(st) && ruleId in st.rules && Due(st.rules[ruleId], through)
    ensures var before, rule := st.rules[ruleId], TopUp(st, ruleId, through, now).rules[ruleId];
            && before.attempts < rule.attempts
            && (rule.marker >= Through(before, through) || |rule.attempts| == |before.attempts| + MAX_GENERATE_MONTHS)
  {
    hide SlotsValid, BookEach, OccursOn;
    var rule := st.rules[ruleId];
    assert RuleInOrder(st, rule) && SourceStands(st, ruleId, rule);
    BookEachAddsMembers(st, ruleId, st.machis[rule.source],
                        Attempts(st.systems[rule.agyary], SeriesFrom(rule.pattern, rule.origin), Progress(rule),
                                 Through(rule, through), MAX_GENERATE_MONTHS), now);
  }

  /** A counted repeat has had its last occurrence. */
  predicate CountDone(rule: Rule) {
    rule.endCount.Some? && rule.endCount.value >= 2 && 1 + |rule.attempts| >= rule.endCount.value
  }

  /** A read tops up exactly the running rules whose last day tried is before the date asked, and whose count is not done. */
  lemma DueExactly(st: Store, ruleId: int, through: int)
    requires SeriesValid(st) && ruleId in st.rules
    ensures var rule := st.rules[ruleId];
            && rule.agyary in st.systems
            && (Due(rule, through) <==> rule.active && OccurrenceDate(st, rule, |rule.attempts|) < through && !CountDone(rule))
  {
    hide SlotsValid, OccursOn, SourceStands, MemberStands;
    DueInOrder(st, st.rules[ruleId], through);
  }

  lemma DueInOrder(st: Store, rule: Rule, through: int)
    requires RuleInOrder(st, rule)
    ensures rule.agyary in st.systems
    ensures Due(rule, through) <==> rule.active && OccurrenceDate(st, rule, |rule.attempts|) < through && !CountDone(rule)
  {
    hide OccursOn;
    if rule.endDate.Some? {
      OccursInOrder(st.systems[rule.agyary], SeriesFrom(rule.pattern, rule.origin), |rule.attempts|, rule.endCount.value - 1);
    }
  }

  /**
   How far a top-up goes: it tries the next occurrences in turn and stops on the first that reaches the date asked, or
   the last of its count, or is the thirty-sixth.
   */
  lemma TopUpGoesTo(st: Store, ruleId: int, through: int, now: int)
    requires SeriesValid(st) && ruleId in st.rules && Due(st.rules[ruleId], through)
    ensures ruleId in TopUp(st, ruleId, through, now).rules && st.rules[ruleId].agyary in st.systems
    ensures var before, rule := st.rules[ruleId], TopUp(st, ruleId, through, now).rules[ruleId];
            var a, b := |before.attempts|, |rule.attempts|;
            && rule.(marker := before.marker, attempts := before.attempts) == before
            && before.attempts < rule.attempts && a < b <= a + 36
            && (forall i :: a <= i < b ==> rule.attempts[i] == OccurrenceDate(st, before, i + 1))
            && (forall i :: a <= i < b - 1 ==> rule.attempts[i] < through)
            && (rule.attempts[b - 1] >= through || CountDone(rule) || b == a + 36)
            && rule.marker == rule.attempts[b - 1]
  {
    hide SlotsValid, BookEach, OccursOn, Attempts, MemberStands, TopUp, RuleInOrder;
    var rule := st.rules[ruleId];
    InOrderAgyary(st, rule);
    var system, s, k, until := st.systems[rule.agyary], SeriesFrom(rule.pattern, rule.origin), |rule.attempts|, Through(rule, through);
    var dates := Attempts(system, s, k, until, MAX_GENERATE_MONTHS);
    TopUpTries(st, ruleId, through, now);
    AttemptsAre(system, s, k, until, MAX_GENERATE_MONTHS);
    assert forall i :: k <= i < k + |dates| ==> (rule.attempts + dates)[i] == dates[i - k];
    StopsAtCount(st, rule, through);
  }

  lemma TopUpTries(st: Store, ruleId: int, through: int, now: int)
    requires SeriesValid(st) && ruleId in st.rules && Due(st.rules[ruleId], through)
    ensures var rule := st.rules[ruleId];
            && rule.agyary in st.systems && ruleId in TopUp(st, ruleId, through, now).rules
            && var dates := Attempts(st.systems[rule.agyary], SeriesFrom(rule.pattern, rule.origin), |rule.attempts|,
                                     Through(rule, through), MAX_GENERATE_MONTHS);
               TopUp(st, ruleId, through, now).rules[ruleId] ==
                 rule.(marker := dates[|dates| - 1], attempts := rule.attempts + dates)
  {
    hide SlotsValid, BookEach, OccursOn, Attempts, MemberStands;
    var rule := st.rules[ruleId];
    assert RuleInOrder(st, rule) && SourceStands(st, ruleId, rule);
    BookEachAddsMembers(st, ruleId, st.machis[rule.source],
                        Attempts(st.systems[rule.agyary], SeriesFrom(rule.pattern, rule.origin), Progress(rule),
                                 Through(rule, through), MAX_GENERATE_MONTHS), now);
  }

  lemma EndIs(st: Store, rule: Rule)
    requires RuleInOrder(st, rule)
    ensures rule.agyary in st.systems
    ensures rule.endDate.Some? <==> rule.endCount.Some? && rule.endCount.value >= 2
    ensures rule.endDate.Some? ==> rule.endDate.value == OccurrenceDate(st, rule, rule.endCount.value - 1)
  {
    hide OccursOn;
  }

  /** Where the attempts of a due top-up stop. */
  lemma StopsAtCount(st: Store, rule: Rule, through: int)
    requires RuleInOrder(st, rule) && Due(rule, through)
    ensures var dates := Attempts(st.systems[rule.agyary], SeriesFrom(rule.pattern, rule.origin), |rule.attempts|,
                                  Through(rule, through), MAX_GENERATE_MONTHS);
            && 0 < |dates| <= 36 && (forall i :: 0 <= i < |dates| - 1 ==> dates[i] < through)
            && (dates[|dates| - 1] >= through || |dates| == 36
                || (rule.endCount.Some? && rule.endCount.value >= 2 && 1 + |rule.attempts| + |dates| >= rule.endCount.value))
  {
    hide OccursOn, Attempts, RuleInOrder;
    EndIs(st, rule);
    var system, s, k, until := st.systems[rule.agyary], SeriesFrom(rule.pattern, rule.origin), |rule.attempts|, Through(rule, through);
    var dates := Attempts(system, s, k, until, MAX_GENERATE_MONTHS);
    AttemptsAre(system, s, k, until, MAX_GENERATE_MONTHS);
    if rule.endDate.Some? && until < through && dates[|dates| - 1] >= until {
      assert dates[|dates| - 1] == OccursOn(system, s, k + 1 + (|dates| - 1));
      OccursInOrder(system, s, k + |dates|, rule.endCount.value - 1);
    }
  }

  /** A repeat begins with its next three occurrences tried, or as many as a shorter count has. */
  lemma StartTries(st: Store, id: int, pattern: Pattern, count: Option<int>, now: int)
    requires SeriesValid(st) && Startable(st, id)
    ensures var started := StartSeries(st, id, pattern, count, now);
            && st.nextId in started.rules
            && |started.rules[st.nextId].attempts| == if count.Some? && 2 <= count.value < 4 then count.value - 1 else 3
  {
    hide SlotKeys, DateOf, SlotsApart, KeysRight, SourceStands, MemberStands, RuleInOrder, OccursOn, TopUp, Generate;
    StartedRule(st, id, pattern, count, now);
    var m := st.machis[id];
    var system, origin := st.systems[m.agyary], Index(m.year, m.mah, m.roj);
    var s := SeriesFrom(pattern, origin);
    var rule := Rule(m.agyary, id, pattern, LastOccurrence(system, pattern, origin, count), count, m.date, true, origin, []);
    var linked := Begun(st, id, pattern, count);
    StoredOrigin(st, m, pattern, origin);
    LinkedIsValid(st, linked, id, rule);
    OccursInOrder(system, s, 0, 3);
    if count.Some? && count.value >= 2 {
      OccursInOrder(system, s, 0, count.value - 1);
    }
    var through := OccursOn(system, s, 3);
    StartIsTopUp(st, id, pattern, count, now);
    assert OccurrenceDate(linked, linked.rules[st.nextId], 0) == OccursOn(system, s, 0);
    TopUpGoesTo(linked, st.nextId, through, now);
    var attempts := TopUp(linked, st.nextId, through, now).rules[st.nextId].attempts;
    var n := |attempts|;
    assert linked.rules[st.nextId].attempts == [] && 0 < n <= 36;
    assert attempts[n - 1] == OccursOn(system, s, n);
    OccursInOrder(system, s, n, 3);
    if n > 1 {
      assert attempts[n - 2] == OccursOn(system, s, n - 1);
      OccursInOrder(system, s, n - 1, 3);
    }
    assert n <= 3;
    StartedInOrder(st, id, pattern, count, now);
  }

  lemma StartIsTopUp(st: Store, id: int, pattern: Pattern, count: Option<int>, now: int)
    requires SeriesValid(st) && Startable(st, id)
    ensures var m := st.machis[id];
            var system, s := st.systems[m.agyary], SeriesFrom(pattern, Index(m.year, m.mah, m.roj));
            && Due(Begun(st, id, pattern, count).rules[st.nextId], OccursOn(system, s, 3))
            && StartSeries(st, id, pattern, count, now) ==
                 TopUp(Begun(st, id, pattern, count), st.nextId, OccursOn(system, s, 3), now)
  {
    hide SlotKeys, DateOf, SlotsApart, KeysRight, SourceStands, MemberStands, RuleInOrder, OccursOn, Generate;
    var m := st.machis[id];
    var system, origin := st.systems[m.agyary], Index(m.year, m.mah, m.roj);
    var s := SeriesFrom(pattern, origin);
    StoredOrigin(st, m, pattern, origin);
    OccursInOrder(system, s, 0, 3);
    if count.Some? && count.value >= 2 {
      OccursInOrder(system, s, 0, count.value - 1);
    }
  }

  lemma StartedInOrder(st: Store, id: int, pattern: Pattern, count: Option<int>, now: int)
    requires SeriesValid(st) && Startable(st, id)
    ensures var started := StartSeries(st, id, pattern, count, now);
            && st.nextId in started.rules
            && (count.Some? && count.value >= 2 ==> |started.rules[st.nextId].attempts| <= count.value - 1)
  {
    hide SlotKeys, SlotsValid, OccursOn, SourceStands, MemberStands;
    StartedRule(st, id, pattern, count, now);
    var started := StartSeries(st, id, pattern, count, now);
    assert RuleInOrder(started, started.rules[st.nextId]);
  }

  // --- Nothing deleted comes back ---

  ghost predicate RuleFollows(st: Store, later: Store, r: int) {
    r in later.rules && r < st.nextId ==>
      && r in st.rules && st.rules[r].marker <= later.rules[r].marker
      && st.rules[r].(source := 0, active := true, marker := 0, attempts := [])
         == later.rules[r].(source := 0, active := true, marker := 0, attempts := [])
      && |st.rules[r].attempts| <= |later.rules[r].attempts|
      && (later.rules[r].active ==> st.rules[r].active)
  }

  /** A row is either an old one, or a new one that an active rule booked past its old marker. */
  ghost predicate RowFollows(st: Store, later: Store, id: int) {
    id in later.machis ==>
      var m := later.machis[id];
      && (id < st.nextId ==> id in st.machis)
      && (m.rule.Some? && m.rule.value < st.nextId ==>
            if id in st.machis then m.rule == st.machis[id].rule && m.date == st.machis[id].date
            else m.rule.value in st.rules && st.rules[m.rule.value].active && m.date > st.rules[m.rule.value].marker)
  }

  /** `st` is some state of a run and `later` a later one: rules never go back, rows keep their identity. */
  ghost predicate Follows(st: Store, later: Store) {
    && later.nextId >= st.nextId
    && (forall id :: id in st.machis ==> id < st.nextId)
    && (forall id :: id in later.machis ==> id < later.nextId)
    && (forall r :: r in later.rules ==> RuleFollows(st, later, r))
    && (forall id :: id in later.machis ==> RowFollows(st, later, id))
    && (forall id :: id in later.machis && later.machis[id].rule.Some? ==> later.machis[id].rule.value in later.rules)
  }

  lemma FollowsOn(st: Store, mid: Store, later: Store)
    requires Follows(st, mid) && Follows(mid, later)
    ensures Follows(st, later)
  {
    forall r | r in later.rules
      ensures RuleFollows(st, later, r)
    {
      assert RuleFollows(mid, later, r);
      if r in mid.rules {
        assert RuleFollows(st, mid, r);
      }
    }
    forall id | id in later.machis
      ensures RowFollows(st, later, id)
    {
      assert RowFollows(mid, later, id);
      if id in mid.machis {
        assert RowFollows(st, mid, id);
      }
      var m := later.machis[id];
      if m.rule.Some? && m.rule.value in mid.rules {
        assert RuleFollows(st, mid, m.rule.value);
      }
    }
  }

  /** Steps that leave the rules alone and only add rows of no rule, or drop some. */
  lemma QuietFollows(st: Store, after: Store)
    requires SeriesValid(st) && SeriesValid(after)
    requires after.rules == st.rules && after.nextId >= st.nextId
    requires forall id :: id in after.machis && id in st.machis ==>
      && after.machis[id].rule == st.machis[id].rule
      && (st.machis[id].rule.Some? ==> after.machis[id].date == st.machis[id].date)
    requires forall id :: id in after.machis && id !in st.machis ==> id >= st.nextId && after.machis[id].rule.None?
    ensures Follows(st, after)
  {
    hide KeysRight, SlotsApart, RuleInOrder, SourceStands, OnOccurrence;
    LinksStand(after);
  }

  lemma LinksStand(st: Store)
    requires SeriesValid(st)
    ensures IdsBelow(st)
    ensures forall id :: id in st.machis && st.machis[id].rule.Some? ==> st.machis[id].rule.value in st.rules
  {
    hide KeysRight, SlotsApart, RuleInOrder, SourceStands, OnOccurrence;
    forall id | id in st.machis && st.machis[id].rule.Some?
      ensures st.machis[id].rule.value in st.rules
    {
      assert MemberStands(st, st.machis[id]);
    }
  }

  lemma ProgressFollows(st: Store, after: Store, ruleId: int)
    requires SeriesValid(st) && SeriesValid(after) && ruleId in st.rules && st.rules[ruleId].active
    requires Progressed(st, after, ruleId)
    ensures Follows(st, after)
  {
    hide SlotKeys, KeysRight, SlotsApart, OccursOn, SourceStands, MemberStands;
    LinksStand(st);
    LinksStand(after);
    var rule, grown := st.rules[ruleId], after.rules[ruleId];
    assert RuleInOrder(st, rule);
    var system, s := st.systems[rule.agyary], SeriesFrom(rule.pattern, rule.origin);
    OccursInOrder(system, s, |grown.attempts|, |rule.attempts|);
    forall r | r in after.rules
      ensures RuleFollows(st, after, r)
    {
    }
    forall id | id in after.machis
      ensures RowFollows(st, after, id)
    {
      if id !in st.machis {
        var added := grown.attempts[|rule.attempts|..];
        var i :| 0 <= i < |added| && added[i] == after.machis[id].date;
        assert grown.attempts[|rule.attempts| + i] == OccursOn(system, s, |rule.attempts| + i + 1);
        OccursInOrder(system, s, |rule.attempts|, |rule.attempts| + i + 1);
      }
    }
  }

  lemma GenerateFollows(st: Store, ruleId: int, through: int, now: int)
    requires SeriesValid(st) && ruleId in st.rules && st.rules[ruleId].active
    ensures Follows(st, Generate(st, ruleId, through, now))
  {
    hide SeriesValid, Progressed, Generate, Follows;
    GenerateKeepsOrder(st, ruleId, through, now);
    GenerateKeepsSeries(st, ruleId, through, now);
    ProgressFollows(st, Generate(st, ruleId, through, now), ruleId);
  }

  lemma StartFollows(st: Store, id: int, pattern: Pattern, count: Option<int>, now: int)
    requires SeriesValid(st)
    ensures Follows(st, StartSeries(st, id, pattern, count, now))
  {
    hide SlotKeys, Generate, DateOf, OccursOn, KeysRight, SlotsApart, SourceStands, MemberStands, Follows, RuleInOrder;
    if id in st.machis && st.machis[id].agyary in st.systems && st.machis[id].rule.None? && st.machis[id].mah <= 12 {
      var m := st.machis[id];
      var system := st.systems[m.agyary];
      var origin := Index(m.year, m.mah, m.roj);
      var rule := Rule(m.agyary, id, pattern, LastOccurrence(system, pattern, origin, count), count, m.date, true, origin, []);
      var linked := Begun(st, id, pattern, count);
      StoredOrigin(st, m, pattern, origin);
      LinkedIsValid(st, linked, id, rule);
      LinkedFollows(st, linked, id, rule);
      GenerateFollows(linked, st.nextId, OccursOn(system, SeriesFrom(pattern, origin), HORIZON_PERIODS), now);
      FollowsOn(st, linked, StartSeries(st, id, pattern, count, now));
    } else {
      QuietFollows(st, st);
    }
  }

  lemma LinkedFollows(st: Store, linked: Store, id: int, rule: Rule)
    requires SeriesValid(st) && SeriesValid(linked) && id in st.machis
    requires linked == st.(rules := st.rules[st.nextId := rule], nextId := st.nextId + 1,
                           machis := st.machis[id := st.machis[id].(rule := Some(st.nextId))])
    ensures Follows(st, linked)
  {
    hide KeysRight, SlotsApart, RuleInOrder, SourceStands, OnOccurrence;
    LinksStand(st);
    LinksStand(linked);
  }

  lemma StoredOrigin(st: Store, m: Machi, pattern: Pattern, origin: int)
    requires SeriesValid(st) && exists id :: id in st.machis && st.machis[id] == m
    requires m.mah <= 12 && origin == Index(m.year, m.mah, m.roj)
    ensures m.agyary in st.systems && m.date == OccursOn(st.systems[m.agyary], SeriesFrom(pattern, origin), 0)
  {
    hide SlotKeys, DateOf;
    StoredDate(st, m);
    assert Slot(SeriesFrom(pattern, origin), 0) == origin;
  }

  lemma DeleteFollows(st: Store, id: int, future: bool, paid: set<int>, heir: int)
    requires SeriesValid(st) && ProperHeir(st, id, future, heir)
    ensures Follows(st, Delete(st, id, future, paid, heir))
  {
    hide SlotKeys, KeysRight, SlotsApart, OccursOn, RuleInOrder, SourceStands, Victims, Siblings, ProperHeir, MemberStands;
    DeleteKeepsSeries(st, id, future, paid, heir);
    LinksStand(st);
    LinksStand(Delete(st, id, future, paid, heir));
  }

  lemma SlotsOf(st: Store)
    requires SeriesValid(st)
    ensures SlotsValid(st) && forall r :: r in st.rules ==> st.rules[r].agyary in st.systems
  {
    forall r | r in st.rules
      ensures st.rules[r].agyary in st.systems
    {
      assert RuleInOrder(st, st.rules[r]);
    }
  }

  lemma ApplyFollows(st: Store, op: Op)
    requires SeriesValid(st) && Allowed(st, op)
    ensures Follows(st, Apply(st, op))
  {
    hide SlotKeys, Generate, AttemptFrom, HasMore, StartSeries, Delete, SeriesValid, IndexAccepts, Follows, Progressed;
    ApplyKeepsSeries(st, op);
    assert SlotsValid(st) by { SlotsOf(st); }
    match op
    case ClaimOp(_, _, _, _, _, _) =>
      IdsAreBelow(st);
      QuietFollows(st, Apply(st, op));
    case RebookOp(_, _, _, _) => QuietFollows(st, Apply(st, op));
    case ReleaseOp(_, _) => QuietFollows(st, Apply(st, op));
    case StartOp(id, pattern, count, now) => StartFollows(st, id, pattern, count, now);
    case TopUpOp(rule, through, now) =>
      QuietFollows(st, st);
      if rule in st.rules && st.rules[rule].agyary in st.systems && Due(st.rules[rule], through) {
        GenerateFollows(st, rule, through, now);
      }
    case StaleTopUpOp(r, source, k, through, now) =>
      QuietFollows(st, st);
      if HasMore(st, r, k, through) {
        HasRule(st, r, k, through);
        StaleProgresses(st, r, source, k, through, now);
        ProgressFollows(st, StaleTopUp(st, r, source, k, through, now), r);
      }
    case DeleteOp(id, future, paid, heir) => DeleteFollows(st, id, future, paid, heir);
  }

  /** A rule never goes back: in any later state its new members all lie past its marker, if it is active at all. */
  lemma {:induction false} RunFollows(st: Store, ops: seq<Op>)
    requires SeriesValid(st) && AllAllowed(st, ops)
    ensures Follows(st, Run(st, ops))
  {
    if ops != [] {
      hide Follows, SeriesValid, Apply, Allowed;
      var front := ops[..|ops| - 1];
      forall i | 0 <= i < |front|
        ensures Allowed(Run(st, front[..i]), front[i])
      {
        assert front[..i] == ops[..i];
        assert Allowed(Run(st, ops[..i]), ops[i]);
      }
      RunFollows(st, front);
      SeriesStayInOrder(st, front);
      assert Allowed(Run(st, ops[..|ops| - 1]), ops[|ops| - 1]);
      ApplyFollows(Run(st, front), ops[|ops| - 1]);
      FollowsOn(st, Run(st, front), Run(st, ops));
    } else {
      QuietFollows(st, st);
    }
  }

  /** A deleted occurrence is gone for good: nothing its repeat books later is on its day or an earlier one. */
  lemma DeletedNeverReturns(st: Store, id: int, future: bool, paid: set<int>, heir: int, ops: seq<Op>, v: int)
    requires SeriesValid(st) && id in st.machis && ProperHeir(st, id, future, heir)
    requires v in Victims(st, id, future) && v in st.machis && st.machis[v].rule.Some?
    requires v !in Delete(st, id, future, paid, heir).machis
    requires AllAllowed(Delete(st, id, future, paid, heir), ops)
    ensures var after, last := Delete(st, id, future, paid, heir), Run(Delete(st, id, future, paid, heir), ops);
            && v !in last.machis
            && forall k :: k in last.machis && k !in after.machis && last.machis[k].rule == st.machis[v].rule ==>
                 last.machis[k].date > st.machis[v].date
  {
    hide SlotKeys, OccursOn, SlotsValid, SourceStands;
    var after, r := Delete(st, id, future, paid, heir), st.machis[v].rule.value;
    DeleteKeepsSeries(st, id, future, paid, heir);
    RunFollows(after, ops);
    assert MemberStands(st, st.machis[v]);
    MarkerIsLast(st, r, st.machis[v].date);
    assert v < st.nextId && after.nextId == st.nextId && r < st.nextId by { RulesBelow(st, r, v); }
    if r in after.rules {
      DeleteKeepsSource(st, id, future, paid, heir, r);
    }
  }

  lemma RulesBelow(st: Store, r: int, v: int)
    requires SlotsValid(st) && r in st.rules && v in st.machis
    ensures r < st.nextId && v < st.nextId
  {
  }

  /** The marker is the latest of the occurrences so far. */
  lemma MarkerIsLast(st: Store, r: int, date: int)
    requires r in st.rules && RuleInOrder(st, st.rules[r]) && OnOccurrence(st, st.rules[r], date)
    ensures date <= st.rules[r].marker
  {
    hide OccursOn;
    var rule := st.rules[r];
    var k :| 0 <= k <= |rule.attempts| && date == OccurrenceDate(st, rule, k);
    OccursInOrder(st.systems[rule.agyary], SeriesFrom(rule.pattern, rule.origin), |rule.attempts|, k);
  }

  /** After "this and every later one" nothing of that repeat on that day or later ever appears again. */
  lemma StoppedStaysStopped(st: Store, id: int, paid: set<int>, heir: int, ops: seq<Op>)
    requires SeriesValid(st) && id in st.machis && st.machis[id].rule.Some? && ProperHeir(st, id, true, heir)
    requires forall v :: v in Victims(st, id, true) ==> v !in paid
    requires AllAllowed(Delete(st, id, true, paid, heir), ops)
    ensures var last := Run(Delete(st, id, true, paid, heir), ops);
            forall k :: k in last.machis && last.machis[k].rule == st.machis[id].rule ==> last.machis[k].date < st.machis[id].date
  {
    hide SlotKeys, OccursOn, SlotsValid, SourceStands, RuleInOrder;
    var after, r := Delete(st, id, true, paid, heir), st.machis[id].rule.value;
    DeleteKeepsSeries(st, id, true, paid, heir);
    RunFollows(after, ops);
    assert MemberStands(st, st.machis[id]);
    assert r < st.nextId && after.nextId == st.nextId by { RulesBelow(st, r, id); }
    assert r in after.rules ==> !after.rules[r].active;
    forall k | k in after.machis && after.machis[k].rule == Some(r)
      ensures after.machis[k].date < st.machis[id].date
    {
      assert k in Siblings(st, r);
    }
  }

  // --- When a count is kept ---

  predicate Startable(st: Store, id: int) {
    id in st.machis && st.machis[id].agyary in st.systems && st.machis[id].rule.None? && st.machis[id].mah <= 12
  }

  /** No more than `n` occurrences, the first counted, have been tried for the rule. */
  predicate WithinCount(st: Store, r: int, n: int) {
    r in st.rules ==> 1 + |st.rules[r].attempts| <= n
  }

  /** Started, a repeat has its rule, with its count and its end, and has already tried a date past the first. */
  lemma StartedRule(st: Store, id: int, pattern: Pattern, count: Option<int>, now: int)
    requires SeriesValid(st) && Startable(st, id)
    ensures var started := StartSeries(st, id, pattern, count, now);
            && SeriesValid(started) && st.nextId in started.rules && st.nextId < started.nextId
            && (var rule := started.rules[st.nextId];
               && rule.active && rule.endCount == count && rule.attempts != []
               && rule.source == id && rule.agyary == st.machis[id].agyary && rule.pattern == pattern
               && rule.origin == Index(st.machis[id].year, st.machis[id].mah, st.machis[id].roj)
               && (rule.endDate.None? <==> count.None? || count.value <= 1))
            && id in started.machis && started.machis[id] == st.machis[id].(rule := Some(st.nextId))
            && (forall k :: k in started.machis && k !in st.machis ==> started.machis[k].rule == Some(st.nextId))
  {
    hide SlotKeys, Generate, DateOf, SlotsApart, KeysRight, SourceStands, MemberStands, RuleInOrder, OccursOn;
    StartKeepsSeries(st, id, pattern, count, now);
    var m := st.machis[id];
    var system, origin := st.systems[m.agyary], Index(m.year, m.mah, m.roj);
    var s := SeriesFrom(pattern, origin);
    var rule := Rule(m.agyary, id, pattern, LastOccurrence(system, pattern, origin, count), count, m.date, true, origin, []);
    var linked := Begun(st, id, pattern, count);
    StoredOrigin(st, m, pattern, origin);
    LinkedIsValid(st, linked, id, rule);
    OccursInOrder(system, s, 0, HORIZON_PERIODS);
    if rule.endDate.Some? {
      OccursInOrder(system, s, 0, count.value - 1);
    }
    GenerateKeepsOrder(linked, st.nextId, OccursOn(system, s, HORIZON_PERIODS), now);
    TopUpReaches(linked, st.nextId, OccursOn(system, s, HORIZON_PERIODS), now);
  }

  /**
   A counted repeat keeps to its count, in every run of allowed steps, exactly when the count is two or
   more. At one (or less) already its own start tries a date past the first.
   */
  lemma CountKeptFromTwo(st: Store, id: int, pattern: Pattern, n: int, now: int)
    requires SeriesValid(st) && Startable(st, id)
    ensures var started := StartSeries(st, id, pattern, Some(n), now);
            n >= 2 <==> forall ops :: AllAllowed(started, ops) ==> WithinCount(Run(started, ops), st.nextId, n)
  {
    hide SeriesValid, StartSeries, AllAllowed, WithinCount;
    var started := StartSeries(st, id, pattern, Some(n), now);
    StartedRule(st, id, pattern, Some(n), now);
    if n >= 2 {
      forall ops | AllAllowed(started, ops)
        ensures WithinCount(Run(started, ops), st.nextId, n)
      {
        CountStays(started, ops, st.nextId, n);
      }
    } else {
      NothingRun(started);
      TooMany(started, st.nextId, n);
      assert AllAllowed(started, []) && !WithinCount(Run(started, []), st.nextId, n);
    }
  }

  lemma NothingRun(st: Store)
    ensures Run(st, []) == st && AllAllowed(st, [])
  {
  }

  lemma TooMany(st: Store, r: int, n: int)
    requires r in st.rules && st.rules[r].attempts != [] && n <= 1
    ensures !WithinCount(st, r, n)
  {
  }

  lemma CountStays(started: Store, ops: seq<Op>, r: int, n: int)
    requires SeriesValid(started) && AllAllowed(started, ops) && n >= 2
    requires r in started.rules && r < started.nextId && started.rules[r].endCount == Some(n)
    ensures WithinCount(Run(started, ops), r, n)
  {
    hide SlotsValid, OccursOn, RowFollows, SourceStands, MemberStands;
    SeriesStayInOrder(started, ops);
    RunFollows(started, ops);
    var later := Run(started, ops);
    if r in later.rules {
      assert RuleFollows(started, later, r) && RuleInOrder(later, later.rules[r]);
    }
  }

  /** A repeat stored without an end is topped up past any number of occurrences. */
  lemma {:induction false} WithoutEndRunsOn(st: Store, r: int, now: int, bound: nat) returns (ops: seq<Op>)
    requires SeriesValid(st) && r in st.rules && st.rules[r].active && st.rules[r].endDate.None?
    ensures AllAllowed(st, ops) && forall i :: 0 <= i < |ops| ==> ops[i].TopUpOp?
    ensures SeriesValid(Run(st, ops)) && r in Run(st, ops).rules
    ensures var rule := Run(st, ops).rules[r]; rule.active && rule.endDate.None? && |rule.attempts| >= bound
  {
    if bound == 0 {
      ops := [];
    } else {
      hide SeriesValid, TopUp;
      var front := WithoutEndRunsOn(st, r, now, bound - 1);
      var mid := Run(st, front);
      var op := TopUpOp(r, mid.rules[r].marker + 1, now);
      ops := front + [op];
      assert ops[..|front|] == front;
      forall i | 0 <= i < |ops|
        ensures Allowed(Run(st, ops[..i]), ops[i])
      {
        assert ops[i].TopUpOp?;
      }
      OneMoreTried(mid, r, now);
    }
  }

  lemma OneMoreTried(st: Store, r: int, now: int)
    requires SeriesValid(st) && r in st.rules && st.rules[r].active && st.rules[r].endDate.None?
    ensures var op := TopUpOp(r, st.rules[r].marker + 1, now);
            && SeriesValid(Apply(st, op)) && r in Apply(st, op).rules
            && (var rule := Apply(st, op).rules[r];
               rule.active && rule.endDate.None? && |rule.attempts| > |st.rules[r].attempts|)
  {
    hide SlotsValid, Generate, OccursOn, RuleInOrder, SourceStands, MemberStands;
    var through := st.rules[r].marker + 1;
    SlotsOf(st);
    GenerateKeepsOrder(st, r, through, now);
    GenerateKeepsSeries(st, r, through, now);
    TopUpReaches(st, r, through, now);
  }

  /** So a repeat counted once, stored without an end, is tried past any number of occurrences. */
  lemma CountOfOneRunsOn(st: Store, id: int, pattern: Pattern, n: int, now: int, bound: nat) returns (ops: seq<Op>)
    requires SeriesValid(st) && Startable(st, id) && n <= 1
    ensures var started := StartSeries(st, id, pattern, Some(n), now);
            && AllAllowed(started, ops) && (forall i :: 0 <= i < |ops| ==> ops[i].TopUpOp?)
            && st.nextId in Run(started, ops).rules && |Run(started, ops).rules[st.nextId].attempts| >= bound
  {
    hide SeriesValid, StartSeries;
    StartedRule(st, id, pattern, Some(n), now);
    ops := WithoutEndRunsOn(StartSeries(st, id, pattern, Some(n), now), st.nextId, now, bound);
  }
}
