/**
 The event and rule tables, changed in place. Every method keeps nothing dangling and each series exactly its
 occurrences, and moves the tables only onward, so what holds over every run of its calls follows.
 */
module Events {
  import opened Results
  import opened Engine
  import opened RojMahCount
  import opened MemorialSeries
  import opened Slots
  import opened Recurrence
  import opened RecurrenceRuns
  import opened EventSeries
  import opened EventRuns
  import opened Dependents

  class EventDiary {
    const systems: map<int, CalendarSystem>
    var events: seq<Event>
    var rules: seq<Rule>
    var gone: set<int>
    var payments: map<int, Payment>
    var notices: map<int, int>  // each names the event it is about

    ghost function Cal(): Calendar
      reads this
    {
      Calendar(systems, events, rules, gone)
    }

    /** Only rules there were are gone. */
    ghost predicate Valid()
      reads this
    {
      DiaryRight(Cal()) && forall r :: r in gone ==> 0 <= r < |rules|
    }

    /** No payment and no notice points at an event that is not there. */
    ghost predicate DependentsStand()
      reads this
    {
      && (forall p :: p in payments ==> Lives(Cal(), payments[p].about))
      && (forall n :: n in notices ==> Lives(Cal(), notices[n]))
    }

    constructor (systems: map<int, CalendarSystem>)
      ensures Valid() && Cal() == Calendar(systems, [], [], {})
    {
      this.systems := systems;
      events, rules, gone := [], [], {};
      payments, notices := map[], map[];
    }

    method CreateBookingRequest(agyary: int, customer: int, service: int, owner: Option<int>, at: int,
                                details: Details, amount: Option<int>)
      requires Valid() && agyary in systems
      modifies this
      ensures Valid() && Onward(old(Cal()), Cal())
      ensures Cal() == old(Cal()).(events := old(events) + [NewEvent(systems[agyary], agyary, customer, service, owner, at, details, amount)])
    {
      var e := NewEvent(systems[agyary], agyary, customer, service, owner, at, details, amount);
      OneOffKeepsDiary(Cal(), e);
      OneOffGoesOnward(Cal(), e);
      events := events + [e];
    }

    /** Materialise a rule's events through a date, from its marker on, 36 periods at most. */
    method GenerateBookingInstances(ruleId: int, through: int) returns (created: nat)
      requires Valid() && Open(Cal(), ruleId)
      modifies this`events, this`rules
      ensures Valid() && Onward(old(Cal()), Cal())
      ensures |rules| == |old(rules)| && forall r :: 0 <= r < |rules| && r != ruleId ==> rules[r] == old(rules)[r]
      ensures |events| == |old(events)| + created && old(events) <= events
      ensures forall i :: |old(events)| <= i < |events| ==> events[i].rule == Some(ruleId) && !events[i].deleted
      ensures var rule := old(rules[ruleId]);
              && 0 <= rule.source < |old(events)| && rule.agyary in systems
              && if old(events)[rule.source].owner.None? then events == old(events) && rules[ruleId] == rule.(active := false)
                 else if rule.marker >= Through(rule, through) then events == old(events) && rules[ruleId] == rule
                 else
                   var dates := Attempts(systems[rule.agyary], SeriesFrom(rule.pattern, rule.origin), |rule.attempts|,
                                         Through(rule, through), MAX_GENERATE_MONTHS);
                   Cal() == ToppedUp(old(Cal()), ruleId, dates)
    {
      hide SlotKeys, Attempts, OccursOn, Slot, StandsAt, SeriesFrom, DiaryRight, SeriesRight, Repeats, Onward;
      created := 0;
      var rule := rules[ruleId];
      Still(Cal());
      SeriesStands(Cal(), ruleId);
      var source := events[rule.source];
      if source.owner.None? {
        SwitchedOffKeepsDiary(Cal(), ruleId);
        rules := rules[ruleId := rule.(active := false)];
        return;
      }
      SourceOfTemple(Cal(), ruleId);
      var system := systems[rule.agyary];
      var until := if rule.endDate.Some? && rule.endDate.value < through then rule.endDate.value else through;
      if rule.marker >= until {
        return;
      }
      TopUpKeepsDiary(Cal(), ruleId, until);
      MarkerStands(Cal(), ruleId);
      var (_, mah, year) := SlotKeys(system, rule.marker);
      var attempted := MakeEvents(ruleId, rule, source, (mah, year), until);
      created := |attempted|;
      RepeatsOf(system, source, ruleId, attempted);
      TopUpGoesOnward(old(Cal()), ruleId, attempted);
      rules := rules[ruleId := rule.(marker := attempted[|attempted| - 1], attempts := rule.attempts + attempted)];
    }

    /** The generating loop: nothing is skipped, so every date attempted gets its event. */
    method MakeEvents(ruleId: int, rule: Rule, source: Event, standing: (int, int), until: int) returns (attempted: seq<int>)
      requires rule.agyary in systems && source.agyary == rule.agyary
      requires StandsAt(Slot(SeriesFrom(rule.pattern, rule.origin), |rule.attempts|), source.roj, standing.0, standing.1)
      modifies this`events
      ensures attempted == Attempts(systems[rule.agyary], SeriesFrom(rule.pattern, rule.origin), |rule.attempts|, until, MAX_GENERATE_MONTHS)
      ensures events == old(events) + Repeats(systems[rule.agyary], source, ruleId, attempted)
    {
      hide SlotKeys, Attempts, OccursOn, Slot, ParsiToGregorian, Step, StandsAt, SeriesFrom, SeriesOf, NewEvent, PutBack, Repeats;
      var system := systems[rule.agyary];
      ghost var k, s := |rule.attempts|, SeriesFrom(rule.pattern, rule.origin);
      ghost var dates := Attempts(system, s, k, until, MAX_GENERATE_MONTHS);
      AttemptsAre(system, s, k, until, MAX_GENERATE_MONTHS);
      var mah, year := standing.0, standing.1;
      attempted := [];
      NoRepeats(system, source, ruleId);
      var i := 0;
      while i < MAX_GENERATE_MONTHS
        invariant 0 <= i <= MAX_GENERATE_MONTHS && i <= |dates| && attempted == dates[..i]
        invariant i > 0 ==> dates[i - 1] < until
        invariant events == old(events) + Repeats(system, source, ruleId, attempted)
        invariant StandsAt(Slot(s, k + i), source.roj, mah, year)
      {
        NextOccurrence(system, rule.pattern, rule.origin, k + i, source.roj, mah, year);
        AttemptAt(system, s, k, until, MAX_GENERATE_MONTHS, i);
        var next := Step(rule.pattern, mah, year);
        mah, year := next.0, next.1;
        var greg := ParsiToGregorian(year, system, AskRojMah(mah, source.roj)).value;
        var e := NewEvent(system, rule.agyary, source.customer, source.service, source.owner, PutBack(source, greg), source.details, None);
        events := events + [e.(rule := Some(ruleId))];
        OneMoreRepeat(system, source, ruleId, attempted, greg);
        attempted := attempted + [greg];
        i := i + 1;
        if greg >= until {
          break;
        }
      }
      AllAttempted(system, s, k, until, MAX_GENERATE_MONTHS, i);
    }

    /** Start a repeat from an event and make its first periods. */
    method CreateRecurringBookings(id: int, pattern: Pattern, count: Option<int>)
      requires Valid() && Lives(Cal(), id)
      requires events[id].rule.None? && events[id].mah <= 12
      modifies this`events, this`rules
      ensures Valid() && Onward(old(Cal()), Cal())
      ensures |rules| == |old(rules)| + 1 && rules[..|old(rules)|] == old(rules)
      ensures var rule := rules[|old(rules)|];
              && rule.source == id && rule.pattern == pattern && rule.endCount == count
              && (old(events)[id].owner.Some? ==> |rule.attempts| == FirstPeriods(count))
              && (old(events)[id].owner.Some? ==> |rule.attempts| == if count.Some? && 2 <= count.value < 4 then count.value - 1 else 3)
      ensures |events| >= |old(events)| && events[..|old(events)|] == old(events)[id := old(events)[id].(rule := Some(|old(rules)|))]
      ensures forall i :: |old(events)| <= i < |events| ==> events[i].rule == Some(|old(rules)|)
    {
      hide SlotKeys, DiaryRight, Attempts, OccursOn, Slot, ParsiToGregorian, Step, StandsAt, LastOccurrence, Onward;
      var e := events[id];
      EventStands(Cal(), id);
      SourceOnItsDay(systems, e);
      var system := systems[e.agyary];
      ghost var origin, was := Index(e.year, e.mah, e.roj), Cal();
      var (day, _, _) := BookingSeriesAnchor(e.at);
      var end := CountRuleFields(system, pattern, e.roj, e.mah, e.year, count);
      var ruleId := |rules|;
      var rule := Rule(e.agyary, id, pattern, end, count, day, true, Index(e.year, e.mah, e.roj), []);
      StartKeepsDiary(was, id, rule);
      StartGoesOnward(was, id, rule);
      events := events[id := e.(rule := Some(ruleId))];
      rules := rules + [rule];
      ghost var s := SeriesFrom(pattern, origin);
      var mah, year, i := e.mah, e.year, 0;
      FirstStands(pattern, e.roj, e.mah, e.year);
      while i < HORIZON_PERIODS
        invariant 0 <= i <= HORIZON_PERIODS && StandsAt(Slot(s, i), e.roj, mah, year)
        invariant Valid() && Cal() == Linked(was, id, rule)
      {
        NextOccurrence(system, pattern, origin, i, e.roj, mah, year);
        var next := Step(pattern, mah, year);
        mah, year, i := next.0, next.1, i + 1;
      }
      StandsOn(system, s, i, e.roj, mah, year);
      var through := ParsiToGregorian(year, system, AskRojMah(mah, e.roj)).value;
      FirstTopUp(systems, e, rule, through);
      var _ := GenerateBookingInstances(ruleId, through);
      OnwardOn(was, Linked(was, id, rule), Cal());
    }

    /** The repeats of one mobed that a read tops up, by id. */
    method SelectDueBookings(user: int, through: int) returns (due: seq<int>)
      requires Valid()
      ensures forall r :: r in due <==> 0 <= r < |rules| && IsDueFor(Cal(), r, user, through)
      ensures forall i, j :: 0 <= i < j < |due| ==> due[i] < due[j]
    {
      hide DiaryRight;
      due := [];
      var r := 0;
      while r < |rules|
        invariant 0 <= r <= |rules|
        invariant forall q :: q in due <==> 0 <= q < r && IsDueFor(Cal(), q, user, through)
        invariant forall i :: 0 <= i < |due| ==> due[i] < r
        invariant forall i, j :: 0 <= i < j < |due| ==> due[i] < due[j]
      {
        var rule := rules[r];
        if r !in gone && rule.active && rule.marker < through && (rule.endDate.None? || rule.marker < rule.endDate.value)
           && 0 <= rule.source < |events| && events[rule.source].owner == Some(user) {
          due := due + [r];
        }
        r := r + 1;
      }
    }

    /** Complete a mobed's calendar through a date: each of their open repeats that is due is topped up, no other changes. */
    method EnsureBookingRecurrencesGenerated(user: int, through: int) returns (total: nat)
      requires Valid()
      modifies this`events, this`rules
      ensures Valid() && Onward(old(Cal()), Cal())
      ensures |rules| == |old(rules)| && forall r :: 0 <= r < |rules| ==> BookingsTopped(old(Cal()), rules[r], r, user, through)
      ensures old(events) <= events && |events| == |old(events)| + total
    {
      hide DiaryRight, Onward, BookingsTopped, Attempts, OccursOn, SlotKeys, IsDueFor;
      ghost var was := Cal();
      var due := SelectDueBookings(user, through);
      total := 0;
      Still(was);
      NoneTopped(was, due, user, through);
      var i := 0;
      while i < |due|
        invariant 0 <= i <= |due| && Valid() && gone == was.gone
        invariant Onward(was, Cal()) && ToppedSoFar(was, rules, due, i, user, through)
        invariant was.events <= events && |events| == |was.events| + total
      {
        ghost var mid := Cal();
        NextIsDue(was, mid, due, i, user, through);
        var n := GenerateBookingInstances(due[i], through);
        NextTopped(was, mid, Cal(), due, i, user, through);
        OnwardOn(was, mid, Cal());
        total := total + n;
        i := i + 1;
      }
      EveryoneTopped(was, rules, due, user, through);
    }

    /** The earliest, by time, of the living siblings that stay. */
    method EarliestSurvivor(siblings: set<int>, victims: set<int>) returns (id: int)
      requires !(siblings <= victims) && forall i :: i in siblings ==> Lives(Cal(), i)
      ensures IsEarliestOf(Cal(), siblings - victims, id)
    {
      id := -1;
      var k := 0;
      while k < |events|
        invariant 0 <= k <= |events|
        invariant id == -1 ==> forall j :: 0 <= j < k ==> !(j in siblings && j !in victims)
        invariant id != -1 ==> id in siblings && id !in victims
        invariant id != -1 ==> forall j :: 0 <= j < k && j in siblings && j !in victims ==> events[id].at <= events[j].at
      {
        if k in siblings && k !in victims && (id == -1 || events[k].at < events[id].at) {
          id := k;
        }
        k := k + 1;
      }
    }

    /**
     Delete an event, or it and every later one of its repeat, unless one has a recorded payment. Another temple's
     event, or one the caller may not touch, is not found.
     */
    method DeleteBooking(agyary: int, id: int, mayTouch: bool, future: bool) returns (r: Deletion)
      requires Valid()
      modifies this
      ensures Valid() && Onward(old(Cal()), Cal())
      ensures r == NotFound <==> !(Lives(old(Cal()), id) && old(events)[id].agyary == agyary && mayTouch)
      ensures r == Blocked <==> r != NotFound && exists v :: v in EventVictims(old(Cal()), id, future) && v in SettledFor(old(payments))
      ensures r != Deleted ==> Cal() == old(Cal()) && payments == old(payments) && notices == old(notices)
      ensures r == Deleted ==>
        && (old(events)[id].rule.Some? ==> 0 <= old(events)[id].rule.value < |old(rules)|)
        && payments == Without(old(payments), EventVictims(old(Cal()), id, future))
        && notices == NoticesWithout(old(notices), EventVictims(old(Cal()), id, future))
        && exists heir :: ProperEventHeir(old(Cal()), id, future, heir) && Cal() == DeletedFrom(old(Cal()), id, future, heir)
      ensures r == Blocked ==> SettledGoes(old(payments), old(events), id, future)
      ensures r == Deleted ==>
        && !SettledGoes(old(payments), old(events), id, future)
        && DeletedRightly(old(Cal()), Cal(), id, future)
        && (forall p :: p in payments <==> p in old(payments) && !Goes(old(events), id, future, old(payments)[p].about))
        && (forall p :: p in payments ==> payments[p] == old(payments)[p])
        && (forall n :: n in notices <==> n in old(notices) && !Goes(old(events), id, future, old(notices)[n]))
        && (forall n :: n in notices ==> notices[n] == old(notices)[n])
      ensures old(DependentsStand()) ==> DependentsStand()
    {
      hide DiaryRight, Onward, Marked, SettledFor, Without, NoticesWithout, DeletedFrom, ProperEventHeir;
      hide EventVictims, LivingOf, Goes, SettledGoes, DeletedRightly;
      ghost var was := Cal();
      Still(was);
      if !(0 <= id < |events|) || events[id].deleted || events[id].agyary != agyary || !mayTouch {
        return NotFound;
      }
      var link := events[id].rule;
      var victims, siblings := {id}, {id};
      if link.Some? {
        siblings := set i | 0 <= i < |events| && !events[i].deleted && events[i].rule == link;
        if future {
          victims := set i | i in siblings && events[i].at >= events[id].at;
        }
      }
      VictimsAre(was, id, future, siblings, victims);
      DependentsGo(was, id, future, payments, notices);
      var cleared, leftPayments, leftNotices := ClearDependents(payments, notices, victims);
      if !cleared {
        return Blocked;
      }
      payments, notices := leftPayments, leftNotices;
      ghost var heir := TakeOut(id, future, victims, siblings);
      ClearedStand(old(payments), old(notices), victims);
      StillLive(was, victims);
      DeleteIs(was, id, future, heir);
      return Deleted;
    }

    /** Re-point, stop or remove the rule, then remove the events. */
    method TakeOut(id: int, future: bool, victims: set<int>, siblings: set<int>) returns (ghost heir: int)
      requires Valid() && Lives(Cal(), id) && victims == EventVictims(Cal(), id, future)
      requires events[id].rule.Some? ==> siblings == LivingOf(Cal(), events[id].rule.value)
      modifies this`events, this`rules, this`gone
      ensures Valid() && Onward(old(Cal()), Cal()) && events == Marked(old(events), victims)
      ensures old(events)[id].rule.Some? ==> 0 <= old(events)[id].rule.value < |old(rules)|
      ensures ProperEventHeir(old(Cal()), id, future, heir) && Cal() == DeletedFrom(old(Cal()), id, future, heir)
    {
      hide DiaryRight, Onward, Marked, EventVictims;
      ghost var was := Cal();
      heir := 0;
      EventStands(was, id);
      var link := events[id].rule;
      if link.Some? {
        SeriesStands(was, link.value);
        var rule := rules[link.value];
        if siblings <= victims && rule.source in victims {
          gone := gone + {link.value};
        } else {
          if !(siblings <= victims) {
            var earliest := EarliestSurvivor(siblings, victims);
            heir := earliest;
            if rule.source in victims {
              rule := rule.(source := earliest);
            }
          }
          if future {
            rule := rule.(active := false);
          }
          rules := rules[link.value := rule];
        }
      }
      events := Marked(events, victims);
      DeleteKeepsDiary(was, id, future, heir);
      DeleteGoesOnward(was, id, future, heir);
    }
  }

  /** A delete takes the event asked for; asked for the later ones too, every one left of the same repeat not before it. */
  predicate Goes(events: seq<Event>, id: int, future: bool, k: int)
    requires 0 <= id < |events|
  {
    || k == id
    || (future && events[id].rule.Some? && 0 <= k < |events| && !events[k].deleted
        && events[k].rule == events[id].rule && events[k].at >= events[id].at)
  }

  /** Money has changed hands for an event that would go. */
  ghost predicate SettledGoes(payments: map<int, Payment>, events: seq<Event>, id: int, future: bool)
    requires 0 <= id < |events|
  {
    exists p :: p in payments && payments[p].settled && Goes(events, id, future, payments[p].about)
  }

  /** An event of the repeat is left. */
  predicate IsLeftOf(events: seq<Event>, r: int, k: int) {
    0 <= k < |events| && !events[k].deleted && events[k].rule == Some(r)
  }

  /**
   What a delete does, event by event and rule by rule. Those that go are marked and every other is exactly as it was.
   A repeat stays as long as an event of it does, stopped if the later ones went; it keeps its source while that is
   left, and else has the earliest that is.
   */
  ghost predicate DeletedRightly(was: Calendar, after: Calendar, id: int, future: bool)
    requires 0 <= id < |was.events|
  {
    && after.systems == was.systems && |after.events| == |was.events| && |after.rules| == |was.rules|
    && (forall k :: 0 <= k < |was.events| ==>
          after.events[k] == if Goes(was.events, id, future, k) then was.events[k].(deleted := true) else was.events[k])
    && (forall r :: 0 <= r < |was.rules| && Some(r) != was.events[id].rule ==> after.rules[r] == was.rules[r])
    && (forall r :: Some(r) != was.events[id].rule ==> (r in after.gone <==> r in was.gone))
    && (was.events[id].rule.Some? ==>
         var r := was.events[id].rule.value;
         && 0 <= r < |was.rules|
         && (r !in after.gone <==> exists k :: IsLeftOf(after.events, r, k))
         && (r !in after.gone ==>
              && after.rules[r].(source := was.rules[r].source, active := was.rules[r].active) == was.rules[r]
              && (after.rules[r].active <==> was.rules[r].active && !future)
              && IsLeftOf(after.events, r, after.rules[r].source)
              && (IsLeftOf(after.events, r, was.rules[r].source) ==> after.rules[r].source == was.rules[r].source)
              && (!IsLeftOf(after.events, r, was.rules[r].source) ==>
                   forall k :: IsLeftOf(after.events, r, k) ==>
                     after.events[after.rules[r].source].at <= after.events[k].at)))
  }

  lemma VictimsAre(d: Calendar, id: int, future: bool, siblings: set<int>, victims: set<int>)
    requires Lives(d, id)
    requires var link := d.events[id].rule;
             && siblings == (if link.Some? then set i | 0 <= i < |d.events| && !d.events[i].deleted && d.events[i].rule == link else {id})
             && victims == if link.Some? && future then set i | i in siblings && d.events[i].at >= d.events[id].at else {id}
    ensures victims == EventVictims(d, id, future)
    ensures d.events[id].rule.Some? ==> siblings == LivingOf(d, d.events[id].rule.value)
  {
  }

  lemma DependentsGo(d: Calendar, id: int, future: bool, payments: map<int, Payment>, notices: map<int, int>)
    requires Lives(d, id)
    ensures var victims := EventVictims(d, id, future);
            && (forall k :: k in victims <==> Goes(d.events, id, future, k))
            && (SettledGoes(payments, d.events, id, future) <==> exists v :: v in victims && v in SettledFor(payments))
            && (forall p :: p in Without(payments, victims) <==>
                  p in payments && !Goes(d.events, id, future, payments[p].about))
            && (forall p :: p in Without(payments, victims) ==> Without(payments, victims)[p] == payments[p])
            && (forall n :: n in NoticesWithout(notices, victims) <==> n in notices && !Goes(d.events, id, future, notices[n]))
            && (forall n :: n in NoticesWithout(notices, victims) ==> NoticesWithout(notices, victims)[n] == notices[n])
  {
    var victims := EventVictims(d, id, future);
    assert forall k :: k in victims <==> Goes(d.events, id, future, k);
    SettledAmong(payments, victims);
  }

  lemma DeleteIs(d: Calendar, id: int, future: bool, heir: int)
    requires DiaryRight(d) && Lives(d, id) && ProperEventHeir(d, id, future, heir)
    ensures d.events[id].rule.Some? ==> 0 <= d.events[id].rule.value < |d.rules|
    ensures DeletedRightly(d, DeletedFrom(d, id, future, heir), id, future)
  {
    hide DiaryRight, EventRight, SeriesRight, Goes;
    DeleteKeepsDiary(d, id, future, heir);
    var after, victims := DeletedFrom(d, id, future, heir), EventVictims(d, id, future);
    DependentsGo(d, id, future, map[], map[]);
    forall k | 0 <= k < |d.events|
      ensures after.events[k] == if Goes(d.events, id, future, k) then d.events[k].(deleted := true) else d.events[k]
    {
      MarkedIs(d.events, victims, k);
    }
    if d.events[id].rule.Some? {
      RuleDeletedRightly(d, id, future, heir);
    }
  }

  lemma RuleDeletedRightly(d: Calendar, id: int, future: bool, heir: int)
    requires DiaryRight(d) && Lives(d, id) && ProperEventHeir(d, id, future, heir)
    requires d.events[id].rule.Some? && 0 <= d.events[id].rule.value < |d.rules|
    ensures var after, r := DeletedFrom(d, id, future, heir), d.events[id].rule.value;
            && (r !in after.gone <==> exists k :: IsLeftOf(after.events, r, k))
            && (r !in after.gone ==>
                 && IsLeftOf(after.events, r, after.rules[r].source)
                 && (IsLeftOf(after.events, r, d.rules[r].source) ==> after.rules[r].source == d.rules[r].source)
                 && (!IsLeftOf(after.events, r, d.rules[r].source) ==>
                      forall k :: IsLeftOf(after.events, r, k) ==>
                        after.events[after.rules[r].source].at <= after.events[k].at))
  {
    hide DiaryRight, EventRight, Marked;
    var after, victims, r := DeletedFrom(d, id, future, heir), EventVictims(d, id, future), d.events[id].rule.value;
    EventStands(d, id);
    SeriesStands(d, r);
    MarkedLength(d.events, victims);
    forall k
      ensures IsLeftOf(after.events, r, k) <==> k in LivingOf(d, r) && k !in victims
      ensures 0 <= k < |d.events| ==> after.events[k].at == d.events[k].at
    {
      if 0 <= k < |d.events| {
        MarkedIs(d.events, victims, k);
      }
    }
    assert d.rules[r].source in LivingOf(d, r);
    if LivingOf(d, r) <= victims {
      assert forall k :: !IsLeftOf(after.events, r, k);
    } else {
      var k :| k in LivingOf(d, r) && k !in victims;
      assert IsLeftOf(after.events, r, k);
    }
  }

  lemma StillLive(d: Calendar, victims: set<int>)
    ensures forall i :: Lives(d, i) && i !in victims ==> Lives(d.(events := Marked(d.events, victims)), i)
  {
    forall i | Lives(d, i) && i !in victims
      ensures Lives(d.(events := Marked(d.events, victims)), i)
    {
      MarkedIs(d.events, victims, i);
    }
  }

  /** A read of this mobed's calendar through a date tops this repeat up. */
  predicate IsDueFor(d: Calendar, r: int, user: int, through: int)
    requires 0 <= r < |d.rules|
  {
    var rule := d.rules[r];
    && r !in d.gone && Due(rule, through)
    && 0 <= rule.source < |d.events| && d.events[rule.source].owner == Some(user)
  }

  /**
   A read of a mobed's calendar tops up exactly their own running repeats that are still there, whose last day worked
   out is before the date asked and whose count is not done.
   */
  lemma DueForExactly(d: Calendar, r: int, user: int, through: int)
    requires DiaryRight(d) && 0 <= r < |d.rules|
    ensures var rule := d.rules[r];
            && rule.agyary in d.systems
            && (IsDueFor(d, r, user, through) <==>
                 && rule.active && r !in d.gone && 0 <= rule.source < |d.events| && d.events[rule.source].owner == Some(user)
                 && OccurrenceDate(StoreOf(d), rule, |rule.attempts|) < through && !CountDone(rule))
  {
    hide DiaryRight, Due, OccursOn;
    SeriesStands(d, r);
    DueInOrder(StoreOf(d), d.rules[r], through);
  }

  /** A due repeat has reached the date, or its end, or gone 36 further; any other is as it was. */
  ghost predicate BookingsTopped(d: Calendar, rule: Rule, r: int, user: int, through: int)
    requires 0 <= r < |d.rules|
  {
    var before := d.rules[r];
    if IsDueFor(d, r, user, through) then
      && rule.(marker := before.marker, attempts := before.attempts) == before
      && before.attempts < rule.attempts
      && (rule.marker >= Through(before, through) || |rule.attempts| == |before.attempts| + MAX_GENERATE_MONTHS)
    else rule == before
  }

  ghost predicate ToppedSoFar(was: Calendar, rules: seq<Rule>, due: seq<int>, n: nat, user: int, through: int) {
    && n <= |due| && |rules| == |was.rules|
    && forall r :: 0 <= r < |rules| ==>
         if r in due[..n] then BookingsTopped(was, rules[r], r, user, through) else rules[r] == was.rules[r]
  }

  lemma NoneTopped(was: Calendar, due: seq<int>, user: int, through: int)
    ensures ToppedSoFar(was, was.rules, due, 0, user, through)
  {
  }

  lemma NextIsDue(was: Calendar, mid: Calendar, due: seq<int>, n: nat, user: int, through: int)
    requires n < |due| && ToppedSoFar(was, mid.rules, due, n, user, through) && mid.gone == was.gone
    requires forall r :: r in due <==> 0 <= r < |was.rules| && IsDueFor(was, r, user, through)
    requires forall i, j :: 0 <= i < j < |due| ==> due[i] < due[j]
    ensures due[n] !in due[..n] && 0 <= due[n] < |mid.rules| && mid.rules[due[n]] == was.rules[due[n]] && Open(mid, due[n])
  {
    assert due[n] in due;
  }

  /** One more repeat topped up; its source, among the events there were, still has the same mobed. */
  lemma NextTopped(was: Calendar, mid: Calendar, after: Calendar, due: seq<int>, n: nat, user: int, through: int)
    requires n < |due| && ToppedSoFar(was, mid.rules, due, n, user, through)
    requires forall r :: r in due <==> 0 <= r < |was.rules| && IsDueFor(was, r, user, through)
    requires forall i, j :: 0 <= i < j < |due| ==> due[i] < due[j]
    requires was.events <= mid.events && 0 <= due[n] < |mid.rules| == |after.rules|
    requires forall r :: 0 <= r < |mid.rules| && r != due[n] ==> after.rules[r] == mid.rules[r]
    requires var rule := mid.rules[due[n]];
             && 0 <= rule.source < |mid.events| && rule.agyary in mid.systems
             && if mid.events[rule.source].owner.None? then after.rules[due[n]] == rule.(active := false)
                else if rule.marker >= Through(rule, through) then after.rules[due[n]] == rule
                else
                  after == ToppedUp(mid, due[n], Attempts(mid.systems[rule.agyary], SeriesFrom(rule.pattern, rule.origin), |rule.attempts|,
                                                          Through(rule, through), MAX_GENERATE_MONTHS))
    ensures ToppedSoFar(was, after.rules, due, n + 1, user, through)
  {
    hide Attempts, OccursOn;
    var r := due[n];
    assert r in due && r !in due[..n] && due[..n + 1] == due[..n] + [r];
  }

  lemma EveryoneTopped(was: Calendar, rules: seq<Rule>, due: seq<int>, user: int, through: int)
    requires ToppedSoFar(was, rules, due, |due|, user, through)
    requires forall r :: r in due <==> 0 <= r < |was.rules| && IsDueFor(was, r, user, through)
    ensures forall r :: 0 <= r < |rules| ==> BookingsTopped(was, rules[r], r, user, through)
  {
    assert due[..|due|] == due;
  }

  /** How many further periods are made at once: three, or all there are of a shorter counted repeat. */
  function FirstPeriods(count: Option<int>): int {
    if count.Some? && 2 <= count.value <= HORIZON_PERIODS then count.value - 1 else HORIZON_PERIODS
  }

  lemma FirstTopUp(systems: map<int, CalendarSystem>, e: Event, rule: Rule, through: int)
    requires e.agyary in systems && e.mah <= 12 && rule.agyary == e.agyary
    requires (e.roj, e.mah, e.year) == BookingParsiAnchor(systems[e.agyary], e.at)
    requires rule.origin == Index(e.year, e.mah, e.roj) && rule.marker == BookingSeriesAnchor(e.at).0
    requires rule.endDate == LastOccurrence(systems[e.agyary], rule.pattern, rule.origin, rule.endCount)
    requires through == OccursOn(systems[e.agyary], SeriesFrom(rule.pattern, rule.origin), HORIZON_PERIODS)
    ensures rule.marker < Through(rule, through)
    ensures |Attempts(systems[e.agyary], SeriesFrom(rule.pattern, rule.origin), 0, Through(rule, through), MAX_GENERATE_MONTHS)|
            == FirstPeriods(rule.endCount)
  {
    hide SlotKeys, DateOf, Attempts;
    var system, s := systems[e.agyary], SeriesFrom(rule.pattern, rule.origin);
    SourceOnItsDay(systems, e);
    OccursInOrder(system, s, 0, FirstPeriods(rule.endCount));
    if rule.endDate.Some? {
      OccursInOrder(system, s, rule.endCount.value - 1, HORIZON_PERIODS);
      OccursInOrder(system, s, HORIZON_PERIODS, rule.endCount.value - 1);
    }
    AttemptsUpTo(system, s, FirstPeriods(rule.endCount));
  }

  /** Topping up through an occurrence attempts exactly the occurrences up to it. */
  lemma AttemptsUpTo(system: CalendarSystem, s: Series, last: nat)
    requires 0 < last <= MAX_GENERATE_MONTHS
    ensures |Attempts(system, s, 0, OccursOn(system, s, last), MAX_GENERATE_MONTHS)| == last
  {
    hide OccursOn, Attempts;
    var dates := Attempts(system, s, 0, OccursOn(system, s, last), MAX_GENERATE_MONTHS);
    var n := |dates|;
    AttemptsAre(system, s, 0, OccursOn(system, s, last), MAX_GENERATE_MONTHS);
    assert dates[n - 1] == OccursOn(system, s, n);
    OccursInOrder(system, s, n, last);
    if n > 1 {
      assert dates[n - 2] == OccursOn(system, s, n - 1);
      OccursInOrder(system, s, n - 1, last);
    }
  }
}
