/**
 The machi and rule tables, changed in place. Every method is proved to do to the tables exactly what
 the value-level specification says, so what holds over every run of those holds here.
 */
module Diary {
  import opened Results
  import opened Engine
  import opened RojMahCount
  import opened MemorialSeries
  import opened Slots
  import opened Recurrence
  import opened RecurrenceRuns
  import opened Dependents

  class Tables {
    const systems: map<int, CalendarSystem>
    var machis: map<int, Machi>
    var rules: map<int, Rule>
    var nextId: nat
    var payments: map<int, Payment>
    var notices: map<int, int>  // each names the machi it is about

    ghost function St(): Store
      reads this
    {
      Store(systems, machis, rules, nextId)
    }

    constructor (systems: map<int, CalendarSystem>)
      ensures St() == Store(systems, map[], map[], 0)
      ensures SeriesValid(St())
    {
      this.systems := systems;
      machis, rules, nextId := map[], map[], 0;
      payments, notices := map[], map[];
    }

    /** No payment and no notice points at a machi that is not there. */
    ghost predicate DependentsStand()
      reads this
    {
      && (forall p :: p in payments ==> payments[p].about in machis)
      && (forall n :: n in notices ==> notices[n] in machis)
    }

    function FreeNow(agyary: int, date: int, owner: Option<int>, now: int): (free: set<int>)
      reads this
      ensures free == FreeGehs(St(), agyary, date, owner, now)
    {
      FreeGehs(Store(systems, machis, rules, nextId), agyary, date, owner, now)
    }

    /** Insert the row, unless the index refuses it. `seen` is what an earlier read said was free. */
    method CreateMachiRequest(agyary: int, customer: int, geh: int, date: int, owner: Option<int>, seen: set<int>)
      returns (booked: Option<int>)
      requires agyary in systems
      modifies this`machis, this`nextId
      ensures (St(), booked) == Claim(old(St()), agyary, customer, geh, date, owner, seen)
    {
      var st := Store(systems, machis, rules, nextId);
      var row := NewMachi(st, agyary, customer, geh, date, owner);
      if geh !in seen || !IndexAccepts(st, nextId, row) {
        return None;
      }
      machis := machis[nextId := row];
      booked := Some(nextId);
      nextId := nextId + 1;
    }

    /** The next three days, of those looked through, on which the mobed has the geh free. */
    method NextDaysWithGeh(agyary: int, after: int, geh: int, owner: Option<int>) returns (options: seq<SlotOption>)
      requires agyary in systems
      ensures NextFreeDays(St(), agyary, after, geh, owner, options)
    {
      hide SlotKeys, Booked, FreeDay, FoundSoFar, NextFreeDays;
      options := [];
      NoneFound(St(), agyary, after, geh, owner);
      var offset := 1;
      while offset <= SCAN_LIMIT_DAYS
        invariant 1 <= offset <= SCAN_LIMIT_DAYS + 1 && |options| < ALTERNATIVE_DAYS
        invariant FoundSoFar(St(), agyary, after, geh, owner, options, offset)
      {
        var day := after + offset;
        var (roj, mah, year) := SlotKeys(systems[agyary], day);
        FoundOneMore(St(), agyary, after, geh, owner, options, offset);
        if !Booked(Store(systems, machis, rules, nextId), agyary, day, geh, owner) {
          options := options + [SlotOption(roj, mah, year, geh, day)];
        }
        offset := offset + 1;
        FoundEnough(St(), agyary, after, geh, owner, options, offset);
        if |options| >= ALTERNATIVE_DAYS {
          return;
        }
      }
      FoundEnough(St(), agyary, after, geh, owner, options, offset);
    }

    method ComputeMachiAlternatives(agyary: int, geh: int, date: int, owner: Option<int>, now: int) returns (a: Alternatives)
      requires agyary in systems
      ensures RightAlternatives(St(), agyary, date, geh, owner, now, a)
    {
      hide SlotKeys, Booked, NextFreeDays;
      var days := NextDaysWithGeh(agyary, date, geh, owner);
      a := Alternatives(FreeNow(agyary, date, owner, now), days);
    }

    /** Book the slot or, if it cannot be had, say what can. */
    method BookMachiSlot(agyary: int, customer: int, geh: int, date: int, owner: Option<int>, now: int)
      returns (booked: Option<int>, alternatives: Option<Alternatives>)
      requires agyary in systems
      modifies this`machis, this`nextId
      ensures (St(), booked) == Book(old(St()), agyary, customer, geh, date, owner, now)
      ensures booked.Some? <==> alternatives.None?
      ensures alternatives.Some? ==> RightAlternatives(St(), agyary, date, geh, owner, now, alternatives.value)
    {
      hide SlotKeys, RightAlternatives, FreeGehs, Claim;
      var free := FreeNow(agyary, date, owner, now);
      alternatives := None;
      booked := CreateMachiRequest(agyary, customer, geh, date, owner, free);
      if booked.None? {
        var others := ComputeMachiAlternatives(agyary, geh, date, owner, now);
        alternatives := Some(others);
      }
    }

    /** Move a machi, competing on its own mobed's board. A refusal leaves it untouched and says what can be had. */
    method RebookMachiSlot(id: int, geh: int, date: int, now: int) returns (done: bool, alternatives: Option<Alternatives>)
      requires id in machis && machis[id].agyary in systems
      modifies this`machis
      ensures var m := old(machis)[id];
              && (St(), done) == Rebook(old(St()), id, geh, date, FreeGehs(old(St()), m.agyary, date, m.owner, now))
              && (done <==> alternatives.None?)
              && (alternatives.Some? ==> RightAlternatives(St(), m.agyary, date, geh, m.owner, now, alternatives.value))
    {
      hide RightAlternatives;
      var m := machis[id];
      var (roj, mah, year) := SlotKeys(systems[m.agyary], date);
      if (date, geh) != (m.date, m.geh) {
        var free := FreeNow(m.agyary, date, m.owner, now);
        var moved := m.(roj := roj, mah := mah, year := year, geh := geh, date := date);
        if geh !in free || !IndexAccepts(Store(systems, machis, rules, nextId), id, moved) {
          var others := ComputeMachiAlternatives(m.agyary, geh, date, m.owner, now);
          return false, Some(others);
        }
        machis := machis[id := moved];
      }
      return true, None;
    }

    /** Book one occurrence and, if it was free, link it to its rule. */
    method BookForRule(ruleId: int, source: Machi, date: int, now: int) returns (created: nat)
      requires SlotsValid(St()) && source.agyary in systems
      modifies this`machis, this`nextId
      ensures St() == BookInstance(old(St()), ruleId, source, date, now)
      ensures created == nextId - old(nextId)
      ensures created == if Taken(old(St()), source, date, now) then 0 else 1
    {
      hide SlotKeys, IndexAccepts, FreeGehs, SlotsValid, RightAlternatives;
      created := 0;
      FreeIsAccepted(St(), source.agyary, source.customer, source.geh, date, source.owner, now);
      var booked, _ := BookMachiSlot(source.agyary, source.customer, source.geh, date, source.owner, now);
      if booked.Some? && booked.value in machis {
        machis := machis[booked.value := machis[booked.value].(rule := Some(ruleId))];
        created := 1;
      }
    }

    /** The generating loop: from the period the marker stands on, on until `until` is reached or the cap is. */
    method BookOccurrences(ruleId: int, rule: Rule, source: Machi, standing: (int, int), until: int, now: int)
      returns (attempted: seq<int>, created: nat, skipped: seq<int>)
      requires SlotsValid(St()) && rule.agyary in systems && source.agyary == rule.agyary
      requires StandsAt(Slot(SeriesFrom(rule.pattern, rule.origin), |rule.attempts|), source.roj, standing.0, standing.1)
      modifies this`machis, this`nextId
      ensures attempted == Attempts(systems[rule.agyary], SeriesFrom(rule.pattern, rule.origin), |rule.attempts|, until, MAX_GENERATE_MONTHS)
      ensures attempted != []
      ensures St() == BookEach(old(St()), ruleId, source, attempted, now)
      ensures created == nextId - old(nextId)
      ensures skipped == SkippedOf(old(St()), ruleId, source, attempted, now) && created + |skipped| == |attempted|
    {
      hide SlotKeys, BookInstance, BookEach, Attempts, OccursOn, Slot, ParsiToGregorian, Step, StandsAt, SeriesFrom,
           SkippedOf, Taken, SlotsValid;
      var system := systems[rule.agyary];
      ghost var k, s := |rule.attempts|, SeriesFrom(rule.pattern, rule.origin);
      ghost var dates := Attempts(system, s, k, until, MAX_GENERATE_MONTHS);
      AttemptsAre(system, s, k, until, MAX_GENERATE_MONTHS);
      ghost var was := St();
      BookNothing(was, ruleId, source, now);
      var mah, year := standing.0, standing.1;
      attempted, created, skipped := [], 0, [];
      var i := 0;
      while i < MAX_GENERATE_MONTHS
        invariant 0 <= i <= MAX_GENERATE_MONTHS && i <= |dates| && attempted == dates[..i]
        invariant i > 0 ==> dates[i - 1] < until
        invariant St() == BookEach(was, ruleId, source, attempted, now)
        invariant StandsAt(Slot(s, k + i), source.roj, mah, year)
        invariant created == nextId - was.nextId && created + |skipped| == |attempted|
        invariant skipped == SkippedOf(was, ruleId, source, attempted, now)
        invariant SlotsValid(St())
      {
        NextOccurrence(system, rule.pattern, rule.origin, k + i, source.roj, mah, year);
        AttemptAt(system, s, k, until, MAX_GENERATE_MONTHS, i);
        var next := Step(rule.pattern, mah, year);
        mah, year := next.0, next.1;
        var greg := ParsiToGregorian(year, system, AskRojMah(mah, source.roj)).value;
        var n := BookForRule(ruleId, source, greg, now);
        created := created + n;
        if n == 0 {
          skipped := skipped + [greg];
        }
        BookOneMore(was, ruleId, source, attempted, greg, now);
        BookEachKeepsSlots(was, ruleId, source, attempted + [greg], now);
        attempted := attempted + [greg];
        i := i + 1;
        if greg >= until {
          break;
        }
      }
      AllAttempted(system, s, k, until, MAX_GENERATE_MONTHS, i);
    }

    /** Materialise a rule's machis through a date, from its marker on, 36 periods at most. */
    method GenerateRecurrenceInstances(ruleId: int, through: int, now: int) returns (created: nat, skipped: seq<int>)
      requires SeriesValid(St()) && ruleId in rules && rules[ruleId].agyary in systems
      modifies this`machis, this`rules, this`nextId
      ensures St() == Generate(old(St()), ruleId, through, now)
      ensures created == nextId - old(nextId)
      ensures ruleId in rules && skipped == SkippedIn(old(St()), ruleId, rules[ruleId], now)
      ensures created + |skipped| == |rules[ruleId].attempts| - |old(rules)[ruleId].attempts|
    {
      hide SlotKeys, BookEach, Generate, Attempts, OccursOn, Slot, SeriesValid, StandsAt, SeriesFrom;
      created, skipped := 0, [];
      var rule := rules[ruleId];
      NothingSkipped(St(), ruleId, now);
      assert SlotsValid(St()) by { SlotsOf(St()); }
      MarkerReads(St(), ruleId);
      var source := machis[rule.source];
      GenerateIs(St(), ruleId, through, now);
      var until := if rule.endDate.Some? && rule.endDate.value < through then rule.endDate.value else through;
      if rule.marker >= until {
        return;
      }
      var (_, mah, year) := SlotKeys(systems[rule.agyary], rule.marker);
      var attempted;
      attempted, created, skipped := BookOccurrences(ruleId, rule, source, (mah, year), until, now);
      assert (rule.attempts + attempted)[|rule.attempts|..] == attempted;
      rules := rules[ruleId := rule.(marker := attempted[|attempted| - 1], attempts := rule.attempts + attempted)];
    }

    /**
     Complete a temple's board through a date, for one mobed or for all: every rule that is due is topped up,
     and nothing else about the rules, nor any machi there was, changes.
     */
    method EnsureRecurrencesGenerated(agyary: int, through: int, owner: Option<int>, now: int) returns (total: nat)
      requires SeriesValid(St())
      modifies this`machis, this`rules, this`nextId
      ensures SeriesValid(St())
      ensures forall r :: r in old(rules) ==> r in rules && RuleTopped(old(St()), rules[r], r, agyary, through, owner)
      ensures forall id :: id in old(machis) ==> id in machis && machis[id] == old(machis)[id]
      ensures total == nextId - old(nextId)
    {
      hide SeriesValid, Selected, RuleTopped, Generate;
      ghost var was := St();
      var due := SelectDue(agyary, through, owner);
      total := 0;
      NothingTopped(was, agyary, through, owner);
      var i := 0;
      while i < |due|
        invariant 0 <= i <= |due|
        invariant SeriesValid(St()) && Topping(was, St(), due, i, agyary, through, owner)
        invariant total == nextId - was.nextId
      {
        ToppedNext(was, St(), due, i, agyary, through, owner, now);
        var n, _ := GenerateRecurrenceInstances(due[i], through, now);
        total := total + n;
        i := i + 1;
      }
      ToppedAll(was, St(), due, agyary, through, owner);
    }

    /** The rules a read tops up, by id. */
    method SelectDue(agyary: int, through: int, owner: Option<int>) returns (due: seq<int>)
      requires SeriesValid(St())
      ensures forall r :: r in due <==> r in rules && Selected(St(), r, agyary, through, owner)
      ensures forall i, j :: 0 <= i < j < |due| ==> due[i] < due[j]
    {
      hide SeriesValid, OccursOn;
      RuleIdsBelow(St());
      due := [];
      var r := 0;
      while r < nextId
        invariant 0 <= r
        invariant forall q :: q in due <==> q in rules && q < r && Selected(St(), q, agyary, through, owner)
        invariant forall i :: 0 <= i < |due| ==> due[i] < r
        invariant forall i, j :: 0 <= i < j < |due| ==> due[i] < due[j]
      {
        if r in rules {
          var rule := rules[r];
          SourceIsThere(St(), r);
          if rule.active && rule.marker < through && (rule.endDate.None? || rule.marker < rule.endDate.value)
             && rule.agyary == agyary && (owner.None? || machis[rule.source].owner == owner) {
            due := due + [r];
          }
        }
        r := r + 1;
      }
    }

    /** Start a repeat from a machi and book its first periods. */
    method CreateRecurringMachis(id: int, pattern: Pattern, count: Option<int>, now: int) returns (skipped: seq<int>)
      requires SeriesValid(St())
      requires id in machis && machis[id].agyary in systems && machis[id].rule.None? && machis[id].mah <= 12
      modifies this`machis, this`rules, this`nextId
      ensures St() == StartSeries(old(St()), id, pattern, count, now)
      ensures old(nextId) in rules && skipped == SkippedIn(Begun(old(St()), id, pattern, count), old(nextId), rules[old(nextId)], now)
      ensures forall day :: day in skipped <==>
                day in rules[old(nextId)].attempts && Taken(Begun(old(St()), id, pattern, count), old(machis)[id], day, now)
      ensures old(nextId) in rules && |skipped| + (nextId - old(nextId) - 1) == |rules[old(nextId)].attempts|
    {
      hide SlotKeys, Generate, OccursOn, SeriesValid, Step, SeriesFrom, Slot, StartSeries, LastOccurrence, StandsAt, ParsiToGregorian;
      var m := machis[id];
      var system := systems[m.agyary];
      ghost var origin := Index(m.year, m.mah, m.roj);
      StoredDay(St(), id);
      var end := CountRuleFields(system, pattern, m.roj, m.mah, m.year, count);
      var rule := Rule(m.agyary, id, pattern, end, count, m.date, true, Index(m.year, m.mah, m.roj), []);
      ghost var was := St();
      var ruleId := nextId;
      rules := rules[ruleId := rule];
      machis := machis[id := m.(rule := Some(ruleId))];
      nextId := ruleId + 1;
      StoredOrigin(was, m, pattern, origin);
      LinkedIsValid(was, St(), id, rule);
      ghost var linked := St();
      assert linked == Begun(was, id, pattern, count);
      var mah, year, i := m.mah, m.year, 0;
      assert StandsAt(Slot(SeriesFrom(pattern, origin), 0), m.roj, mah, year) by { AtOrigin(was, id, pattern); }
      while i < HORIZON_PERIODS
        invariant 0 <= i <= HORIZON_PERIODS
        invariant StandsAt(Slot(SeriesFrom(pattern, origin), i), m.roj, mah, year)
        invariant St() == linked
      {
        NextOccurrence(system, pattern, origin, i, m.roj, mah, year);
        var next := Step(pattern, mah, year);
        mah, year, i := next.0, next.1, i + 1;
      }
      StandsOn(system, SeriesFrom(pattern, origin), i, m.roj, mah, year);
      var through := ParsiToGregorian(year, system, AskRojMah(mah, m.roj)).value;
      var _, s := GenerateRecurrenceInstances(ruleId, through, now);
      skipped := s;
      StartIs(was, id, pattern, count, now);
      StartKeepsSeries(was, id, pattern, count, now);
      SkippedAreTaken(linked, St(), ruleId, now);
    }

    /** The earliest, by date, of the siblings that stay. */
    method EarliestSurvivor(siblings: set<int>, victims: set<int>) returns (id: int)
      requires !(siblings <= victims) && siblings <= machis.Keys && IdsBelow(St())
      ensures IsEarliest(St(), siblings - victims, id)
    {
      id := -1;
      var k := 0;
      while k < nextId
        invariant 0 <= k <= nextId
        invariant id == -1 ==> forall j :: 0 <= j < k ==> !(j in siblings && j !in victims)
        invariant id != -1 ==> id in siblings && id !in victims
        invariant id != -1 ==> forall j :: 0 <= j < k && j in siblings && j !in victims ==> machis[id].date <= machis[j].date
      {
        if k in siblings && k !in victims && (id == -1 || machis[k].date < machis[id].date) {
          id := k;
        }
        k := k + 1;
      }
    }

    /**
     Delete a machi, or it and every later one of its repeat, unless one has a recorded payment. Another temple's
     machi, or one the caller may not touch, is not found.
     */
    method DeleteMachi(agyary: int, id: int, mayModify: bool, future: bool) returns (r: Deletion)
      requires SeriesValid(St())
      modifies this
      ensures r == NotFound <==> !(id in old(machis) && old(machis)[id].agyary == agyary && mayModify)
      ensures r == Blocked <==> r != NotFound && exists v :: v in Victims(old(St()), id, future) && v in SettledFor(old(payments))
      ensures r != Deleted ==> St() == old(St()) && payments == old(payments) && notices == old(notices)
      ensures r == Deleted ==>
        && payments == Without(old(payments), Victims(old(St()), id, future))
        && notices == NoticesWithout(old(notices), Victims(old(St()), id, future))
        && exists heir :: ProperHeir(old(St()), id, future, heir)
                          && St() == Delete(old(St()), id, future, SettledFor(old(payments)), heir)
      ensures r == Blocked ==> SettledGoes(old(payments), old(machis), id, future)
      ensures r == Deleted ==> DeletedRightly(old(St()), St(), id, future)
      ensures r == Deleted ==>
        && !SettledGoes(old(payments), old(machis), id, future)
        && (forall p :: p in payments <==> p in old(payments) && !Goes(old(machis), id, future, old(payments)[p].about))
        && (forall p :: p in payments ==> payments[p] == old(payments)[p])
        && (forall n :: n in notices <==> n in old(notices) && !Goes(old(machis), id, future, old(notices)[n]))
        && (forall n :: n in notices ==> notices[n] == old(notices)[n])
      ensures old(DependentsStand()) ==> DependentsStand()
    {
      hide SeriesValid, SettledFor, Without, NoticesWithout, Delete, ProperHeir;
      ghost var was := St();
      if id !in machis || machis[id].agyary != agyary || !mayModify {
        return NotFound;
      }
      var link := machis[id].rule;
      var victims, siblings := {id}, {id};
      if link.Some? {
        siblings := set k | k in machis && machis[k].rule == link;
        assert siblings == Siblings(was, link.value);
        if future {
          victims := set k | k in siblings && machis[k].date >= machis[id].date;
        }
      }
      assert victims == Victims(was, id, future);
      DependentsGo(was, id, future, payments, notices);
      var cleared, leftPayments, leftNotices := ClearDependents(payments, notices, victims);
      if !cleared {
        return Blocked;
      }
      payments, notices := leftPayments, leftNotices;
      ghost var heir := TakeOut(id, future, victims, siblings, SettledFor(old(payments)));
      ClearedStand(old(payments), old(notices), victims);
      DeleteIs(was, id, future, SettledFor(old(payments)), heir);
      return Deleted;
    }

    /** Re-point, stop or remove the rule, then remove the machis. */
    method TakeOut(id: int, future: bool, victims: set<int>, siblings: set<int>, ghost paid: set<int>) returns (ghost heir: int)
      requires SeriesValid(St()) && id in machis && victims == Victims(St(), id, future)
      requires machis[id].rule.Some? ==> siblings == Siblings(St(), machis[id].rule.value)
      requires !exists v :: v in victims && v in paid
      modifies this`machis, this`rules
      ensures machis == old(machis) - victims
      ensures ProperHeir(old(St()), id, future, heir) && St() == Delete(old(St()), id, future, paid, heir)
    {
      hide SeriesValid, Victims;
      LinkStands(St(), id);
      var link := machis[id].rule;
      heir := 0;
      if link.Some? {
        var rule := rules[link.value];
        if !(siblings <= victims) {
          var earliest := EarliestSurvivor(siblings, victims);
          heir := earliest;
          if rule.source in victims {
            rule := rule.(source := earliest);
          }
        }
        if future {
          rule := rule.(active := false);
        }
        if rule.source in victims {
          rules := rules - {link.value};
        } else {
          rules := rules[link.value := rule];
        }
      }
      machis := machis - victims;
    }
  }

  /** The free days among those before `after + offset`, each once, in order, under its own key. */
  ghost predicate FoundSoFar(st: Store, agyary: int, after: int, geh: int, owner: Option<int>, options: seq<SlotOption>, offset: int)
    requires agyary in st.systems
  {
    && (forall i :: 0 <= i < |options| ==>
          && FreeDay(st, agyary, after, geh, owner, options[i].date) && options[i].geh == geh && options[i].date < after + offset
          && (options[i].roj, options[i].mah, options[i].year) == SlotKeys(st.systems[agyary], options[i].date))
    && (forall i, j :: 0 <= i < j < |options| ==> options[i].date < options[j].date)
    && (forall day :: FreeDay(st, agyary, after, geh, owner, day) && day < after + offset ==> IsAmong(options, day))
  }

  predicate IsAmong(options: seq<SlotOption>, day: int) {
    exists i :: 0 <= i < |options| && options[i].date == day
  }

  lemma NoneFound(st: Store, agyary: int, after: int, geh: int, owner: Option<int>)
    requires agyary in st.systems
    ensures FoundSoFar(st, agyary, after, geh, owner, [], 1)
  {
  }

  lemma FoundOneMore(st: Store, agyary: int, after: int, geh: int, owner: Option<int>, options: seq<SlotOption>, offset: int)
    requires agyary in st.systems && 1 <= offset <= SCAN_LIMIT_DAYS && FoundSoFar(st, agyary, after, geh, owner, options, offset)
    ensures var day := after + offset;
            var (roj, mah, year) := SlotKeys(st.systems[agyary], day);
            FoundSoFar(st, agyary, after, geh, owner,
                       if Booked(st, agyary, day, geh, owner) then options else options + [SlotOption(roj, mah, year, geh, day)], offset + 1)
  {
    hide SlotKeys, Booked, FoundSoFar;
    var (roj, mah, year) := SlotKeys(st.systems[agyary], after + offset);
    if Booked(st, agyary, after + offset, geh, owner) {
      NotThatDay(st, agyary, after, geh, owner, options, offset);
    } else {
      ThatDayToo(st, agyary, after, geh, owner, options, offset, SlotOption(roj, mah, year, geh, after + offset));
    }
  }

  lemma NotThatDay(st: Store, agyary: int, after: int, geh: int, owner: Option<int>, options: seq<SlotOption>, offset: int)
    requires agyary in st.systems && FoundSoFar(st, agyary, after, geh, owner, options, offset)
    requires Booked(st, agyary, after + offset, geh, owner)
    ensures FoundSoFar(st, agyary, after, geh, owner, options, offset + 1)
  {
    hide SlotKeys, Booked, IsAmong;
  }

  lemma ThatDayToo(st: Store, agyary: int, after: int, geh: int, owner: Option<int>, options: seq<SlotOption>, offset: int,
                   found: SlotOption)
    requires agyary in st.systems && 1 <= offset <= SCAN_LIMIT_DAYS && FoundSoFar(st, agyary, after, geh, owner, options, offset)
    requires !Booked(st, agyary, after + offset, geh, owner) && found.date == after + offset && found.geh == geh
    requires (found.roj, found.mah, found.year) == SlotKeys(st.systems[agyary], found.date)
    ensures FoundSoFar(st, agyary, after, geh, owner, options + [found], offset + 1)
  {
    hide SlotKeys, Booked, IsAmong;
    forall day
      ensures IsAmong(options + [found], day) <==> IsAmong(options, day) || day == found.date
    {
      OneMoreAmong(options, found, day);
    }
  }

  lemma OneMoreAmong(options: seq<SlotOption>, found: SlotOption, day: int)
    ensures IsAmong(options + [found], day) <==> IsAmong(options, day) || day == found.date
  {
    var more := options + [found];
    assert more[|options|] == found;
    if IsAmong(options, day) {
      var i :| 0 <= i < |options| && options[i].date == day;
      assert more[i].date == day;
    }
  }

  /** Three are enough, and so is the end of the days looked through. */
  lemma FoundEnough(st: Store, agyary: int, after: int, geh: int, owner: Option<int>, options: seq<SlotOption>, offset: int)
    requires agyary in st.systems && FoundSoFar(st, agyary, after, geh, owner, options, offset) && |options| <= ALTERNATIVE_DAYS
    ensures |options| == ALTERNATIVE_DAYS || offset > SCAN_LIMIT_DAYS ==> NextFreeDays(st, agyary, after, geh, owner, options)
  {
    hide SlotKeys, Booked;
  }

  lemma LinkStands(st: Store, id: int)
    requires SeriesValid(st) && id in st.machis
    ensures IdsBelow(st) && (st.machis[id].rule.Some? ==> st.machis[id].rule.value in st.rules)
  {
    hide KeysRight, SlotsApart, RuleInOrder, SourceStands, OnOccurrence;
    assert MemberStands(st, st.machis[id]);
  }

  /** A delete takes the machi asked for; asked for the later ones too, every one of the same repeat not before its day. */
  predicate Goes(machis: map<int, Machi>, id: int, future: bool, k: int)
    requires id in machis
  {
    || k == id
    || (future && machis[id].rule.Some? && k in machis && machis[k].rule == machis[id].rule && machis[k].date >= machis[id].date)
  }

  /**
   What a delete does, machi by machi and rule by rule. Those that go are gone and every other is exactly as it was.
   A repeat stays as long as a machi of it does, stopped if the later ones went; it keeps its source while that is
   there, and else has the earliest that is.
   */
  ghost predicate DeletedRightly(was: Store, after: Store, id: int, future: bool)
    requires id in was.machis
  {
    && after.systems == was.systems && after.nextId == was.nextId
    && (forall k :: k in after.machis <==> k in was.machis && !Goes(was.machis, id, future, k))
    && (forall k :: k in after.machis ==> after.machis[k] == was.machis[k])
    && (forall r :: r in was.rules && Some(r) != was.machis[id].rule ==> r in after.rules && after.rules[r] == was.rules[r])
    && (forall r :: r in after.rules ==> r in was.rules)
    && (was.machis[id].rule.Some? ==>
         var r := was.machis[id].rule.value;
         && r in was.rules
         && (r in after.rules <==> exists k :: k in after.machis && after.machis[k].rule == Some(r))
         && (r in after.rules ==>
              && after.rules[r].(source := was.rules[r].source, active := was.rules[r].active) == was.rules[r]
              && (after.rules[r].active <==> was.rules[r].active && !future)
              && after.rules[r].source in after.machis
              && (was.rules[r].source in after.machis ==> after.rules[r].source == was.rules[r].source)
              && (was.rules[r].source !in after.machis ==>
                   && after.machis[after.rules[r].source].rule == Some(r)
                   && forall k :: k in after.machis && after.machis[k].rule == Some(r) ==>
                        after.machis[after.rules[r].source].date <= after.machis[k].date)))
  }

  /** Money has changed hands for a machi that would go. */
  ghost predicate SettledGoes(payments: map<int, Payment>, machis: map<int, Machi>, id: int, future: bool)
    requires id in machis
  {
    exists p :: p in payments && payments[p].settled && Goes(machis, id, future, payments[p].about)
  }

  lemma DependentsGo(st: Store, id: int, future: bool, payments: map<int, Payment>, notices: map<int, int>)
    requires id in st.machis
    ensures var victims := Victims(st, id, future);
            && (SettledGoes(payments, st.machis, id, future) <==> exists v :: v in victims && v in SettledFor(payments))
            && (forall p :: p in Without(payments, victims) <==>
                  p in payments && !Goes(st.machis, id, future, payments[p].about))
            && (forall p :: p in Without(payments, victims) ==> Without(payments, victims)[p] == payments[p])
            && (forall n :: n in NoticesWithout(notices, victims) <==> n in notices && !Goes(st.machis, id, future, notices[n]))
            && (forall n :: n in NoticesWithout(notices, victims) ==> NoticesWithout(notices, victims)[n] == notices[n])
  {
    var victims := Victims(st, id, future);
    assert forall k :: k in victims <==> Goes(st.machis, id, future, k);
    SettledAmong(payments, victims);
  }

  lemma DeleteIs(st: Store, id: int, future: bool, paid: set<int>, heir: int)
    requires SeriesValid(st) && id in st.machis && ProperHeir(st, id, future, heir)
    requires !exists v :: v in Victims(st, id, future) && v in paid
    ensures DeletedRightly(st, Delete(st, id, future, paid, heir), id, future)
  {
    hide SlotsValid, RuleInOrder, MemberStands;
    LinkStands(st, id);
    var after, victims := Delete(st, id, future, paid, heir), Victims(st, id, future);
    assert forall k :: k in st.machis ==> (k in victims <==> Goes(st.machis, id, future, k));
    assert after.machis == st.machis - victims;
    if st.machis[id].rule.Some? {
      var r := st.machis[id].rule.value;
      assert SourceStands(st, r, st.rules[r]);
      assert st.rules[r].source in Siblings(st, r);
      assert forall k :: k in Siblings(st, r) && k !in victims ==> k in after.machis && after.machis[k].rule == Some(r);
      if k :| k in after.machis && after.machis[k].rule == Some(r) {
        assert k in Siblings(st, r) && k !in victims;
      }
    }
  }

  /** A read of this temple's board, for one mobed or for all, tops this rule up. */
  predicate Selected(st: Store, r: int, agyary: int, through: int, owner: Option<int>)
    requires r in st.rules
  {
    var rule := st.rules[r];
    Due(rule, through) && rule.agyary == agyary
    && (owner.Some? ==> rule.source in st.machis && st.machis[rule.source].owner == owner)
  }

  /**
   A read of a board tops up exactly the temple's running rules, the mobed's own if one is asked for, whose last day
   tried is before the date asked and whose count is not done.
   */
  lemma SelectedExactly(st: Store, r: int, agyary: int, through: int, owner: Option<int>)
    requires SeriesValid(st) && r in st.rules
    ensures var rule := st.rules[r];
            && rule.agyary in st.systems && rule.source in st.machis
            && (Selected(st, r, agyary, through, owner) <==>
                 && rule.active && rule.agyary == agyary && (owner.Some? ==> st.machis[rule.source].owner == owner)
                 && OccurrenceDate(st, rule, |rule.attempts|) < through && !CountDone(rule))
  {
    hide Due, SlotsValid, RuleInOrder, MemberStands, OccursOn;
    DueExactly(st, r, through);
    SourceIsThere(st, r);
  }

  /** A selected rule has reached the date, or its end, or gone 36 further; any other is as it was. */
  ghost predicate RuleTopped(st: Store, rule: Rule, r: int, agyary: int, through: int, owner: Option<int>)
    requires r in st.rules
  {
    var before := st.rules[r];
    if Selected(st, r, agyary, through, owner) then
      && rule.(marker := before.marker, attempts := before.attempts) == before
      && before.attempts < rule.attempts
      && (rule.marker >= Through(before, through) || |rule.attempts| == |before.attempts| + MAX_GENERATE_MONTHS)
    else rule == before
  }

  /** The first `n` of the due rules topped up, the rest as they were, and no machi there was changed. */
  ghost predicate Topping(was: Store, now: Store, due: seq<int>, n: nat, agyary: int, through: int, owner: Option<int>) {
    && n <= |due| && now.systems == was.systems && now.nextId >= was.nextId
    && (forall r :: r in was.rules ==> r in now.rules)
    && (forall r :: r in was.rules ==>
          if r in due[..n] then RuleTopped(was, now.rules[r], r, agyary, through, owner) else now.rules[r] == was.rules[r])
    && (forall id :: id in was.machis ==> id in now.machis && now.machis[id] == was.machis[id])
  }

  lemma NothingTopped(was: Store, agyary: int, through: int, owner: Option<int>)
    ensures forall due :: Topping(was, was, due, 0, agyary, through, owner)
  {
  }

  lemma ToppedNext(was: Store, st: Store, due: seq<int>, n: nat, agyary: int, through: int, owner: Option<int>, now: int)
    requires SeriesValid(was) && SeriesValid(st) && n < |due| && Topping(was, st, due, n, agyary, through, owner)
    requires forall r :: r in due <==> r in was.rules && Selected(was, r, agyary, through, owner)
    requires forall i, j :: 0 <= i < j < |due| ==> due[i] < due[j]
    ensures due[n] in st.rules && st.rules[due[n]].agyary in st.systems
    ensures SeriesValid(Generate(st, due[n], through, now))
    ensures Topping(was, Generate(st, due[n], through, now), due, n + 1, agyary, through, owner)
  {
    hide SeriesValid, Generate, OccursOn, RuleInOrder, Through;
    var r := due[n];
    assert r in due && r !in due[..n] && due[..n + 1] == due[..n] + [r];
    SourceIsThere(st, r);
    var after := Generate(st, r, through, now);
    GenerateKeepsOrder(st, r, through, now);
    GenerateKeepsSeries(st, r, through, now);
    TopUpReaches(st, r, through, now);
    TopUpIsGenerate(st, r, through, now);
  }

  lemma TopUpIsGenerate(st: Store, r: int, through: int, now: int)
    requires r in st.rules && st.rules[r].agyary in st.systems && Due(st.rules[r], through)
    ensures TopUp(st, r, through, now) == Generate(st, r, through, now)
  {
    hide Generate;
  }

  lemma ToppedAll(was: Store, st: Store, due: seq<int>, agyary: int, through: int, owner: Option<int>)
    requires Topping(was, st, due, |due|, agyary, through, owner)
    requires forall r :: r in due <==> r in was.rules && Selected(was, r, agyary, through, owner)
    ensures forall r :: r in was.rules ==> r in st.rules && RuleTopped(was, st.rules[r], r, agyary, through, owner)
    ensures forall id :: id in was.machis ==> id in st.machis && st.machis[id] == was.machis[id]
  {
    assert due[..|due|] == due;
  }

  lemma RuleIdsBelow(st: Store)
    requires SeriesValid(st)
    ensures forall r :: r in st.rules ==> 0 <= r < st.nextId
  {
  }

  lemma SourceIsThere(st: Store, r: int)
    requires SeriesValid(st) && r in st.rules
    ensures st.rules[r].source in st.machis && st.rules[r].agyary in st.systems
  {
    hide OccursOn, SlotsValid;
    assert RuleInOrder(st, st.rules[r]) && SourceStands(st, r, st.rules[r]);
  }

  lemma AtOrigin(st: Store, id: int, pattern: Pattern)
    requires SeriesValid(st) && id in st.machis && st.machis[id].mah <= 12
    ensures var m := st.machis[id];
            StandsAt(Slot(SeriesFrom(pattern, Index(m.year, m.mah, m.roj)), 0), m.roj, m.mah, m.year)
  {
    hide GregorianToParsi;
    var m := st.machis[id];
    ReadsBack(m.date, st.systems[m.agyary]);
    IndexParts(m.year, m.mah, m.roj);
  }

  lemma StoredDay(st: Store, id: int)
    requires SeriesValid(st) && id in st.machis && st.machis[id].mah <= 12
    ensures 1 <= st.machis[id].roj <= 30 && 1 <= st.machis[id].mah <= 12
  {
    hide GregorianToParsi;
    ReadsBack(st.machis[id].date, st.systems[st.machis[id].agyary]);
  }

  /** Starting a repeat is linking its first machi to a new rule, then a first top-up. */
  lemma StartIs(st: Store, id: int, pattern: Pattern, count: Option<int>, now: int)
    requires id in st.machis && st.machis[id].agyary in st.systems && st.machis[id].rule.None? && st.machis[id].mah <= 12
    ensures var m := st.machis[id];
            var s := SeriesFrom(pattern, Index(m.year, m.mah, m.roj));
            StartSeries(st, id, pattern, count, now)
            == Generate(Begun(st, id, pattern, count), st.nextId, OccursOn(st.systems[m.agyary], s, HORIZON_PERIODS), now)
  {
    hide Generate;
  }

  /** The dates tried since `st` that could not be booked. */
  ghost function SkippedIn(st: Store, ruleId: int, rule: Rule, now: int): seq<int> {
    if ruleId in st.rules && |st.rules[ruleId].attempts| <= |rule.attempts|
       && st.rules[ruleId].source in st.machis && st.machis[st.rules[ruleId].source].agyary in st.systems then
      SkippedOf(st, ruleId, st.machis[st.rules[ruleId].source], rule.attempts[|st.rules[ruleId].attempts|..], now)
    else []
  }

  lemma NothingSkipped(st: Store, ruleId: int, now: int)
    requires ruleId in st.rules
    ensures SkippedIn(st, ruleId, st.rules[ruleId], now) == []
  {
  }

  /** Of different dates, exactly those are skipped whose slot was taken before any of them was booked. */
  lemma {:induction false} SkippedExactly(st: Store, ruleId: int, source: Machi, dates: seq<int>, now: int, day: int)
    requires SlotsValid(st) && source.agyary in st.systems
    requires forall i, j :: 0 <= i < j < |dates| ==> dates[i] != dates[j]
    ensures day in SkippedOf(st, ruleId, source, dates, now) <==> day in dates && Taken(st, source, day, now)
  {
    hide BookEach, SlotsValid, FreeGehs;
    if dates != [] {
      var front, last := dates[..|dates| - 1], dates[|dates| - 1];
      assert dates == front + [last];
      SkippedExactly(st, ruleId, source, front, now, day);
      BookEachAddsMembers(st, ruleId, source, front, now);
      SameFree(st, BookEach(st, ruleId, source, front, now), ruleId, source.agyary, front, last, source.owner, now);
    }
  }

  /** Just begun, a repeat skips exactly the dates it tried whose slot somebody held, or whose time had passed. */
  lemma SkippedAreTaken(st: Store, after: Store, ruleId: int, now: int)
    requires SeriesValid(st) && ruleId in st.rules && st.rules[ruleId].attempts == []
    requires SeriesValid(after) && ruleId in after.rules
    ensures var rule := st.rules[ruleId];
            && rule.source in st.machis && st.machis[rule.source].agyary in st.systems
            && forall day :: day in SkippedIn(st, ruleId, after.rules[ruleId], now) <==>
                 day in after.rules[ruleId].attempts && Taken(st, st.machis[rule.source], day, now)
  {
    hide SkippedOf, Taken, RuleInOrder, MemberStands, OccursOn;
    SlotsOf(st);
    assert SourceStands(st, ruleId, st.rules[ruleId]);
    TriedOnceInOrder(after, ruleId);
    var tried := after.rules[ruleId].attempts;
    assert tried[0..] == tried;
    forall day
      ensures day in SkippedIn(st, ruleId, after.rules[ruleId], now) <==>
                day in tried && Taken(st, st.machis[st.rules[ruleId].source], day, now)
    {
      SkippedExactly(st, ruleId, st.machis[st.rules[ruleId].source], tried, now, day);
    }
  }

  lemma BookNothing(st: Store, ruleId: int, source: Machi, now: int)
    requires source.agyary in st.systems
    ensures BookEach(st, ruleId, source, [], now) == st && SkippedOf(st, ruleId, source, [], now) == []
  {
  }

  lemma BookOneMore(st: Store, ruleId: int, source: Machi, dates: seq<int>, date: int, now: int)
    requires source.agyary in st.systems
    ensures BookEach(st, ruleId, source, dates + [date], now)
            == BookInstance(BookEach(st, ruleId, source, dates, now), ruleId, source, date, now)
    ensures SkippedOf(st, ruleId, source, dates + [date], now) ==
            if Taken(BookEach(st, ruleId, source, dates, now), source, date, now) then SkippedOf(st, ruleId, source, dates, now) + [date]
            else SkippedOf(st, ruleId, source, dates, now)
  {
    hide BookInstance, Taken;
    assert (dates + [date])[..|dates|] == dates;
  }

  /** A top-up of a standing rule: nothing past its end or the date asked, else the attempts and the new marker. */
  lemma GenerateIs(st: Store, ruleId: int, through: int, now: int)
    requires SeriesValid(st) && ruleId in st.rules
    ensures var rule := st.rules[ruleId];
            && rule.agyary in st.systems && rule.source in st.machis && st.machis[rule.source].agyary == rule.agyary
            && Generate(st, ruleId, through, now) ==
                 if rule.marker >= Through(rule, through) then st
                 else
                   var dates := Attempts(st.systems[rule.agyary], SeriesFrom(rule.pattern, rule.origin), |rule.attempts|,
                                         Through(rule, through), MAX_GENERATE_MONTHS);
                   var booked := BookEach(st, ruleId, st.machis[rule.source], dates, now);
                   booked.(rules := st.rules[ruleId := rule.(marker := dates[|dates| - 1], attempts := rule.attempts + dates)])
  {
    hide SlotsValid, BookEach, Attempts, OccursOn;
    assert RuleInOrder(st, st.rules[ruleId]) && SourceStands(st, ruleId, st.rules[ruleId]);
  }

  /** A rule's marker reads back as the slot it stands on, under its source's own Roj. */
  lemma MarkerReads(st: Store, ruleId: int)
    requires SeriesValid(st) && ruleId in st.rules
    ensures var rule := st.rules[ruleId];
            var t := Slot(SeriesFrom(rule.pattern, rule.origin), |rule.attempts|);
            && rule.agyary in st.systems && rule.source in st.machis
            && var (roj, mah, year) := SlotKeys(st.systems[rule.agyary], rule.marker);
               StandsAt(t, st.machis[rule.source].roj, mah, year)
  {
    hide GregorianToParsi, ParsiToGregorian, DateOf, Slot;
    var rule := st.rules[ruleId];
    assert RuleInOrder(st, rule) && SourceStands(st, ruleId, rule);
    var source := st.machis[rule.source];
    assert MemberStands(st, source);
    var system, s := st.systems[rule.agyary], SeriesFrom(rule.pattern, rule.origin);
    ReadsAsIndex(system, Slot(s, |rule.attempts|));
    var k :| 0 <= k <= |rule.attempts| && source.date == OccurrenceDate(st, rule, k);
    ReadsAsIndex(system, Slot(s, k));
    SlotRoj(rule.pattern, rule.origin, k);
    SlotRoj(rule.pattern, rule.origin, |rule.attempts|);
  }
}
