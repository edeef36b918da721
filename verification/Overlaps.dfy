/**
 Top-ups that overlap. Completing a board of machis takes no lock on the rules, so a top-up may act on a marker and
 a source that it read in an earlier state. Slots stay apart all the same; here is exactly when the promises on
 series hold, and exactly what such a top-up books.
 */
module Overlaps {
  import opened Results
  import opened Engine
  import opened RojMahCount
  import opened MemorialSeries
  import opened Slots
  import opened Recurrence
  import opened RecurrenceRuns

  // --- When the series stay in order ---

  /**
   A late top-up leaves every series in order if and only if the marker it read is the one stored, or it has
   nothing to do. Source and marker are otherwise whatever it read.
   */
  lemma StaleTopUpExactly(st: Store, r: int, source: Machi, k: int, through: int, now: int)
    requires SeriesValid(st) && OwnSource(st, r, source)
    ensures SeriesValid(StaleTopUp(st, r, source, k, through, now)) <==> ReadsStored(st, r, k, through)
  {
    hide SlotsValid, OccursOn, BookEach, Attempts, SourceStands, MemberStands;
    var after := StaleTopUp(st, r, source, k, through, now);
    if HasMore(st, r, k, through) {
      if k == Progress(st.rules[r]) {
        StaleProgresses(st, r, source, k, through, now);
      } else {
        WrongOccurrence(st, r, source, k, through, now);
        assert !RuleInOrder(after, after.rules[r]);
      }
    }
  }

  /** Acting on another marker, it tries occurrence `k + 1` where the next one not tried belongs. */
  lemma WrongOccurrence(st: Store, r: int, source: Machi, k: int, through: int, now: int)
    requires SeriesValid(st) && HasMore(st, r, k, through) && OwnSource(st, r, source)
    requires k != Progress(st.rules[r])
    ensures var rule, after := st.rules[r], StaleTopUp(st, r, source, k, through, now);
            && r in after.rules && after.systems == st.systems
            && rule.(marker := after.rules[r].marker, attempts := after.rules[r].attempts) == after.rules[r]
            && rule.attempts < after.rules[r].attempts
            && after.rules[r].attempts[|rule.attempts|] == OccurrenceDate(st, rule, k + 1)
            && OccurrenceDate(st, rule, k + 1) != OccurrenceDate(st, rule, |rule.attempts| + 1)
            && (0 <= k < |rule.attempts| ==> after.rules[r].attempts[k] == after.rules[r].attempts[|rule.attempts|])
  {
    hide SlotsValid, OccursOn, BookEach, Attempts, SourceStands, MemberStands;
    var rule := st.rules[r];
    assert RuleInOrder(st, rule);
    var system, s := st.systems[rule.agyary], SeriesFrom(rule.pattern, rule.origin);
    AttemptsAre(system, s, k, Through(rule, through), MAX_GENERATE_MONTHS);
    OccursInOrder(system, s, k + 1, |rule.attempts| + 1);
    OccursInOrder(system, s, |rule.attempts| + 1, k + 1);
  }

  /** Every step but a late top-up keeps to what was allowed; a late top-up may act on any marker. */
  ghost predicate Ordinary(st: Store, op: Op) {
    if op.StaleTopUpOp? then OwnSource(st, op.rule, op.source) else Allowed(st, op)
  }

  predicate OnStored(st: Store, op: Op) {
    op.StaleTopUpOp? ==> ReadsStored(st, op.rule, op.k, op.through)
  }

  ghost predicate OrderThroughout(st: Store, ops: seq<Op>) {
    forall i :: 0 <= i <= |ops| ==> SeriesValid(Run(st, ops[..i]))
  }

  ghost predicate StoredThroughout(st: Store, ops: seq<Op>) {
    forall i :: 0 <= i < |ops| ==> OnStored(Run(st, ops[..i]), ops[i])
  }

  /** Over whole runs: the series are in order all along if and only if each late top-up found the marker it had read. */
  lemma SeriesKeptExactly(st: Store, ops: seq<Op>)
    requires SeriesValid(st)
    requires forall i :: 0 <= i < |ops| ==> Ordinary(Run(st, ops[..i]), ops[i])
    ensures OrderThroughout(st, ops) <==> StoredThroughout(st, ops)
  {
    hide SeriesValid, Apply, Allowed, OwnSource, ReadsStored;
    if OrderThroughout(st, ops) {
      forall i | 0 <= i < |ops|
        ensures OnStored(Run(st, ops[..i]), ops[i])
      {
        assert SeriesValid(Run(st, ops[..i])) && SeriesValid(Run(st, ops[..i + 1]));
        StepExactly(st, ops, i);
      }
    }
    if StoredThroughout(st, ops) {
      InOrderUpTo(st, ops, |ops|);
    }
  }

  lemma {:induction false} InOrderUpTo(st: Store, ops: seq<Op>, n: nat)
    requires SeriesValid(st) && n <= |ops| && StoredThroughout(st, ops)
    requires forall i :: 0 <= i < |ops| ==> Ordinary(Run(st, ops[..i]), ops[i])
    ensures forall i :: 0 <= i <= n ==> SeriesValid(Run(st, ops[..i]))
  {
    hide SeriesValid, Apply, Allowed, OwnSource, ReadsStored;
    if n == 0 {
      assert ops[..0] == [];
    } else {
      InOrderUpTo(st, ops, n - 1);
      assert OnStored(Run(st, ops[..n - 1]), ops[n - 1]);
      StepExactly(st, ops, n - 1);
    }
  }

  lemma StepExactly(st: Store, ops: seq<Op>, i: nat)
    requires i < |ops| && SeriesValid(Run(st, ops[..i])) && Ordinary(Run(st, ops[..i]), ops[i])
    ensures SeriesValid(Run(st, ops[..i + 1])) <==> OnStored(Run(st, ops[..i]), ops[i])
  {
    hide SeriesValid, Ordinary, OnStored, Apply;
    assert ops[..i + 1][..i] == ops[..i];
    ApplyExactly(Run(st, ops[..i]), ops[i]);
  }

  lemma ApplyExactly(st: Store, op: Op)
    requires SeriesValid(st) && Ordinary(st, op)
    ensures SeriesValid(Apply(st, op)) <==> OnStored(st, op)
  {
    hide SeriesValid, OwnSource, ReadsStored, StaleTopUp, Allowed;
    if op.StaleTopUpOp? {
      StaleTopUpExactly(st, op.rule, op.source, op.k, op.through, op.now);
    } else {
      ApplyKeepsSeries(st, op);
    }
  }

  // --- What a late top-up books ---

  predicate NewOn(st: Store, after: Store, r: int, date: int, id: int) {
    id in after.machis && id !in st.machis && after.machis[id].rule == Some(r) && after.machis[id].date == date
  }

  /** A machi of the rule is on this date that was not there before. */
  ghost predicate Appears(st: Store, after: Store, r: int, date: int) {
    exists id :: NewOn(st, after, r, date, id)
  }

  lemma OneBooking(st: Store, r: int, source: Machi, day: int, now: int, date: int)
    requires SlotsValid(st) && source.agyary in st.systems
    ensures var after := BookInstance(st, r, source, day, now);
            && (Appears(st, after, r, date) <==> date == day && source.geh in FreeGehs(st, source.agyary, day, source.owner, now))
            && forall id :: id in st.machis ==> id in after.machis && after.machis[id] == st.machis[id]
  {
    hide SlotKeys, FreeGehs, IndexAccepts, SlotsValid;
    FreeIsAccepted(st, source.agyary, source.customer, source.geh, day, source.owner, now);
    IdsAreBelow(st);
    var after := BookInstance(st, r, source, day, now);
    if source.geh in FreeGehs(st, source.agyary, day, source.owner, now) {
      assert NewOn(st, after, r, day, st.nextId);
    }
  }

  /** Of different dates, exactly those on which the geh is free are booked. */
  lemma {:induction false} BooksTheFree(st: Store, r: int, source: Machi, dates: seq<int>, now: int, date: int)
    requires SlotsValid(st) && source.agyary in st.systems
    requires forall i, j :: 0 <= i < j < |dates| ==> dates[i] != dates[j]
    ensures Appears(st, BookEach(st, r, source, dates, now), r, date) <==>
              date in dates && source.geh in FreeGehs(st, source.agyary, date, source.owner, now)
  {
    hide SlotKeys, FreeGehs, SlotsValid, BookInstance;
    if dates != [] {
      var front, last := dates[..|dates| - 1], dates[|dates| - 1];
      assert dates == front + [last];
      var before, after := BookEach(st, r, source, front, now), BookEach(st, r, source, dates, now);
      BooksTheFree(st, r, source, front, now, date);
      BookEachAddsMembers(st, r, source, front, now);
      BookEachKeepsSlots(st, r, source, front, now);
      OneBooking(before, r, source, last, now, date);
      if date == last {
        SameFree(st, before, r, source.agyary, front, last, source.owner, now);
      }
      if Appears(st, before, r, date) {
        var id :| NewOn(st, before, r, date, id);
        assert NewOn(st, after, r, date, id);
      }
      if Appears(before, after, r, date) {
        var id :| NewOn(before, after, r, date, id);
        assert NewOn(st, after, r, date, id);
      }
      if Appears(st, after, r, date) {
        var id :| NewOn(st, after, r, date, id);
        assert if id in before.machis then NewOn(st, before, r, date, id) else NewOn(before, after, r, date, id);
      }
    }
  }

  /** Occurrence `j` is attempted from `k` exactly if it comes after it, within 36, and the one before it is early enough. */
  lemma AttemptedExactly(system: CalendarSystem, s: Series, k: int, through: int, cap: nat, j: int)
    requires OccursOn(system, s, k) < through && cap > 0
    ensures OccursOn(system, s, j) in Attempts(system, s, k, through, cap) <==>
              k < j <= k + cap && OccursOn(system, s, j - 1) < through
  {
    hide OccursOn, Attempts;
    var dates := Attempts(system, s, k, through, cap);
    AttemptsAre(system, s, k, through, cap);
    if OccursOn(system, s, j) in dates {
      var i :| 0 <= i < |dates| && dates[i] == OccursOn(system, s, j);
      OccursInOrder(system, s, j, k + 1 + i);
      OccursInOrder(system, s, k + 1 + i, j);
      assert j == k + 1 + i;
    }
    if k < j <= k + |dates| {
      assert dates[j - k - 1] == OccursOn(system, s, k + 1 + (j - k - 1));
      if j > k + 1 {
        assert dates[j - k - 2] == OccursOn(system, s, k + 1 + (j - k - 2));
      }
    } else if k < j {
      assert dates[|dates| - 1] == OccursOn(system, s, k + 1 + (|dates| - 1));
      OccursInOrder(system, s, k + |dates|, j - 1);
    }
  }

  /**
   Exactly what a late top-up books, in any state. A machi of the rule appears on occurrence `j` if and only if `j`
   comes after the marker that was read, within 36 of it, the one before it is short of what was asked, and its geh is
   free now.
   Whether `j` was booked before and deleted, or the repeat stopped, since the marker was read makes no difference.
   */
  lemma BringsBackExactly(st: Store, r: int, source: Machi, k: int, j: int, through: int, now: int)
    requires SeriesValid(st) && r in st.rules && OwnSource(st, r, source)
    ensures var rule := st.rules[r];
            && rule.agyary in st.systems
            && (Appears(st, StaleTopUp(st, r, source, k, through, now), r, OccurrenceDate(st, rule, j)) <==>
                 && k < j <= k + MAX_GENERATE_MONTHS && OccurrenceDate(st, rule, j - 1) < Through(rule, through)
                 && source.geh in FreeGehs(st, rule.agyary, OccurrenceDate(st, rule, j), source.owner, now))
  {
    hide SlotsValid, OccursOn, BookEach, Attempts, SourceStands, MemberStands, FreeGehs;
    var rule := st.rules[r];
    assert RuleInOrder(st, rule);
    var system, s, until := st.systems[rule.agyary], SeriesFrom(rule.pattern, rule.origin), Through(rule, through);
    if HasMore(st, r, k, through) {
      var dates := Attempts(system, s, k, until, MAX_GENERATE_MONTHS);
      AttemptsAre(system, s, k, until, MAX_GENERATE_MONTHS);
      forall a, b | 0 <= a < b < |dates|
        ensures dates[a] != dates[b]
      {
        OccursInOrder(system, s, k + 1 + a, k + 1 + b);
      }
      BooksTheFree(st, r, source, dates, now, OccursOn(system, s, j));
      AttemptedExactly(system, s, k, until, MAX_GENERATE_MONTHS, j);
      var booked, after := BookEach(st, r, source, dates, now), StaleTopUp(st, r, source, k, through, now);
      assert after.machis == booked.machis;
      assert forall id :: NewOn(st, after, r, OccursOn(system, s, j), id) <==> NewOn(st, booked, r, OccursOn(system, s, j), id);
    } else if k < j {
      OccursInOrder(system, s, k, j - 1);
    }
  }

  /** And so of any top-up: it books exactly those of the occurrences it tries whose geh is free. */
  lemma TopUpBooksExactly(st: Store, r: int, j: int, through: int, now: int)
    requires SeriesValid(st) && r in st.rules && Due(st.rules[r], through)
    ensures var rule, after := st.rules[r], TopUp(st, r, through, now);
            && rule.agyary in st.systems && r in after.rules && rule.source in st.machis
            && var source := st.machis[rule.source];
               Appears(st, after, r, OccurrenceDate(st, rule, j)) <==>
                 && |rule.attempts| < j <= |after.rules[r].attempts|
                 && source.geh in FreeGehs(st, rule.agyary, OccurrenceDate(st, rule, j), source.owner, now)
  {
    hide SlotsValid, OccursOn, BookEach, Attempts, MemberStands, FreeGehs, Appears;
    var rule := st.rules[r];
    assert RuleInOrder(st, rule) && SourceStands(st, r, rule);
    var system, s, k, until := st.systems[rule.agyary], SeriesFrom(rule.pattern, rule.origin), Progress(rule), Through(rule, through);
    assert TopUp(st, r, through, now) == StaleTopUp(st, r, st.machis[rule.source], k, through, now);
    BringsBackExactly(st, r, st.machis[rule.source], k, j, through, now);
    TopUpTries(st, r, through, now);
    AttemptedExactly(system, s, k, until, MAX_GENERATE_MONTHS, j);
    AmongTheNext(system, s, k, until, j);
  }

  lemma AmongTheNext(system: CalendarSystem, s: Series, k: int, through: int, j: int)
    ensures var dates := Attempts(system, s, k, through, MAX_GENERATE_MONTHS);
            OccursOn(system, s, j) in dates <==> k < j <= k + |dates|
  {
    hide OccursOn, Attempts;
    var dates := Attempts(system, s, k, through, MAX_GENERATE_MONTHS);
    AttemptsAre(system, s, k, through, MAX_GENERATE_MONTHS);
    if OccursOn(system, s, j) in dates {
      var i :| 0 <= i < |dates| && dates[i] == OccursOn(system, s, j);
      OccursInOrder(system, s, j, k + 1 + i);
      OccursInOrder(system, s, k + 1 + i, j);
    }
    if k < j <= k + |dates| {
      assert dates[j - k - 1] == OccursOn(system, s, k + 1 + (j - k - 1));
    }
  }

  // --- In real runs ---

  /** The marker and the source that a top-up read when the run had come as far as step `i`. */
  ghost predicate ReadAt(st: Store, ops: seq<Op>, i: nat, r: int, source: Machi, k: int) {
    && i <= |ops|
    && var seen := Run(st, ops[..i]);
       && r in seen.rules && k == Progress(seen.rules[r])
       && seen.rules[r].source in seen.machis && source == seen.machis[seen.rules[r].source]
  }

  /**
   A top-up that read its rule at step `i` of a run and acts at its end. The promises on series survive it if and
   only if the marker has not moved since, or it has nothing to do; and it books occurrence `j` if and only if the
   marker it read was short of it, by no more than 36, and the slot is free.
   */
  lemma OverlapExactly(st: Store, ops: seq<Op>, i: nat, r: int, source: Machi, k: int, j: int, through: int, now: int)
    requires SeriesValid(st) && AllAllowed(st, ops) && ReadAt(st, ops, i, r, source, k) && r in Run(st, ops).rules
    ensures var seen, here := Run(st, ops[..i]), Run(st, ops);
            var rule, after := here.rules[r], StaleTopUp(here, r, source, k, through, now);
            && rule.agyary in here.systems && 0 <= k <= |rule.attempts|
            && (SeriesValid(after) <==> seen.rules[r].marker == rule.marker || !HasMore(here, r, k, through))
            && (Appears(here, after, r, OccurrenceDate(here, rule, j)) <==>
                 && k < j <= k + MAX_GENERATE_MONTHS && OccurrenceDate(here, rule, j - 1) < Through(rule, through)
                 && source.geh in FreeGehs(here, rule.agyary, OccurrenceDate(here, rule, j), source.owner, now))
  {
    hide SeriesValid, Run, Follows, HasMore, StaleTopUp, OccursOn, Appears, FreeGehs, AllAllowed;
    var here := Run(st, ops);
    SeriesStayInOrder(st, ops);
    SeenBefore(st, ops, i, r);
    ReadOwn(st, ops, i, r, source, k);
    StaleTopUpExactly(here, r, source, k, through, now);
    BringsBackExactly(here, r, source, k, j, through, now);
  }

  lemma ReadOwn(st: Store, ops: seq<Op>, i: nat, r: int, source: Machi, k: int)
    requires SeriesValid(st) && AllAllowed(st, ops) && ReadAt(st, ops, i, r, source, k)
    ensures source.agyary == Run(st, ops[..i]).rules[r].agyary
  {
    hide SlotsValid, RuleInOrder, MemberStands, Run, AllAllowed;
    AllowedUpTo(st, ops, i);
    SeriesStayInOrder(st, ops[..i]);
    assert SourceStands(Run(st, ops[..i]), r, Run(st, ops[..i]).rules[r]);
  }

  lemma AllowedUpTo(st: Store, ops: seq<Op>, i: nat)
    requires AllAllowed(st, ops) && i <= |ops|
    ensures AllAllowed(st, ops[..i])
  {
    hide Allowed;
    forall n | 0 <= n < i
      ensures Allowed(Run(st, ops[..i][..n]), ops[..i][n])
    {
      assert ops[..i][..n] == ops[..n];
      assert Allowed(Run(st, ops[..n]), ops[n]);
    }
  }

  lemma {:induction false} RunOn(st: Store, first: seq<Op>, second: seq<Op>)
    ensures Run(st, first + second) == Run(Run(st, first), second)
  {
    hide Apply;
    if second == [] {
      assert first + second == first;
    } else {
      RunOn(st, first, second[..|second| - 1]);
      assert (first + second)[..|first + second| - 1] == first + second[..|second| - 1];
    }
  }

  /** A rule that is still there was read no further on than it stands now: its marker tells how far. */
  lemma SeenBefore(st: Store, ops: seq<Op>, i: nat, r: int)
    requires SeriesValid(st) && AllAllowed(st, ops) && i <= |ops|
    requires r in Run(st, ops[..i]).rules && r in Run(st, ops).rules
    ensures var before, rule := Run(st, ops[..i]).rules[r], Run(st, ops).rules[r];
            && before.agyary == rule.agyary && |before.attempts| <= |rule.attempts|
            && (before.marker == rule.marker <==> |before.attempts| == |rule.attempts|)
  {
    hide SlotsValid, OccursOn, MemberStands, SourceStands, Run, RowFollows, AllAllowed;
    var seen, rest := Run(st, ops[..i]), ops[i..];
    AllowedUpTo(st, ops, i);
    SeriesStayInOrder(st, ops[..i]);
    SeriesStayInOrder(st, ops);
    AllowedFrom(st, ops, i);
    RunOn(st, ops[..i], rest);
    assert ops[..i] + rest == ops;
    RunFollows(seen, rest);
    var here := Run(st, ops);
    assert r < seen.nextId by { SeenIds(seen, r); }
    assert RuleFollows(seen, here, r);
    assert RuleInOrder(seen, seen.rules[r]) && RuleInOrder(here, here.rules[r]);
    var before, rule := seen.rules[r], here.rules[r];
    SameSystems(seen, rest);
    OccursInOrder(here.systems[rule.agyary], SeriesFrom(rule.pattern, rule.origin), |before.attempts|, |rule.attempts|);
  }

  lemma SeenIds(st: Store, r: int)
    requires SeriesValid(st) && r in st.rules
    ensures r < st.nextId
  {
    hide KeysRight, SlotsApart, RuleInOrder, MemberStands, SourceStands;
  }

  lemma {:induction false} SameSystems(st: Store, ops: seq<Op>)
    ensures Run(st, ops).systems == st.systems
  {
    if ops != [] {
      hide SlotKeys, Attempts, FreeGehs, IndexAccepts, Victims, Siblings, LastOccurrence;
      SameSystems(st, ops[..|ops| - 1]);
    }
  }

  lemma AllowedFrom(st: Store, ops: seq<Op>, i: nat)
    requires AllAllowed(st, ops) && i <= |ops|
    ensures AllAllowed(Run(st, ops[..i]), ops[i..])
  {
    hide Allowed;
    forall n | 0 <= n < |ops| - i
      ensures Allowed(Run(Run(st, ops[..i]), ops[i..][..n]), ops[i..][n])
    {
      assert ops[..i] + ops[i..][..n] == ops[..i + n];
      RunOn(st, ops[..i], ops[i..][..n]);
      assert Allowed(Run(st, ops[..i + n]), ops[i + n]);
    }
  }

  // --- A run in which a deleted machi comes back ---

  function Empty(systems: map<int, CalendarSystem>): Store {
    Store(systems, map[], map[], 0)
  }

  lemma OneMoreStep(st: Store, ops: seq<Op>, op: Op)
    requires AllAllowed(st, ops) && Allowed(Run(st, ops), op)
    ensures AllAllowed(st, ops + [op]) && Run(st, ops + [op]) == Apply(Run(st, ops), op)
  {
    hide Allowed, Apply;
    var all := ops + [op];
    assert all[..|ops|] == ops;
    forall i | 0 <= i < |all|
      ensures Allowed(Run(st, all[..i]), all[i])
    {
      if i < |ops| {
        assert all[..i] == ops[..i];
        assert Allowed(Run(st, ops[..i]), ops[i]);
      }
    }
  }

  /** What the rule books takes geh and mobed from the source, and is confirmed. */
  predicate LikeSource(m: Machi, source: Machi) {
    m.agyary == source.agyary && m.customer == source.customer && m.geh == source.geh && m.owner == source.owner
    && m.status == Confirmed
  }

  lemma {:induction false} NewLikeSource(st: Store, r: int, source: Machi, dates: seq<int>, now: int)
    requires SlotsValid(st) && source.agyary in st.systems
    ensures var after := BookEach(st, r, source, dates, now);
            forall id :: id in after.machis && id !in st.machis ==> LikeSource(after.machis[id], source)
  {
    if dates != [] {
      hide SlotKeys, FreeGehs, IndexAccepts, SlotsValid;
      var front := dates[..|dates| - 1];
      NewLikeSource(st, r, source, front, now);
      BookEachAddsMembers(st, r, source, front, now);
      BookEachKeepsSlots(st, r, source, front, now);
      IdsAreBelow(BookEach(st, r, source, front, now));
    }
  }

  /** The earliest of some machis, `one` among them. */
  lemma {:induction false} Earliest(st: Store, ids: set<int>, one: int) returns (id: int)
    requires one in ids && ids <= st.machis.Keys
    ensures IsEarliest(st, ids, id)
    decreases |ids|
  {
    var others := ids - {one};
    assert ids == others + {one};
    id := one;
    if next :| next in others {
      var first := Earliest(st, others, next);
      if st.machis[first].date <= st.machis[one].date {
        id := first;
      }
    }
  }

  /** A store with one running rule that has nothing but its own machis, before any of their days. */
  ghost predicate JustTheRule(st: Store, r: int, now: int) {
    && SeriesValid(st) && r in st.rules && st.rules[r].active && st.rules[r].endDate.None?
    && (forall id :: id in st.machis ==> st.machis[id].rule == Some(r) && st.machis[id].date > now / MINUTES_PER_DAY)
    && st.rules[r].source in st.machis && 1 <= st.machis[st.rules[r].source].geh <= 5
  }

  /** The rule's next day is free. */
  lemma NextIsFree(st: Store, r: int, now: int)
    requires JustTheRule(st, r, now)
    ensures var rule, source := st.rules[r], st.machis[st.rules[r].source];
            && rule.agyary in st.systems
            && OccurrenceDate(st, rule, Progress(rule) + 1) > now / MINUTES_PER_DAY
            && source.geh in FreeGehs(st, rule.agyary, OccurrenceDate(st, rule, Progress(rule) + 1), source.owner, now)
  {
    hide SlotsValid, OccursOn, SourceStands, CeremonyTime;
    var rule := st.rules[r];
    assert RuleInOrder(st, rule);
    var system, s, k := st.systems[rule.agyary], SeriesFrom(rule.pattern, rule.origin), Progress(rule);
    forall id | id in st.machis
      ensures st.machis[id].date < OccursOn(system, s, k + 1)
    {
      assert MemberStands(st, st.machis[id]);
      var n :| 0 <= n <= k && st.machis[id].date == OccurrenceDate(st, rule, n);
      OccursInOrder(system, s, n, k + 1);
    }
    assert rule.source in st.machis;
  }

  /**
   Read the rule; top it up by one; delete what that booked; and act on what was read: the machi is back.
   */
  lemma ReadTopUpDeleteAct(st: Store, r: int, now: int) returns (op: Op, v: int, heir: int)
    requires JustTheRule(st, r, now)
    ensures var rule, source, k := st.rules[r], st.machis[st.rules[r].source], Progress(st.rules[r]);
            var topped := Apply(st, op);
            var gone := Apply(topped, DeleteOp(v, false, {}, heir));
            && op == TopUpOp(r, rule.marker + 1, now)
            && rule.agyary in st.systems
            && NewOn(st, topped, r, OccurrenceDate(st, rule, k + 1), v) && v !in gone.machis
            && Allowed(topped, DeleteOp(v, false, {}, heir)) && r in gone.rules
            && Appears(gone, StaleTopUp(gone, r, source, k, rule.marker + 1, now), r, OccurrenceDate(st, rule, k + 1))
  {
    hide SlotsValid, OccursOn, Attempts, BookEach, MemberStands, FreeGehs, RuleInOrder;
    var rule, source, k := st.rules[r], st.machis[st.rules[r].source], Progress(st.rules[r]);
    var through := rule.marker + 1;
    op := TopUpOp(r, through, now);
    var topped := Apply(st, op);
    MarkerIs(st, r);
    assert SourceStands(st, r, rule);
    TopUpIsLate(st, r, now);
    NextIsFree(st, r, now);
    BringsBackExactly(st, r, source, k, k + 1, through, now);
    var day := OccurrenceDate(st, rule, k + 1);
    v :| NewOn(st, topped, r, day, v);
    ToppedUp(st, r, now, v);
    assert rule.source in Siblings(topped, r) - {v};
    heir := Earliest(topped, Siblings(topped, r) - {v}, rule.source);
    var gone := Delete(topped, v, false, {}, heir);
    assert gone.machis == topped.machis - {v} && gone.rules == topped.rules;
    DeleteKeepsSeries(topped, v, false, {}, heir);
    assert SlotsValid(topped);
    FreeAgain(topped, gone, v, source, now);
    BringsBackExactly(gone, r, source, k, k + 1, through, now);
  }

  lemma EmptyIsValid(systems: map<int, CalendarSystem>)
    ensures SeriesValid(Empty(systems)) && AllAllowed(Empty(systems), []) && Run(Empty(systems), []) == Empty(systems)
  {
  }

  /** The first booking of all is made. */
  lemma FirstBooked(systems: map<int, CalendarSystem>, agyary: int, customer: int, geh: int, date: int, owner: Option<int>)
    requires agyary in systems
    ensures var op := ClaimOp(agyary, customer, geh, date, owner, {geh});
            var m := NewMachi(Empty(systems), agyary, customer, geh, date, owner);
            && Allowed(Empty(systems), op) && SeriesValid(Apply(Empty(systems), op))
            && Apply(Empty(systems), op) == Store(systems, map[0 := m], map[], 1)
  {
    hide SlotKeys, SeriesValid;
    EmptyIsValid(systems);
    ApplyKeepsSeries(Empty(systems), ClaimOp(agyary, customer, geh, date, owner, {geh}));
  }

  lemma FirstRule(st: Store, pattern: Pattern, now: int)
    requires SeriesValid(st) && st.nextId == 1 && st.machis.Keys == {0} && Startable(st, 0)
    requires 1 <= st.machis[0].geh <= 5 && st.machis[0].date > now / MINUTES_PER_DAY
    ensures JustTheRule(StartSeries(st, 0, pattern, None, now), 1, now)
  {
    hide SlotKeys, SlotsValid, OccursOn, RuleInOrder, StartSeries, SourceStands;
    StartedRule(st, 0, pattern, None, now);
    StoredOrigin(st, st.machis[0], pattern, Index(st.machis[0].year, st.machis[0].mah, st.machis[0].roj));
    var started := StartSeries(st, 0, pattern, None, now);
    var rule := started.rules[1];
    MarkerIs(started, 1);
    SameSystems(st, [StartOp(0, pattern, None, now)]);
    assert Run(st, [StartOp(0, pattern, None, now)]) == started;
    forall id | id in started.machis
      ensures started.machis[id].rule == Some(1) && started.machis[id].date > now / MINUTES_PER_DAY
    {
      assert id == 0 || id !in st.machis;
      assert MemberStands(started, started.machis[id]);
      var n :| 0 <= n <= |rule.attempts| && started.machis[id].date == OccurrenceDate(started, rule, n);
      OccursInOrder(started.systems[rule.agyary], SeriesFrom(pattern, rule.origin), 0, n);
    }
  }

  /**
   From an empty store: book a machi, repeat it, top the repeat up, delete what that booked. A top-up that read the
   repeat after the second step and acts now books the deleted day again. It is so for every temple, calendar,
   pattern, mobed, geh and day off the Gathas.
   */
  lemma DeletedComesBack(systems: map<int, CalendarSystem>, agyary: int, customer: int, geh: int, date: int, owner: Option<int>,
                         pattern: Pattern)
    returns (ops: seq<Op>, source: Machi, k: int, through: int, now: int, v: int)
    requires agyary in systems && 1 <= geh <= 5 && SlotKeys(systems[agyary], date).1 <= 12
    ensures |ops| == 4 && ops[0].ClaimOp? && ops[1].StartOp? && ops[2].TopUpOp? && ops[3].DeleteOp?
    ensures AllAllowed(Empty(systems), ops) && ReadAt(Empty(systems), ops, 2, 1, source, k)
    ensures var booked, gone := Run(Empty(systems), ops[..3]), Run(Empty(systems), ops);
            && v in booked.machis && booked.machis[v].rule == Some(1) && v !in gone.machis && 1 in gone.rules
            && Appears(gone, StaleTopUp(gone, 1, source, k, through, now), 1, booked.machis[v].date)
  {
    hide SeriesValid, Run, Apply, Allowed, AllAllowed, JustTheRule, SlotKeys, Appears, StaleTopUp, OccursOn;
    var empty := Empty(systems);
    now := (date - 1) * MINUTES_PER_DAY;
    var claim, start := ClaimOp(agyary, customer, geh, date, owner, {geh}), StartOp(0, pattern, None, now);
    EmptyIsValid(systems);
    FirstBooked(systems, agyary, customer, geh, date, owner);
    OneMoreStep(empty, [], claim);
    var first := Apply(empty, claim);
    Starts(first, pattern, now);
    assert [] + [claim] == [claim] && [claim] + [start] == [claim, start];
    OneMoreStep(empty, [claim], start);
    var begun := Apply(first, start);
    MarkerIs(begun, 1) by { RuleIsThere(begun, 1, now); }
    RuleIsThere(begun, 1, now);
    source, k, through := begun.machis[begun.rules[1].source], Progress(begun.rules[1]), begun.rules[1].marker + 1;
    var topUp, heir;
    topUp, v, heir := ReadTopUpDeleteAct(begun, 1, now);
    assert Allowed(begun, topUp) by { TopUpAllowed(begun, 1, through, now); }
    OneMoreStep(empty, [claim, start], topUp);
    var delete := DeleteOp(v, false, {}, heir);
    OneMoreStep(empty, [claim, start] + [topUp], delete);
    ops := [claim, start] + [topUp] + [delete];
    assert ops[..2] == [claim, start] && ops[..3] == [claim, start] + [topUp];
  }

  lemma Starts(st: Store, pattern: Pattern, now: int)
    requires SeriesValid(st) && st.nextId == 1 && st.machis.Keys == {0} && Startable(st, 0)
    requires 1 <= st.machis[0].geh <= 5 && st.machis[0].date > now / MINUTES_PER_DAY
    ensures var op := StartOp(0, pattern, None, now); Allowed(st, op) && JustTheRule(Apply(st, op), 1, now)
  {
    hide SeriesValid, JustTheRule, StartSeries;
    FirstRule(st, pattern, now);
  }

  lemma RuleIsThere(st: Store, r: int, now: int)
    requires JustTheRule(st, r, now)
    ensures SeriesValid(st) && r in st.rules && st.rules[r].source in st.machis
  {
  }

  lemma TopUpAllowed(st: Store, r: int, through: int, now: int)
    ensures Allowed(st, TopUpOp(r, through, now))
  {
  }

  lemma MarkerIs(st: Store, r: int)
    requires SeriesValid(st) && r in st.rules
    ensures var rule := st.rules[r];
            && rule.agyary in st.systems && rule.marker == OccurrenceDate(st, rule, Progress(rule))
            && rule.source in st.machis && st.machis[rule.source].agyary == rule.agyary
            && st.machis[rule.source].rule == Some(r)
  {
    hide SlotsValid, OccursOn;
    assert RuleInOrder(st, st.rules[r]) && SourceStands(st, r, st.rules[r]);
  }

  /** Alone, a top-up is one that acts at once on what it has read. */
  lemma TopUpIsLate(st: Store, r: int, now: int)
    requires JustTheRule(st, r, now)
    ensures var rule := st.rules[r];
            TopUp(st, r, rule.marker + 1, now) == StaleTopUp(st, r, st.machis[rule.source], Progress(rule), rule.marker + 1, now)
  {
    hide SlotsValid, OccursOn, AttemptFrom, MemberStands;
    MarkerIs(st, r);
  }

  /** Topped up, the series are in order, the rule only has a later marker, and the new machi is like its source. */
  lemma ToppedUp(st: Store, r: int, now: int, v: int)
    requires JustTheRule(st, r, now)
    requires v in TopUp(st, r, st.rules[r].marker + 1, now).machis && v !in st.machis
    ensures var rule, source, topped := st.rules[r], st.machis[st.rules[r].source], TopUp(st, r, st.rules[r].marker + 1, now);
            && SeriesValid(topped) && topped.systems == st.systems && r in topped.rules
            && topped.rules[r].(marker := rule.marker, attempts := rule.attempts) == rule
            && rule.source in topped.machis && topped.machis[rule.source] == source
            && LikeSource(topped.machis[v], source)
  {
    hide SlotsValid, OccursOn, Attempts, BookEach, MemberStands, RuleInOrder;
    var rule := st.rules[r];
    MarkerIs(st, r);
    GenerateKeepsOrder(st, r, rule.marker + 1, now);
    GenerateKeepsSeries(st, r, rule.marker + 1, now);
    NewLikeSource(st, r, st.machis[rule.source],
                  Attempts(st.systems[rule.agyary], SeriesFrom(rule.pattern, rule.origin), Progress(rule),
                           rule.marker + 1, MAX_GENERATE_MONTHS), now);
  }

  /** The slot of a deleted machi is free again, its geh not yet begun. */
  lemma FreeAgain(st: Store, gone: Store, id: int, source: Machi, now: int)
    requires SlotsValid(st) && id in st.machis && gone.machis == st.machis - {id}
    requires var m := st.machis[id];
             && !Releases(m.status) && 1 <= m.geh <= 5 && (m.date == now / MINUTES_PER_DAY ==> CeremonyTime(m.date, m.geh) > now)
             && source.agyary == m.agyary && source.geh == m.geh && Bucket(source.owner) == Bucket(m.owner)
    ensures source.geh in FreeGehs(gone, source.agyary, st.machis[id].date, source.owner, now)
  {
    hide SlotKeys, KeysRight, CeremonyTime;
    var m := st.machis[id];
    forall k | k in gone.machis
      ensures !HoldsSlot(gone.machis[k], source.agyary, m.date, source.geh, source.owner)
    {
      assert !SameSlot(st.machis[k], m);
    }
  }
}
