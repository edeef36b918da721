/**
 Repeating machis. A rule books its occurrences a few at a time, on demand, carrying on from a marker;
 deleting re-points or ends it. Specified here on values; `Diary` does the same to the tables in place.
 */
module Recurrence {
  import opened Results
  import opened Engine
  import opened RojMahCount
  import opened MemorialSeries
  import opened Slots

  const MAX_GENERATE_MONTHS := 36
  const HORIZON_PERIODS := 3

  // --- Occurrences ---

  function NextParsiMonth(mah: int, year: int): (int, int) {
    if mah >= 12 then (1, year + 1) else (mah + 1, year)
  }

  function NextParsiYear(mah: int, year: int): (int, int) {
    (mah, year + 1)
  }

  function Step(pattern: Pattern, mah: int, year: int): (int, int) {
    if pattern == SameRojMahEveryYear then NextParsiYear(mah, year) else NextParsiMonth(mah, year)
  }

  /** A repeat as a series: its k-th occurrence after the first is slot k. */
  function SeriesFrom(pattern: Pattern, origin: int): Series {
    if pattern == SameRojMahEveryYear then EveryYear(origin) else EveryMah(origin)
  }

  /** Stepping the Mah and year keeps the Roj and moves one slot on. */
  lemma StepIsNextSlot(pattern: Pattern, origin: int, k: int)
    ensures var t, u := Slot(SeriesFrom(pattern, origin), k), Slot(SeriesFrom(pattern, origin), k + 1);
            Step(pattern, IndexMah(t), IndexYear(t)) == (IndexMah(u), IndexYear(u)) && IndexRoj(u) == IndexRoj(t)
  {
    var t := Slot(SeriesFrom(pattern, origin), k);
    IndexOfParts(t);
    var (mah, year) := Step(pattern, IndexMah(t), IndexYear(t));
    IndexParts(year, mah, IndexRoj(t));
  }

  lemma SlotRoj(pattern: Pattern, origin: int, k: nat)
    ensures IndexRoj(Slot(SeriesFrom(pattern, origin), k)) == IndexRoj(origin)
  {
    if k > 0 {
      SlotRoj(pattern, origin, k - 1);
      StepIsNextSlot(pattern, origin, k - 1);
    }
  }

  predicate StandsAt(t: int, roj: int, mah: int, year: int) {
    (roj, mah, year) == (IndexRoj(t), IndexMah(t), IndexYear(t))
  }

  /** The next period's Mah and year give the next occurrence, and its date. */
  lemma NextOccurrence(system: CalendarSystem, pattern: Pattern, origin: int, k: int, roj: int, mah: int, year: int)
    requires StandsAt(Slot(SeriesFrom(pattern, origin), k), roj, mah, year)
    ensures var (m, y) := Step(pattern, mah, year);
            && StandsAt(Slot(SeriesFrom(pattern, origin), k + 1), roj, m, y)
            && ParsiToGregorian(y, system, AskRojMah(m, roj)) == Ok(OccursOn(system, SeriesFrom(pattern, origin), k + 1))
  {
    hide Slot, ParsiToGregorian, DateOf, Step;
    StepIsNextSlot(pattern, origin, k);
    var (m, y) := Step(pattern, mah, year);
    StandsOn(system, SeriesFrom(pattern, origin), k + 1, roj, m, y);
  }

  lemma StandsOn(system: CalendarSystem, s: Series, k: int, roj: int, mah: int, year: int)
    requires StandsAt(Slot(s, k), roj, mah, year)
    ensures ParsiToGregorian(year, system, AskRojMah(mah, roj)) == Ok(OccursOn(system, s, k))
  {
    hide Slot, ParsiToGregorian, DateOf;
    IndexOfParts(Slot(s, k));
    DateOfRojMah(system, year, mah, roj);
  }

  /** The k-th member from a day index on, as Roj, Mah and year. */
  lemma SlotReads(pattern: Pattern, t: int, k: int)
    ensures var u := Slot(SeriesFrom(pattern, t), k);
            && IndexRoj(u) == IndexRoj(t)
            && (pattern == SameRojEveryMah ==>
                  IndexMah(u) == (IndexMah(t) - 1 + k) % 12 + 1 && IndexYear(u) == IndexYear(t) + (IndexMah(t) - 1 + k) / 12)
            && (pattern == SameRojMahEveryYear ==> IndexMah(u) == IndexMah(t) && IndexYear(u) == IndexYear(t) + k)
  {
    IndexOfParts(t);
    var roj, mah, year := IndexRoj(t), IndexMah(t), IndexYear(t);
    if pattern == SameRojEveryMah {
      IndexParts(year + (mah - 1 + k) / 12, (mah - 1 + k) % 12 + 1, roj);
    } else {
      IndexParts(year + k, mah, roj);
    }
  }

  /** The k-th repeat of a day keeps its Roj: each Mah, so many Mahs on; each year, its Mah too, so many years on. */
  lemma OccurrenceReads(system: CalendarSystem, pattern: Pattern, year: int, mah: int, roj: int, k: int)
    requires 1 <= mah <= 12 && 1 <= roj <= 30
    ensures var date := OccursOn(system, SeriesFrom(pattern, Index(year, mah, roj)), k);
            GregorianToParsi(date, system) ==
              if pattern == SameRojEveryMah then RojMah(year + (mah - 1 + k) / 12, (mah - 1 + k) % 12 + 1, roj)
              else RojMah(year + k, mah, roj)
  {
    hide GregorianToParsi, DateOf, Slot;
    ReadsAsIndex(system, Slot(SeriesFrom(pattern, Index(year, mah, roj)), k));
    IndexParts(year, mah, roj);
    SlotReads(pattern, Index(year, mah, roj), k);
  }

  function OccurrenceDate(st: Store, rule: Rule, k: int): int
    requires rule.agyary in st.systems
  {
    OccursOn(st.systems[rule.agyary], SeriesFrom(rule.pattern, rule.origin), k)
  }

  /** The day of the `count`-th occurrence, the first counted; none for a count of one (or none at all). */
  function LastOccurrence(system: CalendarSystem, pattern: Pattern, origin: int, count: Option<int>): Option<int> {
    if count.None? || count.value <= 1 then None
    else Some(OccursOn(system, SeriesFrom(pattern, origin), count.value - 1))
  }

  /**
   The day of the `count`-th occurrence as the program finds it: stepping the Mah and year `count - 1` times
   and converting each, passing over what cannot be converted.
   */
  method StepToLastOccurrence(system: CalendarSystem, pattern: Pattern, roj: int, mah: int, year: int, count: int)
    returns (last: Option<int>)
    requires 1 <= roj <= 30 && 1 <= mah <= 12
    ensures last == LastOccurrence(system, pattern, Index(year, mah, roj), Some(count))
  {
    hide Slot, ParsiToGregorian, OccursOn, SeriesFrom, Step, StandsAt;
    last := None;
    ghost var origin, s := Index(year, mah, roj), SeriesFrom(pattern, Index(year, mah, roj));
    FirstStands(pattern, roj, mah, year);
    var m, y, k := mah, year, 0;
    while k < count - 1
      invariant 0 <= k && (k <= count - 1 || k == 0)
      invariant StandsAt(Slot(s, k), roj, m, y)
      invariant last == if k == 0 then None else Some(OccursOn(system, s, k))
    {
      NextOccurrence(system, pattern, origin, k, roj, m, y);
      var next := Step(pattern, m, y);
      m, y := next.0, next.1;
      var day := ParsiToGregorian(y, system, AskRojMah(m, roj));
      if day.Ok? {
        last := Some(day.value);
      }
      k := k + 1;
    }
  }

  /** What a repeat stores of its count: no end without a count (or with a count of zero), else the stepped last day. */
  method CountRuleFields(system: CalendarSystem, pattern: Pattern, roj: int, mah: int, year: int, count: Option<int>)
    returns (end: Option<int>)
    requires 1 <= roj <= 30 && 1 <= mah <= 12
    ensures end == LastOccurrence(system, pattern, Index(year, mah, roj), count)
  {
    hide OccursOn;
    if count.None? || count.value == 0 {
      return None;
    }
    end := StepToLastOccurrence(system, pattern, roj, mah, year, count.value);
  }

  lemma FirstStands(pattern: Pattern, roj: int, mah: int, year: int)
    requires 1 <= roj <= 30 && 1 <= mah <= 12
    ensures StandsAt(Slot(SeriesFrom(pattern, Index(year, mah, roj)), 0), roj, mah, year)
  {
    IndexParts(year, mah, roj);
  }

  /** Dates one by one until `through` is reached or the cap is. */
  function DatesUntil(dateOf: int -> int, k: int, through: int, cap: nat): (dates: seq<int>)
    ensures |dates| <= cap
    ensures forall i :: 0 <= i < |dates| ==> dates[i] == dateOf(k + 1 + i)
    ensures forall i :: 0 <= i < |dates| - 1 ==> dates[i] < through
    ensures cap > 0 ==> dates != [] && (dates[|dates| - 1] >= through || |dates| == cap)
    decreases cap
  {
    if cap == 0 then []
    else
      var date := dateOf(k + 1);
      if date >= through then [date] else [date] + DatesUntil(dateOf, k + 1, through, cap - 1)
  }

  /** The dates one top-up attempts after occurrence k. */
  function Attempts(system: CalendarSystem, s: Series, k: int, through: int, cap: nat): (dates: seq<int>)
    ensures |dates| <= cap
    ensures forall i :: 0 <= i < |dates| - 1 ==> dates[i] < through
    ensures cap > 0 ==> dates != [] && (dates[|dates| - 1] >= through || |dates| == cap)
  {
    DatesUntil(j => OccursOn(system, s, j), k, through, cap)
  }

  /** They are the next occurrences, one after another. */
  lemma AttemptsAre(system: CalendarSystem, s: Series, k: int, through: int, cap: nat)
    ensures var dates := Attempts(system, s, k, through, cap);
            forall i :: 0 <= i < |dates| ==> dates[i] == OccursOn(system, s, k + 1 + i)
  {
    hide OccursOn;
  }

  /** While the attempts so far are all before `through` and the cap allows, there is one more. */
  lemma {:induction false} AttemptAt(system: CalendarSystem, s: Series, k: int, through: int, cap: nat, i: nat)
    requires i < cap && i <= |Attempts(system, s, k, through, cap)|
    requires i > 0 ==> Attempts(system, s, k, through, cap)[i - 1] < through
    ensures i < |Attempts(system, s, k, through, cap)|
  {
  }

  /** Having reached `through`, or the cap, the attempts are all made. */
  lemma AllAttempted(system: CalendarSystem, s: Series, k: int, through: int, cap: nat, i: nat)
    requires 0 < i <= |Attempts(system, s, k, through, cap)|
    requires i == cap || Attempts(system, s, k, through, cap)[i - 1] >= through
    ensures i == |Attempts(system, s, k, through, cap)|
  {
  }

  // --- Generating ---

  /** Book one occurrence for the rule, if its slot is free. */
  function BookInstance(st: Store, ruleId: int, source: Machi, date: int, now: int): Store
    requires source.agyary in st.systems
  {
    var (after, booked) := Book(st, source.agyary, source.customer, source.geh, date, source.owner, now);
    if booked.Some? && booked.value in after.machis then
      after.(machis := after.machis[booked.value := after.machis[booked.value].(rule := Some(ruleId))])
    else after
  }

  function BookEach(st: Store, ruleId: int, source: Machi, dates: seq<int>, now: int): (r: Store)
    requires source.agyary in st.systems
    ensures r.systems == st.systems && r.rules == st.rules
  {
    if dates == [] then st
    else BookInstance(BookEach(st, ruleId, source, dates[..|dates| - 1], now), ruleId, source, dates[|dates| - 1], now)
  }

  /** The dates of a top-up that could not be booked: somebody else holds the slot, or its time has passed. */
  function SkippedOf(st: Store, ruleId: int, source: Machi, dates: seq<int>, now: int): seq<int>
    requires source.agyary in st.systems
  {
    if dates == [] then []
    else
      var front, date := dates[..|dates| - 1], dates[|dates| - 1];
      var before := BookEach(st, ruleId, source, front, now);
      SkippedOf(st, ruleId, source, front, now)
      + if Taken(before, source, date, now) then [date] else []
  }

  predicate Taken(st: Store, source: Machi, date: int, now: int)
    requires source.agyary in st.systems
  {
    source.geh !in FreeGehs(st, source.agyary, date, source.owner, now)
  }

  /** How far a rule may be generated: no further than asked, nor than its end. */
  function Through(rule: Rule, through: int): int {
    if rule.endDate.Some? && rule.endDate.value < through then rule.endDate.value else through
  }

  /** The occurrence the marker stands on. */
  function Progress(rule: Rule): int {
    |rule.attempts|
  }

  /**
   Attempt what comes after occurrence `k` up to `until`, the cap allowing, as `source` says, and leave the marker
   on the last of it.
   */
  function AttemptFrom(st: Store, ruleId: int, source: Machi, k: int, until: int, now: int): Store
    requires ruleId in st.rules && st.rules[ruleId].agyary in st.systems && source.agyary in st.systems
  {
    var rule := st.rules[ruleId];
    var dates := Attempts(st.systems[rule.agyary], SeriesFrom(rule.pattern, rule.origin), k, until, MAX_GENERATE_MONTHS);
    var booked := BookEach(st, ruleId, source, dates, now);
    booked.(rules := booked.rules[ruleId := rule.(marker := dates[|dates| - 1], attempts := rule.attempts + dates)])
  }

  /** One top-up of a rule: everything after its marker up to `through`, the cap allowing. */
  function Generate(st: Store, ruleId: int, through: int, now: int): Store
    requires ruleId in st.rules && st.rules[ruleId].agyary in st.systems
  {
    var rule := st.rules[ruleId];
    if rule.source !in st.machis || st.machis[rule.source].agyary !in st.systems then
      st.(rules := st.rules[ruleId := rule.(active := false)])
    else if rule.marker >= Through(rule, through) then st
    else AttemptFrom(st, ruleId, st.machis[rule.source], Progress(rule), Through(rule, through), now)
  }

  /** Whether a read up to `through` tops this rule up. */
  predicate Due(rule: Rule, through: int) {
    rule.active && rule.marker < through && (rule.endDate.Some? ==> rule.marker < rule.endDate.value)
  }

  function TopUp(st: Store, ruleId: int, through: int, now: int): Store {
    if ruleId in st.rules && st.rules[ruleId].agyary in st.systems && Due(st.rules[ruleId], through) then
      Generate(st, ruleId, through, now)
    else st
  }

  /** A top-up that read its marker on occurrence `k` has something to do. */
  predicate HasMore(st: Store, ruleId: int, k: int, through: int) {
    ruleId in st.rules && st.rules[ruleId].agyary in st.systems
    && OccurrenceDate(st, st.rules[ruleId], k) < Through(st.rules[ruleId], through)
  }

  /**
   A top-up that overlaps other steps: its marker (occurrence `k`) and its source were read earlier, and what
   happened since it does not see. Its bookings meet the slots as they stand; its marker overwrites the rule's.
   */
  function StaleTopUp(st: Store, ruleId: int, source: Machi, k: int, through: int, now: int): Store {
    if HasMore(st, ruleId, k, through) && source.agyary in st.systems then
      AttemptFrom(st, ruleId, source, k, Through(st.rules[ruleId], through), now)
    else st
  }

  /** A machi given its rule, with nothing booked for it yet. */
  function Begun(st: Store, id: int, pattern: Pattern, count: Option<int>): Store
    requires id in st.machis && st.machis[id].agyary in st.systems
  {
    var m := st.machis[id];
    var origin := Index(m.year, m.mah, m.roj);
    var rule := Rule(m.agyary, id, pattern, LastOccurrence(st.systems[m.agyary], pattern, origin, count), count,
                     m.date, true, origin, []);
    st.(rules := st.rules[st.nextId := rule], nextId := st.nextId + 1,
        machis := st.machis[id := m.(rule := Some(st.nextId))])
  }

  /** Starting a repeat from a machi that has none, not on a Gatha day. */
  function StartSeries(st: Store, id: int, pattern: Pattern, count: Option<int>, now: int): Store {
    if id !in st.machis || st.machis[id].agyary !in st.systems || st.machis[id].rule.Some? || st.machis[id].mah > 12 then st
    else
      var m := st.machis[id];
      var s := SeriesFrom(pattern, Index(m.year, m.mah, m.roj));
      Generate(Begun(st, id, pattern, count), st.nextId, OccursOn(st.systems[m.agyary], s, HORIZON_PERIODS), now)
  }

  // --- Deleting ---

  datatype Deletion = NotFound | Blocked | Deleted

  function Siblings(st: Store, ruleId: int): set<int> {
    set id | id in st.machis && st.machis[id].rule == Some(ruleId)
  }

  /** The machis a delete takes: this one, or it and every later one of its repeat. */
  function Victims(st: Store, id: int, future: bool): set<int>
    requires id in st.machis
  {
    var m := st.machis[id];
    if m.rule.Some? && future then set k | k in Siblings(st, m.rule.value) && st.machis[k].date >= m.date else {id}
  }

  predicate IsEarliest(st: Store, ids: set<int>, id: int) {
    id in ids && ids <= st.machis.Keys && forall k :: k in ids ==> st.machis[id].date <= st.machis[k].date
  }

  /**
   Deleting, given the earliest survivor to re-point the rule to. Refused whole when a victim has a
   recorded payment.
   */
  function Delete(st: Store, id: int, future: bool, paid: set<int>, heir: int): Store {
    if id !in st.machis then st
    else
      var victims := Victims(st, id, future);
      if exists v :: v in victims && v in paid then st
      else
        var kept := st.machis - victims;
        var link := st.machis[id].rule;
        if link.None? || link.value !in st.rules then st.(machis := kept)
        else
          var ruleId := link.value;
          var rule := st.rules[ruleId];
          var stopped := rule.(active := rule.active && !future);
          if rule.source !in victims then st.(machis := kept, rules := st.rules[ruleId := stopped])
          else if Siblings(st, ruleId) <= victims then st.(machis := kept, rules := st.rules - {ruleId})
          else st.(machis := kept, rules := st.rules[ruleId := stopped.(source := heir)])
  }

  predicate ProperHeir(st: Store, id: int, future: bool, heir: int) {
    id in st.machis && st.machis[id].rule.Some? ==>
      var siblings, victims := Siblings(st, st.machis[id].rule.value), Victims(st, id, future);
      !(siblings <= victims) ==> IsEarliest(st, siblings - victims, heir)
  }
}
