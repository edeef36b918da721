/**
 Repeating events. An event before sunrise belongs to the Parsi day before, so a repeat is worked out on
 that earlier day and put back a day later at the same clock time. An event holds no exclusive slot and
 its generator never skips: all that was ever made of a series, deleted or not, is exactly its occurrences
 so far, each once and in order. A deleted row or rule is kept here, marked as gone, as history.
 */
module EventSeries {
  import opened Results
  import opened Engine
  import opened RojMahCount
  import opened MemorialSeries
  import opened Slots
  import opened Recurrence
  import opened RecurrenceRuns

  /** What an event carries and every repeat of it carries too. */
  datatype Details = Details(purpose: string, names: seq<string>, place: Option<string>, offsite: bool)

  /** `at` is the local time in minutes from midnight of day 0. */
  datatype Event = Event(
    agyary: int, customer: int, service: int, owner: Option<int>, at: int, details: Details, amount: Option<int>,
    roj: int, mah: int, year: int, rule: Option<int>, deleted: bool)

  datatype Calendar = Calendar(systems: map<int, CalendarSystem>, events: seq<Event>, rules: seq<Rule>, gone: set<int>)

  function Day(at: int): int {
    at / MINUTES_PER_DAY
  }

  function Clock(at: int): int {
    at % MINUTES_PER_DAY
  }

  function Shift(at: int): int {
    if Clock(at) < GehStart(1) then 1 else 0
  }

  /** The Parsi day an event is stored under: the day before, when it is before sunrise. */
  function BookingParsiAnchor(system: CalendarSystem, at: int): (int, int, int) {
    SlotKeys(system, Day(at) - Shift(at))
  }

  /** The day a series is worked out on, its time of day, and how many days later it falls. */
  function BookingSeriesAnchor(at: int): (int, int, int) {
    (Day(at) - Shift(at), Clock(at), Shift(at))
  }

  function NewEvent(system: CalendarSystem, agyary: int, customer: int, service: int, owner: Option<int>, at: int,
                    details: Details, amount: Option<int>): Event
  {
    var (roj, mah, year) := BookingParsiAnchor(system, at);
    Event(agyary, customer, service, owner, at, details, amount, roj, mah, year, None, false)
  }

  /** The time a repeat worked out on `date` is put at. */
  function PutBack(source: Event, date: int): int {
    var (_, clock, shift) := BookingSeriesAnchor(source.at);
    MINUTES_PER_DAY * (date + shift) + clock
  }

  /** A repeat is the source again on another day, its amount not copied. */
  function Repeat(system: CalendarSystem, source: Event, ruleId: int, date: int): Event {
    NewEvent(system, source.agyary, source.customer, source.service, source.owner, PutBack(source, date), source.details, None)
      .(rule := Some(ruleId))
  }

  function Repeats(system: CalendarSystem, source: Event, ruleId: int, dates: seq<int>): (r: seq<Event>)
    ensures |r| == |dates|
    ensures forall i :: 0 <= i < |dates| ==> r[i] == Repeat(system, source, ruleId, dates[i])
  {
    if dates == [] then []
    else Repeats(system, source, ruleId, dates[..|dates| - 1]) + [Repeat(system, source, ruleId, dates[|dates| - 1])]
  }

  lemma NoRepeats(system: CalendarSystem, source: Event, ruleId: int)
    ensures Repeats(system, source, ruleId, []) == []
  {
  }

  lemma OneMoreRepeat(system: CalendarSystem, source: Event, ruleId: int, dates: seq<int>, date: int)
    ensures Repeats(system, source, ruleId, dates + [date]) == Repeats(system, source, ruleId, dates) + [Repeat(system, source, ruleId, date)]
  {
    hide Repeat;
    assert (dates + [date])[..|dates|] == dates;
  }

  /** The shift round-trips: put back, an event reads as the day it was worked out on, at the same time of day. */
  lemma ShiftRoundTrips(system: CalendarSystem, source: Event, date: int)
    ensures BookingSeriesAnchor(PutBack(source, date)) == (date, Clock(source.at), Shift(source.at))
    ensures BookingParsiAnchor(system, PutBack(source, date)) == SlotKeys(system, date)
    ensures PutBack(source, BookingSeriesAnchor(source.at).0) == source.at
  {
    hide SlotKeys;
    var (_, clock, shift) := BookingSeriesAnchor(source.at);
    assert Day(PutBack(source, date)) == date + shift;
  }

  /** The same but for its day, its amount and whether it is deleted. */
  predicate Alike(source: Event, e: Event) {
    && e.agyary == source.agyary && e.customer == source.customer && e.service == source.service
    && e.owner == source.owner && e.details == source.details && e.rule == source.rule
  }

  /** The event is the occurrence of day index `t`: stored under its Roj, Mah and year, at the series' own time of day. */
  ghost predicate IsOccurrence(system: CalendarSystem, source: Event, e: Event, t: int) {
    && (e.roj, e.mah, e.year) == (IndexRoj(t), IndexMah(t), IndexYear(t))
    && BookingSeriesAnchor(e.at) == (DateOf(system, t), Clock(source.at), Shift(source.at))
    && Alike(source, e)
  }

  /** A repeat made for an occurrence's date stores that occurrence. */
  lemma RepeatIsOccurrence(system: CalendarSystem, source: Event, ruleId: int, t: int)
    requires source.rule == Some(ruleId)
    ensures IsOccurrence(system, source, Repeat(system, source, ruleId, DateOf(system, t)), t)
    ensures Repeat(system, source, ruleId, DateOf(system, t)).amount == None
    ensures !Repeat(system, source, ruleId, DateOf(system, t)).deleted
  {
    hide SlotKeys, DateOf, GregorianToParsi;
    ShiftRoundTrips(system, source, DateOf(system, t));
    KeysOfIndex(system, t);
  }

  lemma KeysOfIndex(system: CalendarSystem, t: int)
    ensures SlotKeys(system, DateOf(system, t)) == (IndexRoj(t), IndexMah(t), IndexYear(t))
  {
    hide DateOf, GregorianToParsi;
    ReadsAsIndex(system, t);
  }

  /** Every member of a series is as good a source as the first. */
  lemma AnySourceWillDo(system: CalendarSystem, first: Event, source: Event, t0: int, e: Event, t: int)
    requires IsOccurrence(system, first, source, t0) && IsOccurrence(system, source, e, t)
    ensures IsOccurrence(system, first, e, t)
  {
    hide DateOf;
  }

  // --- Series among the events ---

  /** The events of a series, deleted ones too, in the order they were made. */
  ghost function SeriesOf(events: seq<Event>, ruleId: int): seq<Event> {
    if events == [] then []
    else
      var last := events[|events| - 1];
      SeriesOf(events[..|events| - 1], ruleId) + if last.rule == Some(ruleId) then [last] else []
  }

  lemma SeriesOneMore(events: seq<Event>, e: Event, ruleId: int)
    ensures SeriesOf(events + [e], ruleId) == if e.rule == Some(ruleId) then SeriesOf(events, ruleId) + [e] else SeriesOf(events, ruleId)
  {
    assert (events + [e])[..|events|] == events;
  }

  lemma {:induction false} SeriesOfAppend(a: seq<Event>, b: seq<Event>, ruleId: int)
    ensures SeriesOf(a + b, ruleId) == SeriesOf(a, ruleId) + SeriesOf(b, ruleId)
  {
    if b == [] {
      assert a + b == a;
    } else {
      SeriesOfAppend(a, b[..|b| - 1], ruleId);
      assert (a + b)[..|a + b| - 1] == a + b[..|b| - 1];
    }
  }

  lemma {:induction false} SeriesOfUniform(events: seq<Event>, link: Option<int>, ruleId: int)
    requires forall i :: 0 <= i < |events| ==> events[i].rule == link
    ensures SeriesOf(events, ruleId) == if link == Some(ruleId) then events else []
  {
    if events != [] {
      SeriesOfUniform(events[..|events| - 1], link, ruleId);
      assert events[..|events| - 1] + [events[|events| - 1]] == events;
    }
  }

  lemma {:induction false} SeriesOfNobody(events: seq<Event>, ruleId: int)
    requires forall i :: 0 <= i < |events| ==> events[i].rule != Some(ruleId)
    ensures SeriesOf(events, ruleId) == []
  {
    if events != [] {
      SeriesOfNobody(events[..|events| - 1], ruleId);
    }
  }

  /** An event's place in its series is how many of the series come before it. */
  lemma PlaceInSeries(events: seq<Event>, i: nat, ruleId: int)
    requires i < |events| && events[i].rule == Some(ruleId)
    ensures var place := |SeriesOf(events[..i], ruleId)|;
            place < |SeriesOf(events, ruleId)| && SeriesOf(events, ruleId)[place] == events[i]
    ensures |SeriesOf(events[..i + 1], ruleId)| == |SeriesOf(events[..i], ruleId)| + 1
  {
    hide SeriesOf;
    assert events[..i + 1] == events[..i] + [events[i]];
    SeriesOneMore(events[..i], events[i], ruleId);
    SeriesOfAppend(events[..i + 1], events[i + 1..], ruleId);
    assert events[..i + 1] + events[i + 1..] == events;
  }

  lemma PlacesInOrder(events: seq<Event>, i: nat, j: nat, ruleId: int)
    requires i < j < |events| && events[i].rule == Some(ruleId) == events[j].rule
    ensures |SeriesOf(events[..i], ruleId)| < |SeriesOf(events[..j], ruleId)|
  {
    hide SeriesOf;
    PlaceInSeries(events, i, ruleId);
    SeriesOfAppend(events[..i + 1], events[i + 1..j], ruleId);
    assert events[..i + 1] + events[i + 1..j] == events[..j];
  }

  // --- What is always so ---

  ghost function StoreOf(d: Calendar): Store {
    Store(d.systems, map[], map[], 0)
  }

  /** A row is stored under its own day, and a row that is left has a rule that is left, if it has one. */
  ghost predicate EventRight(d: Calendar, e: Event) {
    && e.agyary in d.systems
    && (e.roj, e.mah, e.year) == BookingParsiAnchor(d.systems[e.agyary], e.at)
    && (e.rule.Some? ==> 0 <= e.rule.value < |d.rules| && (!e.deleted ==> e.rule.value !in d.gone))
  }

  /** A rule that is left has a source that is left, of its own series. */
  ghost predicate SourceLives(d: Calendar, r: int, rule: Rule) {
    && 0 <= rule.source < |d.events| && !d.events[rule.source].deleted
    && d.events[rule.source].rule == Some(r)
  }

  /** A rule and all that was ever made of it: its first event and then one for each occurrence attempted. */
  ghost predicate SeriesRight(d: Calendar, r: int, rule: Rule) {
    && RuleInOrder(StoreOf(d), rule)
    && (r !in d.gone ==> SourceLives(d, r, rule))
    && var members := SeriesOf(d.events, r);
      && |members| == |rule.attempts| + 1 && members[0].agyary == rule.agyary && members[0].rule == Some(r)
      && forall k :: 0 <= k < |members| ==>
           IsOccurrence(d.systems[rule.agyary], members[0], members[k], Slot(SeriesFrom(rule.pattern, rule.origin), k))
  }

  ghost predicate DiaryRight(d: Calendar) {
    && (forall i :: 0 <= i < |d.events| ==> EventRight(d, d.events[i]))
    && (forall r :: 0 <= r < |d.rules| ==> SeriesRight(d, r, d.rules[r]))
  }

  lemma AllRight(d: Calendar)
    requires forall i :: 0 <= i < |d.events| ==> EventRight(d, d.events[i])
    requires forall r :: 0 <= r < |d.rules| ==> SeriesRight(d, r, d.rules[r])
    ensures DiaryRight(d)
  {
  }

  lemma EventStands(d: Calendar, i: int)
    requires DiaryRight(d) && 0 <= i < |d.events|
    ensures EventRight(d, d.events[i])
  {
  }

  lemma SeriesStands(d: Calendar, r: int)
    requires DiaryRight(d) && 0 <= r < |d.rules|
    ensures SeriesRight(d, r, d.rules[r])
    ensures RuleInOrder(StoreOf(d), d.rules[r]) && d.rules[r].agyary in d.systems
    ensures r !in d.gone ==> SourceLives(d, r, d.rules[r])
  {
    hide OccursOn, SeriesOf, IsOccurrence;
  }

  /** Any event of a series, deleted or not, is one of its occurrences, told by its place. */
  lemma MemberIs(d: Calendar, r: int, i: nat)
    requires 0 <= r < |d.rules| && SeriesRight(d, r, d.rules[r]) && d.rules[r].agyary in d.systems
    requires i < |d.events| && d.events[i].rule == Some(r)
    ensures var rule, k := d.rules[r], |SeriesOf(d.events[..i], r)|;
            && k <= |rule.attempts|
            && IsOccurrence(d.systems[rule.agyary], SeriesOf(d.events, r)[0], d.events[i], Slot(SeriesFrom(rule.pattern, rule.origin), k))
  {
    hide RuleInOrder, SourceLives, IsOccurrence, SeriesOf, Slot;
    PlaceInSeries(d.events, i, r);
  }

  /** An event is stored as given, under the Roj, Mah and year of its day, or before 7 in the morning of the day before. */
  lemma StoredBySunrise(system: CalendarSystem, agyary: int, customer: int, service: int, owner: Option<int>, at: int,
                        details: Details, amount: Option<int>)
    ensures var e := NewEvent(system, agyary, customer, service, owner, at, details, amount);
            && e.(roj := 0, mah := 0, year := 0) ==
                 Event(agyary, customer, service, owner, at, details, amount, 0, 0, 0, None, false)
            && match GregorianToParsi(if at % 1440 < 7 * 60 then at / 1440 - 1 else at / 1440, system)
               case RojMah(year, mah, roj) => e.roj == roj && e.mah == mah && e.year == year
               case Gatha(year, index) => e.roj == index && e.mah == 13 && e.year == year
  {
    hide GregorianToParsi;
  }

  /**
   An event of a series is its first event again, at the same time of day: as many Mahs on the same Roj, or years on the
   same Roj and Mah, as there are events of the series before it.
   */
  lemma RepeatReads(d: Calendar, r: int, i: nat)
    requires DiaryRight(d) && 0 <= r < |d.rules| && i < |d.events| && d.events[i].rule == Some(r)
    ensures SeriesOf(d.events, r) != []
    ensures var first, e, k := SeriesOf(d.events, r)[0], d.events[i], |SeriesOf(d.events[..i], r)|;
            && e.at % 1440 == first.at % 1440
            && e.agyary == first.agyary && e.customer == first.customer && e.service == first.service && e.owner == first.owner
            && e.details == first.details && e.rule == first.rule && e.roj == first.roj
            && (d.rules[r].pattern == SameRojEveryMah ==>
                  e.mah == (first.mah - 1 + k) % 12 + 1 && e.year == first.year + (first.mah - 1 + k) / 12)
            && (d.rules[r].pattern == SameRojMahEveryYear ==> e.mah == first.mah && e.year == first.year + k)
  {
    hide DiaryRight, RuleInOrder, SourceLives, SeriesOf, Slot, DateOf;
    SeriesStands(d, r);
    MemberIs(d, r, i);
    var rule, k := d.rules[r], |SeriesOf(d.events[..i], r)|;
    SlotReads(rule.pattern, rule.origin, 0);
    SlotReads(rule.pattern, rule.origin, k);
    assert |SeriesOf(d.events, r)| > 0;
    assert IsOccurrence(d.systems[rule.agyary], SeriesOf(d.events, r)[0], SeriesOf(d.events, r)[0], Slot(SeriesFrom(rule.pattern, rule.origin), 0));
    IndexOfParts(rule.origin);
  }

  /** A counted repeat of two or more never has more events made than its count, its first among them. */
  lemma NeverPastItsCount(d: Calendar, r: int)
    requires DiaryRight(d) && 0 <= r < |d.rules|
    requires d.rules[r].endCount.Some? && d.rules[r].endCount.value >= 2
    ensures |SeriesOf(d.events, r)| <= d.rules[r].endCount.value
  {
    hide OccursOn, DateOf, SlotKeys;
    assert SeriesRight(d, r, d.rules[r]);
  }

  /**
   Of two events of a series, the one made later falls later. So no two, deleted ones among them, ever fall
   on one occurrence: what was deleted is never made again.
   */
  lemma EachOccurrenceOnce(d: Calendar, r: int, i: nat, j: nat)
    requires DiaryRight(d) && 0 <= r < |d.rules|
    requires i < j < |d.events| && d.events[i].rule == Some(r) == d.events[j].rule
    ensures d.events[i].at < d.events[j].at
  {
    hide DateOf, SlotKeys, Slot, RuleInOrder, SeriesOf, DiaryRight;
    SeriesStands(d, r);
    var rule := d.rules[r];
    var system, s := d.systems[rule.agyary], SeriesFrom(rule.pattern, rule.origin);
    MemberIs(d, r, i);
    MemberIs(d, r, j);
    PlacesInOrder(d.events, i, j, r);
    OccursInOrder(system, s, |SeriesOf(d.events[..i], r)|, |SeriesOf(d.events[..j], r)|);
  }

  /** Every rule that is left has its source, and every event that is left a rule that is left, if it has one. */
  lemma NothingDangles(d: Calendar)
    requires DiaryRight(d)
    ensures forall r :: 0 <= r < |d.rules| && r !in d.gone ==> SourceLives(d, r, d.rules[r])
    ensures forall i :: 0 <= i < |d.events| && !d.events[i].deleted && d.events[i].rule.Some? ==>
              0 <= d.events[i].rule.value < |d.rules| && d.events[i].rule.value !in d.gone
  {
    hide SourceLives, SlotKeys, SeriesOf;
    forall r | 0 <= r < |d.rules| && r !in d.gone
      ensures SourceLives(d, r, d.rules[r])
    {
      SeriesStands(d, r);
    }
    forall i | 0 <= i < |d.events| && !d.events[i].deleted && d.events[i].rule.Some?
      ensures 0 <= d.events[i].rule.value < |d.rules| && d.events[i].rule.value !in d.gone
    {
      EventStands(d, i);
    }
  }

  // --- Making events ---

  lemma OneOffKeepsDiary(d: Calendar, e: Event)
    requires DiaryRight(d) && EventRight(d, e) && e.rule.None?
    ensures DiaryRight(d.(events := d.events + [e]))
  {
    hide SlotKeys, RuleInOrder, IsOccurrence, Slot, SeriesOf, DiaryRight;
    var after := d.(events := d.events + [e]);
    forall i | 0 <= i < |after.events|
      ensures EventRight(after, after.events[i])
    {
      if i < |d.events| {
        EventStands(d, i);
      }
    }
    forall r | 0 <= r < |d.rules|
      ensures SeriesRight(after, r, d.rules[r])
    {
      SeriesStands(d, r);
      SeriesOneMore(d.events, e, r);
    }
    AllRight(after);
  }

  lemma {:induction false} LinkingMakesASeries(events: seq<Event>, id: int, ruleId: int, r: int)
    requires 0 <= id < |events| && events[id].rule.None?
    ensures var linked := events[id].(rule := Some(ruleId));
            && (r != ruleId ==> SeriesOf(events[id := linked], r) == SeriesOf(events, r))
            && ((forall i :: 0 <= i < |events| ==> events[i].rule != Some(ruleId)) ==>
                 SeriesOf(events[id := linked], ruleId) == [linked])
  {
    var linked := events[id].(rule := Some(ruleId));
    var front := events[..|events| - 1];
    if id == |events| - 1 {
      assert events[id := linked][..|events| - 1] == front;
      if forall i :: 0 <= i < |events| ==> events[i].rule != Some(ruleId) {
        SeriesOfNobody(front, ruleId);
      }
    } else {
      LinkingMakesASeries(front, id, ruleId, r);
      assert events[id := linked][..|events| - 1] == front[id := linked];
    }
  }

  /** The calendar with a repeat started from event `id`. */
  function Linked(d: Calendar, id: int, rule: Rule): Calendar
    requires 0 <= id < |d.events|
  {
    d.(events := d.events[id := d.events[id].(rule := Some(|d.rules|))], rules := d.rules + [rule])
  }

  lemma StartKeepsDiary(d: Calendar, id: int, rule: Rule)
    requires DiaryRight(d) && 0 <= id < |d.events| && |d.rules| !in d.gone
    requires var e := d.events[id];
             && !e.deleted && e.rule.None? && e.mah <= 12 && rule.agyary == e.agyary && rule.source == id && e.agyary in d.systems
             && rule.origin == Index(e.year, e.mah, e.roj) && rule.attempts == []
             && rule.marker == BookingSeriesAnchor(e.at).0
             && rule.endDate == LastOccurrence(d.systems[e.agyary], rule.pattern, rule.origin, rule.endCount)
    ensures DiaryRight(Linked(d, id, rule))
  {
    hide SlotKeys, SeriesOf, DateOf, DiaryRight;
    var e, after := d.events[id], Linked(d, id, rule);
    EventStands(d, id);
    SourceOnItsDay(d.systems, e);
    forall i | 0 <= i < |after.events|
      ensures EventRight(after, after.events[i])
      ensures d.events[i].rule != Some(|d.rules|)
    {
      EventStands(d, i);
    }
    forall r | 0 <= r < |after.rules|
      ensures SeriesRight(after, r, after.rules[r])
    {
      LinkingMakesASeries(d.events, id, |d.rules|, r);
      if r < |d.rules| {
        SeriesStands(d, r);
        OldSeriesStays(d, after, r);
      } else {
        NewSeries(d, after, id, rule);
      }
    }
    AllRight(after);
  }

  /** A series keeps standing when its own events, its rule and its source stay. */
  lemma OldSeriesStays(d: Calendar, after: Calendar, r: int)
    requires 0 <= r < |d.rules| && SeriesRight(d, r, d.rules[r])
    requires after.systems == d.systems && |after.events| >= |d.events|
    requires forall i :: 0 <= i < |d.events| && d.events[i].rule == Some(r) ==> after.events[i] == d.events[i]
    requires SeriesOf(after.events, r) == SeriesOf(d.events, r) && (r in after.gone <==> r in d.gone)
    ensures SeriesRight(after, r, d.rules[r])
  {
    hide RuleInOrder, IsOccurrence, SeriesOf, Slot;
    SameOrder(d, after, d.rules[r]);
  }

  lemma SameOrder(d: Calendar, after: Calendar, rule: Rule)
    requires RuleInOrder(StoreOf(d), rule) && after.systems == d.systems
    ensures RuleInOrder(StoreOf(after), rule) && rule.agyary in d.systems
  {
    hide OccursOn;
  }

  lemma NewSeries(d: Calendar, after: Calendar, id: int, rule: Rule)
    requires 0 <= id < |d.events| && after == Linked(d, id, rule) && |d.rules| !in d.gone
    requires var e := d.events[id];
             && !e.deleted && rule.agyary == e.agyary && rule.source == id && e.agyary in d.systems
             && 1 <= e.mah <= 12 && 1 <= e.roj <= 30
             && rule.origin == Index(e.year, e.mah, e.roj) && rule.attempts == []
             && rule.marker == BookingSeriesAnchor(e.at).0 == DateOf(d.systems[e.agyary], rule.origin)
             && rule.endDate == LastOccurrence(d.systems[e.agyary], rule.pattern, rule.origin, rule.endCount)
    requires SeriesOf(after.events, |d.rules|) == [d.events[id].(rule := Some(|d.rules|))]
    ensures SeriesRight(after, |d.rules|, rule)
  {
    hide SlotKeys, SeriesOf, DateOf;
    var e := d.events[id];
    assert Slot(SeriesFrom(rule.pattern, rule.origin), 0) == rule.origin;
    IndexParts(e.year, e.mah, e.roj);
  }

  /** An event not on a Gatha day is worked out on the date of its own Roj and Mah. */
  lemma SourceOnItsDay(systems: map<int, CalendarSystem>, e: Event)
    requires e.agyary in systems && e.mah <= 12
    requires (e.roj, e.mah, e.year) == BookingParsiAnchor(systems[e.agyary], e.at)
    ensures BookingSeriesAnchor(e.at).0 == DateOf(systems[e.agyary], Index(e.year, e.mah, e.roj))
    ensures 1 <= e.mah <= 12 && 1 <= e.roj <= 30
  {
    hide GregorianToParsi, ParsiToGregorian, DateOf;
    var system, day := systems[e.agyary], BookingSeriesAnchor(e.at).0;
    GregorianRoundTrip(day, system);
    ReadsBack(day, system);
    DateOfRojMah(system, e.year, e.mah, e.roj);
  }

  // --- Topping up ---

  function Topped(rule: Rule, dates: seq<int>): Rule
    requires dates != []
  {
    rule.(marker := dates[|dates| - 1], attempts := rule.attempts + dates)
  }

  /** A top-up keeps the rule's own books. */
  lemma TopUpKeepsBooks(d: Calendar, rule: Rule, until: int)
    requires RuleInOrder(StoreOf(d), rule) && rule.agyary in d.systems
    requires rule.marker < until && (rule.endDate.Some? ==> until <= rule.endDate.value)
    ensures var dates := Attempts(d.systems[rule.agyary], SeriesFrom(rule.pattern, rule.origin), |rule.attempts|, until, MAX_GENERATE_MONTHS);
            dates != [] && RuleInOrder(StoreOf(d), Topped(rule, dates))
  {
    hide OccursOn, Attempts;
    AttemptsAre(d.systems[rule.agyary], SeriesFrom(rule.pattern, rule.origin), |rule.attempts|, until, MAX_GENERATE_MONTHS);
    if rule.endDate.Some? {
      AttemptsWithinCount(d.systems[rule.agyary], SeriesFrom(rule.pattern, rule.origin), |rule.attempts|, rule.endCount.value - 1,
                          until, MAX_GENERATE_MONTHS);
    }
  }

  /** The calendar with the repeats of a top-up made and the rule's marker moved on. */
  function ToppedUp(d: Calendar, r: int, dates: seq<int>): Calendar
    requires 0 <= r < |d.rules| && dates != [] && d.rules[r].agyary in d.systems && 0 <= d.rules[r].source < |d.events|
  {
    var rule := d.rules[r];
    d.(events := d.events + Repeats(d.systems[rule.agyary], d.events[rule.source], r, dates), rules := d.rules[r := Topped(rule, dates)])
  }

  lemma TopUpKeepsDiary(d: Calendar, r: int, until: int)
    requires DiaryRight(d) && 0 <= r < |d.rules| && r !in d.gone
    requires var rule := d.rules[r];
             && rule.marker < until && (rule.endDate.Some? ==> until <= rule.endDate.value)
    ensures d.rules[r].agyary in d.systems && 0 <= d.rules[r].source < |d.events|
    ensures var rule := d.rules[r];
            var dates := Attempts(d.systems[rule.agyary], SeriesFrom(rule.pattern, rule.origin), |rule.attempts|, until, MAX_GENERATE_MONTHS);
            dates != [] && DiaryRight(ToppedUp(d, r, dates))
  {
    hide DiaryRight, SeriesRight, EventRight, Attempts, Repeats, SeriesFrom, RuleInOrder, SeriesOf;
    var rule := d.rules[r];
    SeriesStands(d, r);
    var dates := Attempts(d.systems[rule.agyary], SeriesFrom(rule.pattern, rule.origin), |rule.attempts|, until, MAX_GENERATE_MONTHS);
    TopUpKeepsBooks(d, rule, until);
    var after := ToppedUp(d, r, dates);
    var made := Repeats(d.systems[rule.agyary], d.events[rule.source], r, dates);
    assert forall i :: 0 <= i < |made| ==> made[i].rule == Some(r) by { RepeatsOf(d.systems[rule.agyary], d.events[rule.source], r, dates); }
    forall i | 0 <= i < |after.events|
      ensures EventRight(after, after.events[i])
    {
      if i < |d.events| {
        EventStands(d, i);
        SameEventRight(d, after, d.events[i]);
      } else {
        SourceOfTemple(d, r);
        MadeEventRight(after, d.events[rule.source], r, dates, made, i - |d.events|);
      }
    }
    forall q | 0 <= q < |after.rules|
      ensures SeriesRight(after, q, after.rules[q])
    {
      SeriesStands(d, q);
      if q == r {
        ToppedSeries(d, r, dates, after, made);
      } else {
        SeriesOfAppend(d.events, made, q);
        SeriesOfUniform(made, Some(r), q);
        assert SeriesOf(d.events, q) + [] == SeriesOf(d.events, q);
        OldSeriesStays(d, after, q);
      }
    }
    AllRight(after);
  }

  lemma SourceOfTemple(d: Calendar, r: int)
    requires 0 <= r < |d.rules| && SeriesRight(d, r, d.rules[r]) && r !in d.gone && d.rules[r].agyary in d.systems
    ensures d.events[d.rules[r].source].agyary == d.rules[r].agyary
  {
    hide RuleInOrder, SeriesOf, Slot;
    MemberIs(d, r, d.rules[r].source);
  }

  lemma ToppedSeries(d: Calendar, r: int, dates: seq<int>, after: Calendar, made: seq<Event>)
    requires 0 <= r < |d.rules| && SeriesRight(d, r, d.rules[r]) && r !in d.gone && dates != []
    requires d.rules[r].agyary in d.systems && 0 <= d.rules[r].source < |d.events|
    requires RuleInOrder(StoreOf(d), Topped(d.rules[r], dates)) && after == ToppedUp(d, r, dates)
    requires made == Repeats(d.systems[d.rules[r].agyary], d.events[d.rules[r].source], r, dates)
    ensures SeriesRight(after, r, Topped(d.rules[r], dates))
  {
    hide RuleInOrder, SeriesOf, IsOccurrence, Slot, OccursOn, Repeat;
    var rule, topped := d.rules[r], Topped(d.rules[r], dates);
    var system, s, n, source := d.systems[rule.agyary], SeriesFrom(rule.pattern, rule.origin), |rule.attempts|, d.events[rule.source];
    var members := SeriesOf(d.events, r);
    SameOrder(d, after, topped);
    SeriesOfAppend(d.events, made, r);
    assert forall i :: 0 <= i < |made| ==> made[i].rule == Some(r) by { RepeatsOf(system, source, r, dates); }
    SeriesOfUniform(made, Some(r), r);
    assert SeriesOf(after.events, r) == members + made;
    MemberIs(d, r, rule.source);
    forall k | n < k < n + 1 + |dates|
      ensures IsOccurrence(system, members[0], made[k - n - 1], Slot(s, k))
    {
      AttemptDated(d, topped, k);
      assert topped.attempts[k - 1] == dates[k - n - 1];
      DatedOccurrence(system, source, r, s, k);
      AnySourceWillDo(system, members[0], source, Slot(s, |SeriesOf(d.events[..rule.source], r)|), made[k - n - 1], Slot(s, k));
    }
  }

  lemma AttemptDated(d: Calendar, rule: Rule, k: int)
    requires RuleInOrder(StoreOf(d), rule) && 0 < k <= |rule.attempts|
    ensures rule.agyary in d.systems && rule.attempts[k - 1] == OccursOn(d.systems[rule.agyary], SeriesFrom(rule.pattern, rule.origin), k)
  {
    hide OccursOn;
  }

  lemma RepeatsOf(system: CalendarSystem, source: Event, ruleId: int, dates: seq<int>)
    ensures forall e :: e in Repeats(system, source, ruleId, dates) ==> e.rule == Some(ruleId) && !e.deleted
  {
    hide SlotKeys;
  }

  lemma SameEventRight(d: Calendar, after: Calendar, e: Event)
    requires EventRight(d, e) && after.systems == d.systems && |after.rules| >= |d.rules| && after.gone == d.gone
    ensures EventRight(after, e)
  {
    hide BookingParsiAnchor;
  }

  lemma DatedOccurrence(system: CalendarSystem, source: Event, ruleId: int, s: Series, k: int)
    requires source.rule == Some(ruleId)
    ensures IsOccurrence(system, source, Repeat(system, source, ruleId, OccursOn(system, s, k)), Slot(s, k))
  {
    RepeatIsOccurrence(system, source, ruleId, Slot(s, k));
  }

  lemma MadeEventRight(d: Calendar, source: Event, ruleId: int, dates: seq<int>, made: seq<Event>, i: nat)
    requires source.agyary in d.systems && 0 <= ruleId < |d.rules| && ruleId !in d.gone
    requires made == Repeats(d.systems[source.agyary], source, ruleId, dates) && i < |made|
    ensures EventRight(d, made[i])
  {
    hide SlotKeys;
  }

  /** A rule's marker reads back as the slot it stands on, under its source's own Roj. */
  lemma MarkerStands(d: Calendar, r: int)
    requires 0 <= r < |d.rules| && SeriesRight(d, r, d.rules[r]) && r !in d.gone && d.rules[r].agyary in d.systems
    ensures SourceLives(d, r, d.rules[r])
    ensures var rule := d.rules[r];
            var (_, mah, year) := SlotKeys(d.systems[rule.agyary], rule.marker);
            StandsAt(Slot(SeriesFrom(rule.pattern, rule.origin), |rule.attempts|), d.events[rule.source].roj, mah, year)
  {
    hide SlotKeys, DateOf, Slot, SeriesOf;
    var rule := d.rules[r];
    var s, n := SeriesFrom(rule.pattern, rule.origin), |rule.attempts|;
    KeysOfIndex(d.systems[rule.agyary], Slot(s, n));
    SlotRoj(rule.pattern, rule.origin, n);
    MemberIs(d, r, rule.source);
    SlotRoj(rule.pattern, rule.origin, |SeriesOf(d.events[..rule.source], r)|);
  }
}
