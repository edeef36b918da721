/**
 Deleting events, and what every step of a run does: nothing made is unmade but by deletion, nothing deleted
 comes back, and a repeat that was stopped makes nothing more.
 */
module EventRuns {
  import opened Results
  import opened Engine
  import opened RojMahCount
  import opened MemorialSeries
  import opened Slots
  import opened Recurrence
  import opened RecurrenceRuns
  import opened EventSeries

  predicate Lives(d: Calendar, i: int) {
    0 <= i < |d.events| && !d.events[i].deleted
  }

  /** The events of a series that are left. */
  function LivingOf(d: Calendar, r: int): set<int> {
    set i | 0 <= i < |d.events| && Lives(d, i) && d.events[i].rule == Some(r)
  }

  /** The events a delete takes: this one, or it and every later one of its repeat. */
  function EventVictims(d: Calendar, id: int, future: bool): set<int>
    requires Lives(d, id)
  {
    var e := d.events[id];
    if e.rule.Some? && future then set i | i in LivingOf(d, e.rule.value) && d.events[i].at >= e.at else {id}
  }

  function Marked(events: seq<Event>, victims: set<int>): seq<Event> {
    seq(|events|, i requires 0 <= i < |events| => if i in victims then events[i].(deleted := true) else events[i])
  }

  predicate IsEarliestOf(d: Calendar, ids: set<int>, id: int) {
    id in ids && Lives(d, id) && forall k :: k in ids && Lives(d, k) ==> d.events[id].at <= d.events[k].at
  }

  /**
   The calendar with an event deleted, given the earliest survivor to re-point the rule to: the rule goes with
   the last of its events, is re-pointed when its source goes, and stopped when all later ones go.
   */
  function DeletedFrom(d: Calendar, id: int, future: bool, heir: int): Calendar
    requires Lives(d, id) && (d.events[id].rule.Some? ==> 0 <= d.events[id].rule.value < |d.rules|)
  {
    var victims, link := EventVictims(d, id, future), d.events[id].rule;
    var marked := d.(events := Marked(d.events, victims));
    if link.None? then marked
    else
      var r, rule := link.value, d.rules[link.value];
      if rule.source in victims && LivingOf(d, r) <= victims then marked.(gone := d.gone + {r})
      else
        marked.(rules := d.rules[r := rule.(source := if rule.source in victims then heir else rule.source,
                                            active := rule.active && !future)])
  }

  predicate ProperEventHeir(d: Calendar, id: int, future: bool, heir: int)
    requires Lives(d, id)
  {
    d.events[id].rule.Some? ==>
      var living, victims := LivingOf(d, d.events[id].rule.value), EventVictims(d, id, future);
      !(living <= victims) ==> IsEarliestOf(d, living - victims, heir)
  }

  // --- Deleting keeps everything right ---

  lemma MarkedIs(events: seq<Event>, victims: set<int>, i: int)
    requires 0 <= i < |events|
    ensures Marked(events, victims)[i] == if i in victims then events[i].(deleted := true) else events[i]
  {
  }

  lemma MarkedPrefix(events: seq<Event>, victims: set<int>, n: nat)
    requires n <= |events|
    ensures Marked(events, victims)[..n] == Marked(events[..n], victims)
  {
  }

  /** Marking events as deleted leaves every series the events it had, told apart only by that mark. */
  lemma {:induction false} SeriesOfMarked(events: seq<Event>, victims: set<int>, r: int)
    ensures |SeriesOf(Marked(events, victims), r)| == |SeriesOf(events, r)|
    ensures forall k :: 0 <= k < |SeriesOf(events, r)| ==>
              SeriesOf(Marked(events, victims), r)[k].(deleted := false) == SeriesOf(events, r)[k].(deleted := false)
  {
    if events != [] {
      var front, last := events[..|events| - 1], events[|events| - 1];
      SeriesOfMarked(front, victims, r);
      MarkedPrefix(events, victims, |events| - 1);
      assert front + [last] == events;
      var marked := Marked(events, victims);
      assert marked == Marked(front, victims) + [marked[|events| - 1]];
      hide SeriesOf, Marked;
      SeriesOneMore(front, last, r);
      MarkedIs(events, victims, |events| - 1);
      SeriesOneMore(Marked(front, victims), marked[|events| - 1], r);
    }
  }

  /** A series stands when its events are only marked and its books, its sources and its life agree with that. */
  lemma MarkedSeriesStands(d: Calendar, after: Calendar, victims: set<int>, r: int)
    requires 0 <= r < |d.rules| && SeriesRight(d, r, d.rules[r])
    requires after.systems == d.systems && |after.rules| == |d.rules| && after.events == Marked(d.events, victims)
    requires after.rules[r].(source := 0, active := true) == d.rules[r].(source := 0, active := true)
    requires r !in after.gone ==> SourceLives(after, r, after.rules[r])
    ensures SeriesRight(after, r, after.rules[r])
  {
    hide SeriesOf, Slot, OccursOn, DateOf, Marked;
    SeriesOfMarked(d.events, victims, r);
    var before, members := SeriesOf(d.events, r), SeriesOf(after.events, r);
    forall k | 0 <= k < |members|
      ensures IsOccurrence(d.systems[d.rules[r].agyary], members[0], members[k], Slot(SeriesFrom(d.rules[r].pattern, d.rules[r].origin), k))
    {
      SameButMarked(before[0], members[0]);
      SameButMarked(before[k], members[k]);
    }
  }

  lemma SameButMarked(e: Event, f: Event)
    requires e.(deleted := false) == f.(deleted := false)
    ensures e.at == f.at && e.roj == f.roj && e.mah == f.mah && e.year == f.year && e.rule == f.rule && Alike(e, f)
  {
    assert e.(deleted := false).at == f.(deleted := false).at;
  }

  lemma DeleteKeepsDiary(d: Calendar, id: int, future: bool, heir: int)
    requires DiaryRight(d) && Lives(d, id) && ProperEventHeir(d, id, future, heir)
    ensures d.events[id].rule.Some? ==> 0 <= d.events[id].rule.value < |d.rules| && d.events[id].rule.value !in d.gone
    ensures DiaryRight(DeletedFrom(d, id, future, heir))
  {
    hide DiaryRight, SeriesRight, SlotKeys, BookingParsiAnchor, Marked;
    EventStands(d, id);
    var victims, after := EventVictims(d, id, future), DeletedFrom(d, id, future, heir);
    MarkedLength(d.events, victims);
    forall i | 0 <= i < |after.events|
      ensures EventRight(after, after.events[i])
    {
      EventStands(d, i);
      MarkedIs(d.events, victims, i);
      if !after.events[i].deleted && d.events[i].rule.Some? && d.events[i].rule == d.events[id].rule {
        assert i in LivingOf(d, d.events[i].rule.value);
      }
    }
    forall r | 0 <= r < |after.rules|
      ensures SeriesRight(after, r, after.rules[r])
    {
      SeriesStands(d, r);
      if r !in after.gone {
        SourceStaysLiving(d, id, future, heir, r);
      }
      MarkedSeriesStands(d, after, victims, r);
    }
    AllRight(after);
  }

  /** A rule that is left keeps a living source: its own, or the earliest survivor. */
  lemma SourceStaysLiving(d: Calendar, id: int, future: bool, heir: int, r: int)
    requires DiaryRight(d) && Lives(d, id) && ProperEventHeir(d, id, future, heir)
    requires d.events[id].rule.Some? ==> 0 <= d.events[id].rule.value < |d.rules|
    requires 0 <= r < |d.rules| && r !in DeletedFrom(d, id, future, heir).gone
    ensures var after := DeletedFrom(d, id, future, heir); SourceLives(after, r, after.rules[r])
  {
    hide DiaryRight, SeriesRight, RuleInOrder, Marked;
    SeriesStands(d, r);
    var victims, after := EventVictims(d, id, future), DeletedFrom(d, id, future, heir);
    var source := d.rules[r].source;
    MarkedLength(d.events, victims);
    MarkedIs(d.events, victims, source);
    assert source in LivingOf(d, r);
    if d.events[id].rule == Some(r) && source in victims {
      assert !(LivingOf(d, r) <= victims);
      assert heir in LivingOf(d, r) - victims;
      MarkedIs(d.events, victims, heir);
    }
  }

  // --- What every step does ---

  /** A rule that still makes events: it is left and it is active. */
  predicate Open(d: Calendar, r: int) {
    0 <= r < |d.rules| && r !in d.gone && d.rules[r].active
  }

  /** An event only ever gains its deletion, and its rule when it had none, a rule made since. */
  predicate EventOnward(d: Calendar, e: Event, f: Event) {
    && e.(rule := f.rule, deleted := f.deleted) == f
    && (e.deleted ==> f.deleted)
    && (e.rule.Some? ==> f.rule == e.rule) && (e.rule.None? && f.rule.Some? ==> f.rule.value >= |d.rules|)
  }

  predicate RuleOnward(d: Calendar, later: Calendar, r: int)
    requires 0 <= r < |d.rules| && r < |later.rules|
  {
    && later.rules[r].(source := 0, active := true, marker := 0, attempts := [])
       == d.rules[r].(source := 0, active := true, marker := 0, attempts := [])
    && d.rules[r].attempts <= later.rules[r].attempts
    && (Open(later, r) ==> Open(d, r))
    && (!Open(d, r) ==> later.rules[r].attempts == d.rules[r].attempts)
  }

  /** `later` is some state of a run after `d`. */
  ghost predicate Onward(d: Calendar, later: Calendar) {
    && later.systems == d.systems && |d.events| <= |later.events| && |d.rules| <= |later.rules| && d.gone <= later.gone
    && (forall i :: 0 <= i < |d.events| ==> EventOnward(d, d.events[i], later.events[i]))
    && (forall r :: 0 <= r < |d.rules| ==> RuleOnward(d, later, r))
    && (forall i :: |d.events| <= i < |later.events| ==> NewIsOpen(d, later.events[i]))
  }

  /** A new event is of no rule, of a rule made since, or of one that was open. */
  predicate NewIsOpen(d: Calendar, e: Event) {
    e.rule.Some? && e.rule.value < |d.rules| ==> Open(d, e.rule.value)
  }

  lemma OnwardOn(d: Calendar, mid: Calendar, later: Calendar)
    requires Onward(d, mid) && Onward(mid, later)
    ensures Onward(d, later)
  {
    forall i | 0 <= i < |d.events|
      ensures EventOnward(d, d.events[i], later.events[i])
    {
      assert EventOnward(d, d.events[i], mid.events[i]) && EventOnward(mid, mid.events[i], later.events[i]);
    }
    forall r | 0 <= r < |d.rules|
      ensures RuleOnward(d, later, r)
    {
      assert RuleOnward(d, mid, r) && RuleOnward(mid, later, r);
    }
    forall i | |d.events| <= i < |later.events|
      ensures NewIsOpen(d, later.events[i])
    {
      NewStaysNew(d, mid, later, i);
    }
  }

  lemma NewStaysNew(d: Calendar, mid: Calendar, later: Calendar, i: int)
    requires Onward(d, mid) && Onward(mid, later) && |d.events| <= i < |later.events|
    ensures NewIsOpen(d, later.events[i])
  {
    var e := later.events[i];
    if e.rule.Some? && 0 <= e.rule.value < |d.rules| {
      assert RuleOnward(d, mid, e.rule.value);
    }
    if i < |mid.events| {
      assert EventOnward(mid, mid.events[i], e) && NewIsOpen(d, mid.events[i]);
    } else {
      assert NewIsOpen(mid, e);
    }
  }

  ghost predicate MovesOn(states: seq<Calendar>, i: int)
    requires 0 <= i < |states| - 1
  {
    Onward(states[i], states[i + 1])
  }

  /** Over any run of calls, each moving onward, the whole moves onward. */
  lemma {:induction false} OnwardAlong(states: seq<Calendar>)
    requires states != [] && forall i :: 0 <= i < |states| - 1 ==> MovesOn(states, i)
    ensures Onward(states[0], states[|states| - 1])
  {
    hide Onward;
    if |states| == 1 {
      Still(states[0]);
    } else {
      var front := states[..|states| - 1];
      forall i | 0 <= i < |front| - 1
        ensures MovesOn(front, i)
      {
        assert MovesOn(states, i);
      }
      OnwardAlong(front);
      assert MovesOn(states, |states| - 2);
      OnwardOn(states[0], states[|states| - 2], states[|states| - 1]);
    }
  }

  lemma Still(d: Calendar)
    ensures Onward(d, d)
  {
  }

  lemma DeleteGoesOnward(d: Calendar, id: int, future: bool, heir: int)
    requires Lives(d, id) && (d.events[id].rule.Some? ==> 0 <= d.events[id].rule.value < |d.rules|)
    ensures Onward(d, DeletedFrom(d, id, future, heir))
  {
    hide Marked;
    var victims, after := EventVictims(d, id, future), DeletedFrom(d, id, future, heir);
    assert |after.events| == |d.events| by { MarkedLength(d.events, victims); }
    forall i | 0 <= i < |d.events|
      ensures EventOnward(d, d.events[i], after.events[i])
    {
      MarkedIs(d.events, victims, i);
    }
  }

  lemma MarkedLength(events: seq<Event>, victims: set<int>)
    ensures |Marked(events, victims)| == |events|
  {
  }

  lemma OneOffGoesOnward(d: Calendar, e: Event)
    requires e.rule.None?
    ensures Onward(d, d.(events := d.events + [e]))
  {
  }

  lemma StartGoesOnward(d: Calendar, id: int, rule: Rule)
    requires 0 <= id < |d.events| && d.events[id].rule.None?
    ensures Onward(d, Linked(d, id, rule))
  {
  }

  lemma TopUpGoesOnward(d: Calendar, r: int, dates: seq<int>)
    requires Open(d, r) && dates != [] && d.rules[r].agyary in d.systems && 0 <= d.rules[r].source < |d.events|
    ensures Onward(d, ToppedUp(d, r, dates))
  {
    hide Repeat;
    RepeatsOf(d.systems[d.rules[r].agyary], d.events[d.rules[r].source], r, dates);
    var after := ToppedUp(d, r, dates);
    forall i | |d.events| <= i < |after.events|
      ensures NewIsOpen(d, after.events[i])
    {
      assert after.events[i] in Repeats(d.systems[d.rules[r].agyary], d.events[d.rules[r].source], r, dates);
    }
  }

  lemma SwitchedOffKeepsDiary(d: Calendar, r: int)
    requires DiaryRight(d) && 0 <= r < |d.rules|
    ensures DiaryRight(d.(rules := d.rules[r := d.rules[r].(active := false)]))
    ensures Onward(d, d.(rules := d.rules[r := d.rules[r].(active := false)]))
  {
    hide SlotKeys, OccursOn, SeriesOf, IsOccurrence, Slot, DiaryRight;
    var off := d.(rules := d.rules[r := d.rules[r].(active := false)]);
    forall i | 0 <= i < |d.events|
      ensures EventRight(off, d.events[i])
    {
      EventStands(d, i);
    }
    forall q | 0 <= q < |d.rules|
      ensures SeriesRight(off, q, off.rules[q])
    {
      SeriesStands(d, q);
    }
    AllRight(off);
  }

  // --- What that comes to ---

  /** A deleted event is never made again: nothing of its series, then or ever after, falls on its day and time. */
  lemma DeletedNeverRegenerated(d: Calendar, later: Calendar, id: int, r: int, j: int)
    requires Onward(d, later) && DiaryRight(later) && 0 <= r < |later.rules|
    requires 0 <= id < |d.events| && d.events[id].deleted && d.events[id].rule == Some(r)
    requires 0 <= j < |later.events| && !later.events[j].deleted && later.events[j].rule == Some(r)
    ensures later.events[id].deleted && later.events[j].at != d.events[id].at
  {
    hide DiaryRight;
    assert EventOnward(d, d.events[id], later.events[id]);
    if j < id {
      EachOccurrenceOnce(later, r, j, id);
    } else {
      EachOccurrenceOnce(later, r, id, j);
    }
  }

  /** After "this and every later one" no event of the repeat at that time or later is ever left again. */
  lemma StoppedForGood(d: Calendar, id: int, heir: int, later: Calendar, j: int)
    requires DiaryRight(d) && Lives(d, id) && d.events[id].rule.Some? && ProperEventHeir(d, id, true, heir)
    requires 0 <= d.events[id].rule.value < |d.rules|
    requires Onward(DeletedFrom(d, id, true, heir), later)
    requires Lives(later, j) && later.events[j].rule == d.events[id].rule
    ensures later.events[j].at < d.events[id].at
  {
    hide DiaryRight, Marked;
    var after, r := DeletedFrom(d, id, true, heir), d.events[id].rule.value;
    var victims := EventVictims(d, id, true);
    MarkedLength(d.events, victims);
    assert !Open(after, r);
    if j < |d.events| {
      MarkedIs(d.events, victims, j);
      assert EventOnward(after, after.events[j], later.events[j]);
      assert j in LivingOf(d, r);
    } else {
      ClosedMakesNothing(after, later, r, j);
    }
  }

  lemma ClosedMakesNothing(d: Calendar, later: Calendar, r: int, j: int)
    requires Onward(d, later) && !Open(d, r) && r < |d.rules| && |d.events| <= j < |later.events|
    ensures later.events[j].rule != Some(r)
  {
    assert NewIsOpen(d, later.events[j]);
  }
}
