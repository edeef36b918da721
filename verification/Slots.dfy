/**
 Machi slots: one active machi for a mobed at a fire temple on a real day and geh. A slot is checked by
 the day and guarded by a unique index on the day's Roj, Mah and year; the two agree because the calendar
 conversion is injective, so even two bookings that race between check and insert cannot both hold it.
 */
module Slots {
  import opened Results
  import opened Engine

  const MINUTES_PER_DAY := 1440

  datatype Status =
    | Requested | Approved | Assigned | MobedDeclined | Confirmed | Completed
    | Cancelled | Declined | Rescheduled

  datatype Machi = Machi(
    agyary: int, customer: int, roj: int, mah: int, year: int, geh: int, date: int,
    owner: Option<int>, status: Status, rule: Option<int>)

  datatype Pattern = SameRojEveryMah | SameRojMahEveryYear

  /**
   A repeat. `origin` (the day index of its first occurrence) and `attempts` (every date ever tried) are
   history, kept only so that properties over whole runs can be said; the program stores neither.
   */
  datatype Rule = Rule(
    agyary: int, source: int, pattern: Pattern, endDate: Option<int>, endCount: Option<int>,
    marker: int, active: bool, origin: int, attempts: seq<int>)

  datatype Store = Store(
    systems: map<int, CalendarSystem>, machis: map<int, Machi>, rules: map<int, Rule>, nextId: nat)

  predicate Releases(status: Status) {
    status == Cancelled || status == Declined || status == Rescheduled
  }

  /** Rows without an owner are one bucket. */
  function Bucket(owner: Option<int>): int {
    if owner.Some? then owner.value else 0
  }

  /** The (roj, mah, year) a machi on this day is stored under; a Gatha day is Mah 13. */
  function SlotKeys(system: CalendarSystem, date: int): (int, int, int) {
    match GregorianToParsi(date, system)
    case RojMah(year, mah, roj) => (roj, mah, year)
    case Gatha(year, index) => (index, 13, year)
  }

  /** One calendar never stores two days under one key. */
  lemma SlotKeysInjective(system: CalendarSystem, d1: int, d2: int)
    requires SlotKeys(system, d1) == SlotKeys(system, d2)
    ensures d1 == d2
  {
    hide GregorianToParsi, ParsiToGregorian;
    GregorianRoundTrip(d1, system);
    GregorianRoundTrip(d2, system);
    ReadsBack(d1, system);
    ReadsBack(d2, system);
  }

  // --- Availability ---

  function GehStart(geh: int): int {
    match geh
    case 1 => 7 * 60
    case 2 => 13 * 60
    case 3 => 15 * 60 + 30
    case 4 => 19 * 60
    case _ => 4 * 60
  }

  /** When a machi is performed, in minutes: the Ushahin geh falls on the next civil morning. */
  function CeremonyTime(date: int, geh: int): int {
    MINUTES_PER_DAY * (if geh == 5 then date + 1 else date) + GehStart(geh)
  }

  predicate HoldsSlot(m: Machi, agyary: int, date: int, geh: int, owner: Option<int>) {
    m.agyary == agyary && m.date == date && m.geh == geh && !Releases(m.status) && Bucket(m.owner) == Bucket(owner)
  }

  predicate Booked(st: Store, agyary: int, date: int, geh: int, owner: Option<int>) {
    exists id :: id in st.machis && HoldsSlot(st.machis[id], agyary, date, geh, owner)
  }

  /** The gehs free on a day for a mobed, those of today already begun left out. */
  function FreeGehs(st: Store, agyary: int, date: int, owner: Option<int>, now: int): set<int> {
    set geh | 1 <= geh <= 5 && !Booked(st, agyary, date, geh, owner)
              && (date == now / MINUTES_PER_DAY ==> CeremonyTime(date, geh) > now)
  }

  /** A day on which the geh asked for is free. */
  datatype SlotOption = SlotOption(roj: int, mah: int, year: int, geh: int, date: int)

  /** What is offered instead of a slot that could not be had. */
  datatype Alternatives = Alternatives(sameDay: set<int>, nextDays: seq<SlotOption>)

  const SCAN_LIMIT_DAYS := 90
  const ALTERNATIVE_DAYS := 3

  /** A day after `after`, within the days looked through, on which the mobed has the geh free. */
  predicate FreeDay(st: Store, agyary: int, after: int, geh: int, owner: Option<int>, day: int) {
    after < day <= after + SCAN_LIMIT_DAYS && !Booked(st, agyary, day, geh, owner)
  }

  /** They are the next free days, in order, three if there are so many, each under its own day's key. */
  ghost predicate NextFreeDays(st: Store, agyary: int, after: int, geh: int, owner: Option<int>, options: seq<SlotOption>)
    requires agyary in st.systems
  {
    && |options| <= ALTERNATIVE_DAYS
    && (forall i :: 0 <= i < |options| ==>
          && FreeDay(st, agyary, after, geh, owner, options[i].date) && options[i].geh == geh
          && (options[i].roj, options[i].mah, options[i].year) == SlotKeys(st.systems[agyary], options[i].date))
    && (forall i, j :: 0 <= i < j < |options| ==> options[i].date < options[j].date)
    && (forall day :: FreeDay(st, agyary, after, geh, owner, day) ==>
          || (exists i :: 0 <= i < |options| && options[i].date == day)
          || (|options| == ALTERNATIVE_DAYS && options[ALTERNATIVE_DAYS - 1].date < day))
  }

  ghost predicate RightAlternatives(st: Store, agyary: int, date: int, geh: int, owner: Option<int>, now: int, a: Alternatives)
    requires agyary in st.systems
  {
    a.sameDay == FreeGehs(st, agyary, date, owner, now) && NextFreeDays(st, agyary, date, geh, owner, a.nextDays)
  }

  // --- The unique index ---

  predicate SameIndexKey(m: Machi, n: Machi) {
    m.agyary == n.agyary && m.roj == n.roj && m.mah == n.mah && m.year == n.year && m.geh == n.geh
    && Bucket(m.owner) == Bucket(n.owner)
  }

  /** The index accepts `m` in the place of row `id`. */
  predicate IndexAccepts(st: Store, id: int, m: Machi) {
    Releases(m.status) || forall k :: k in st.machis && k != id && !Releases(st.machis[k].status) ==> !SameIndexKey(st.machis[k], m)
  }

  function NewMachi(st: Store, agyary: int, customer: int, geh: int, date: int, owner: Option<int>): Machi
    requires agyary in st.systems
  {
    var (roj, mah, year) := SlotKeys(st.systems[agyary], date);
    Machi(agyary, customer, roj, mah, year, geh, date, owner, Confirmed, None)
  }

  /**
   Claiming a slot with a list of free gehs read at some earlier moment: the insert happens if the geh
   was seen free and the index accepts the row as things stand now.
   */
  function Claim(st: Store, agyary: int, customer: int, geh: int, date: int, owner: Option<int>, seen: set<int>)
    : (r: (Store, Option<int>))
    requires agyary in st.systems
  {
    var m := NewMachi(st, agyary, customer, geh, date, owner);
    if geh in seen && IndexAccepts(st, st.nextId, m) then
      (st.(machis := st.machis[st.nextId := m], nextId := st.nextId + 1), Some(st.nextId))
    else (st, None)
  }

  /** Booking without a race: the gehs are read and the slot claimed in one go. */
  function Book(st: Store, agyary: int, customer: int, geh: int, date: int, owner: Option<int>, now: int)
    : (Store, Option<int>)
    requires agyary in st.systems
  {
    Claim(st, agyary, customer, geh, date, owner, FreeGehs(st, agyary, date, owner, now))
  }

  /**
   Moving a machi to another day or geh, judged by the gehs seen free and then by the index. The day
   and geh it already has need neither; a refusal leaves it exactly as it was.
   */
  function Rebook(st: Store, id: int, geh: int, date: int, seen: set<int>): (Store, bool)
    requires id in st.machis && st.machis[id].agyary in st.systems
  {
    var m := st.machis[id];
    var (roj, mah, year) := SlotKeys(st.systems[m.agyary], date);
    var moved := m.(roj := roj, mah := mah, year := year, geh := geh, date := date);
    if (date, geh) == (m.date, m.geh) then (st, true)
    else if geh in seen && IndexAccepts(st, id, moved) then (st.(machis := st.machis[id := moved]), true)
    else (st, false)
  }

  function Release(st: Store, id: int, status: Status): Store {
    if id in st.machis && Releases(status) then
      st.(machis := st.machis[id := st.machis[id].(status := status)])
    else st
  }

  // --- The invariant ---

  /** Every machi is stored under its own day's key. */
  ghost predicate KeysRight(st: Store) {
    forall id :: id in st.machis ==>
      && st.machis[id].agyary in st.systems
      && (st.machis[id].roj, st.machis[id].mah, st.machis[id].year)
         == SlotKeys(st.systems[st.machis[id].agyary], st.machis[id].date)
  }

  ghost predicate SameSlot(m: Machi, n: Machi) {
    HoldsSlot(m, n.agyary, n.date, n.geh, n.owner) && !Releases(n.status)
  }

  /** No two active machis of one mobed at one temple share a real day and geh. */
  ghost predicate SlotsApart(st: Store) {
    forall i, k :: i in st.machis && k in st.machis && i != k ==> !SameSlot(st.machis[i], st.machis[k])
  }

  ghost predicate IdsBelow(st: Store) {
    (forall id :: id in st.machis ==> 0 <= id < st.nextId) && forall id :: id in st.rules ==> 0 <= id < st.nextId
  }

  ghost predicate SlotsValid(st: Store) {
    KeysRight(st) && SlotsApart(st) && IdsBelow(st)
  }

  /** On rows stored under their own keys, the index refuses exactly what the check by real day would. */
  lemma IndexIsTheDay(st: Store, id: int, m: Machi)
    requires KeysRight(st) && m.agyary in st.systems && !Releases(m.status)
    requires (m.roj, m.mah, m.year) == SlotKeys(st.systems[m.agyary], m.date)
    ensures IndexAccepts(st, id, m) <==> forall k :: k in st.machis && k != id ==> !SameSlot(st.machis[k], m)
  {
    hide SlotKeys;
    forall k | k in st.machis && !Releases(st.machis[k].status)
      ensures SameIndexKey(st.machis[k], m) <==> SameSlot(st.machis[k], m)
    {
      var n := st.machis[k];
      if SameIndexKey(n, m) {
        SlotKeysInjective(st.systems[m.agyary], n.date, m.date);
      }
    }
  }

  /** Seen from one moment, the check and the index agree: a free geh is never refused. */
  lemma FreeIsAccepted(st: Store, agyary: int, customer: int, geh: int, date: int, owner: Option<int>, now: int)
    requires SlotsValid(st) && agyary in st.systems
    ensures Book(st, agyary, customer, geh, date, owner, now).1.Some? <==> geh in FreeGehs(st, agyary, date, owner, now)
  {
    hide SlotKeys;
    var m := NewMachi(st, agyary, customer, geh, date, owner);
    IndexIsTheDay(st, st.nextId, m);
    if geh in FreeGehs(st, agyary, date, owner, now) {
      forall k | k in st.machis
        ensures !SameSlot(st.machis[k], m)
      {
      }
    }
  }

  /** Claiming keeps the slots apart, however stale the gehs it was decided on. */
  lemma ClaimKeepsSlots(st: Store, agyary: int, customer: int, geh: int, date: int, owner: Option<int>, seen: set<int>)
    requires SlotsValid(st) && agyary in st.systems
    ensures SlotsValid(Claim(st, agyary, customer, geh, date, owner, seen).0)
  {
    hide SlotKeys, IndexAccepts;
    IndexIsTheDay(st, st.nextId, NewMachi(st, agyary, customer, geh, date, owner));
  }

  /** Moving keeps the slots apart, however stale the gehs it was decided on; a refusal changes nothing. */
  lemma RebookKeepsSlots(st: Store, id: int, geh: int, date: int, seen: set<int>)
    requires SlotsValid(st) && id in st.machis
    ensures st.machis[id].agyary in st.systems
    ensures SlotsValid(Rebook(st, id, geh, date, seen).0)
    ensures !Rebook(st, id, geh, date, seen).1 ==> Rebook(st, id, geh, date, seen).0 == st
    ensures Rebook(st, id, geh, date, seen).1 ==>
              var after := Rebook(st, id, geh, date, seen).0.machis[id];
              after.date == date && after.geh == geh && after.owner == st.machis[id].owner
  {
    hide SlotKeys, IndexAccepts;
    var m := st.machis[id];
    var (roj, mah, year) := SlotKeys(st.systems[m.agyary], date);
    var moved := m.(roj := roj, mah := mah, year := year, geh := geh, date := date);
    if !Releases(m.status) {
      IndexIsTheDay(st, id, moved);
    }
  }

  lemma ReleaseKeepsSlots(st: Store, id: int, status: Status)
    requires SlotsValid(st)
    ensures SlotsValid(Release(st, id, status))
  {
    hide SlotKeys;
  }

  // --- What booking, moving and releasing come to ---

  /** An active machi of this mobed (or of nobody) is at the temple on that day in that geh. */
  predicate HeldBy(m: Machi, agyary: int, date: int, geh: int, owner: Option<int>) {
    && m.agyary == agyary && m.date == date && m.geh == geh
    && m.status != Cancelled && m.status != Declined && m.status != Rescheduled
    && (if m.owner.Some? then m.owner.value else 0) == (if owner.Some? then owner.value else 0)
  }

  ghost predicate IsHeld(st: Store, agyary: int, date: int, geh: int, owner: Option<int>) {
    exists id :: id in st.machis && HeldBy(st.machis[id], agyary, date, geh, owner)
  }

  /** On its own day a geh is still to come until 7:00, 13:00, 15:30 or 19:00; the Ushahin all day, being the next morning's. */
  predicate StillToCome(date: int, geh: int, now: int) {
    var minute := now - 1440 * date;
    0 <= minute < 1440 ==>
      || (geh == 1 && minute < 7 * 60) || (geh == 2 && minute < 13 * 60) || (geh == 3 && minute < 15 * 60 + 30)
      || (geh == 4 && minute < 19 * 60) || geh == 5
  }

  /** A geh is free exactly if nobody holds it for this mobed and it is not begun. */
  lemma FreeExactly(st: Store, agyary: int, date: int, geh: int, owner: Option<int>, now: int)
    ensures geh in FreeGehs(st, agyary, date, owner, now) <==>
              1 <= geh <= 5 && !IsHeld(st, agyary, date, geh, owner) && StillToCome(date, geh, now)
  {
    assert forall id :: id in st.machis ==>
      (HeldBy(st.machis[id], agyary, date, geh, owner) <==> HoldsSlot(st.machis[id], agyary, date, geh, owner));
  }

  /** Stored under the Roj, Mah and year its day reads as; a Gatha day under Mah 13. */
  predicate StoredUnder(m: Machi, system: CalendarSystem) {
    match GregorianToParsi(m.date, system)
    case RojMah(year, mah, roj) => m.roj == roj && m.mah == mah && m.year == year
    case Gatha(year, index) => m.roj == index && m.mah == 13 && m.year == year
  }

  /** A booking is made exactly if the geh is free: one confirmed machi as asked for, of no repeat, and nothing else. */
  lemma BookedIs(st: Store, agyary: int, customer: int, geh: int, date: int, owner: Option<int>, now: int)
    requires SlotsValid(st) && agyary in st.systems
    ensures var (after, booked) := Book(st, agyary, customer, geh, date, owner, now);
            var free := 1 <= geh <= 5 && !IsHeld(st, agyary, date, geh, owner) && StillToCome(date, geh, now);
            && (booked.Some? <==> free) && (!free ==> after == st)
            && (free ==>
                 && booked == Some(st.nextId) && st.nextId !in st.machis
                 && after.machis.Keys == st.machis.Keys + {st.nextId} && after.(machis := st.machis, nextId := st.nextId) == st
                 && after.nextId == st.nextId + 1
                 && (forall id :: id in st.machis ==> after.machis[id] == st.machis[id])
                 && var m := after.machis[st.nextId];
                    && m.agyary == agyary && m.customer == customer && m.geh == geh && m.date == date && m.owner == owner
                    && m.status == Confirmed && m.rule == None && StoredUnder(m, st.systems[agyary]))
  {
    hide GregorianToParsi, FreeGehs, IndexAccepts, IsHeld, StillToCome;
    FreeExactly(st, agyary, date, geh, owner, now);
    FreeIsAccepted(st, agyary, customer, geh, date, owner, now);
  }

  /** A move is made exactly if it is none, or the geh is free there; the machi then is the same one on that day, read anew. */
  lemma MovedIs(st: Store, id: int, geh: int, date: int, now: int)
    requires SlotsValid(st) && id in st.machis
    ensures st.machis[id].agyary in st.systems
    ensures var m := st.machis[id];
            var (after, moved) := Rebook(st, id, geh, date, FreeGehs(st, m.agyary, date, m.owner, now));
            var same := geh == m.geh && date == m.date;
            var free := 1 <= geh <= 5 && !IsHeld(st, m.agyary, date, geh, m.owner) && StillToCome(date, geh, now);
            && (moved <==> same || free) && (same || !free ==> after == st)
            && (!same && free ==>
                 && after.machis.Keys == st.machis.Keys && after.(machis := st.machis) == st
                 && (forall k :: k in st.machis && k != id ==> after.machis[k] == st.machis[k])
                 && after.machis[id].(roj := m.roj, mah := m.mah, year := m.year, geh := m.geh, date := m.date) == m
                 && after.machis[id].geh == geh && after.machis[id].date == date
                 && StoredUnder(after.machis[id], st.systems[m.agyary]))
  {
    hide GregorianToParsi, FreeGehs, IndexAccepts, IsHeld, StillToCome;
    var m := st.machis[id];
    FreeExactly(st, m.agyary, date, geh, m.owner, now);
    if geh in FreeGehs(st, m.agyary, date, m.owner, now) {
      MoveAccepted(st, id, geh, date, now);
    }
  }

  lemma MoveAccepted(st: Store, id: int, geh: int, date: int, now: int)
    requires SlotsValid(st) && id in st.machis && st.machis[id].agyary in st.systems
    requires geh in FreeGehs(st, st.machis[id].agyary, date, st.machis[id].owner, now)
    ensures var m := st.machis[id];
            var (roj, mah, year) := SlotKeys(st.systems[m.agyary], date);
            IndexAccepts(st, id, m.(roj := roj, mah := mah, year := year, geh := geh, date := date))
  {
    hide SlotKeys, CeremonyTime;
    var m := st.machis[id];
    var (roj, mah, year) := SlotKeys(st.systems[m.agyary], date);
    var moved := m.(roj := roj, mah := mah, year := year, geh := geh, date := date);
    if !Releases(m.status) {
      IndexIsTheDay(st, id, moved);
      forall k | k in st.machis && k != id
        ensures !SameSlot(st.machis[k], moved)
      {
      }
    }
  }

  /** Cancelled, declined or rescheduled, an active machi frees its slot; it changes in nothing else, and no other changes. */
  lemma ReleasedIsFree(st: Store, id: int, status: Status)
    requires SlotsValid(st) && id in st.machis
    ensures var after, m := Release(st, id, status), st.machis[id];
            var releases := status == Cancelled || status == Declined || status == Rescheduled;
            && after.(machis := st.machis) == st && after.machis.Keys == st.machis.Keys
            && (forall k :: k in st.machis && k != id ==> after.machis[k] == st.machis[k])
            && after.machis[id] == (if releases then m.(status := status) else m)
            && (releases && HeldBy(m, m.agyary, m.date, m.geh, m.owner) ==>
                 IsHeld(st, m.agyary, m.date, m.geh, m.owner) && !IsHeld(after, m.agyary, m.date, m.geh, m.owner))
  {
    hide SlotKeys, KeysRight;
    var after, m := Release(st, id, status), st.machis[id];
    if HeldBy(m, m.agyary, m.date, m.geh, m.owner) && Releases(status) {
      forall k | k in after.machis
        ensures !HeldBy(after.machis[k], m.agyary, m.date, m.geh, m.owner)
      {
        if k != id {
          assert !SameSlot(st.machis[k], m);
        }
      }
    }
  }

  /**
   The days offered instead: each later by at most ninety days, not held, under its own Roj and Mah, in order; and a day
   of those not held is offered, unless three before it are.
   */
  lemma NextDaysExactly(st: Store, agyary: int, after: int, geh: int, owner: Option<int>, options: seq<SlotOption>)
    requires agyary in st.systems && NextFreeDays(st, agyary, after, geh, owner, options)
    ensures |options| <= 3 && forall i, j :: 0 <= i < j < |options| ==> options[i].date < options[j].date
    ensures forall i :: 0 <= i < |options| ==>
              && after < options[i].date <= after + 90 && options[i].geh == geh
              && !IsHeld(st, agyary, options[i].date, geh, owner)
              && match GregorianToParsi(options[i].date, st.systems[agyary])
                 case RojMah(year, mah, roj) => options[i].roj == roj && options[i].mah == mah && options[i].year == year
                 case Gatha(year, index) => options[i].roj == index && options[i].mah == 13 && options[i].year == year
    ensures forall day :: after < day <= after + 90 && !IsHeld(st, agyary, day, geh, owner) ==>
              (exists i :: 0 <= i < |options| && options[i].date == day) || (|options| == 3 && options[2].date < day)
  {
    hide GregorianToParsi;
    forall day
      ensures IsHeld(st, agyary, day, geh, owner) <==> Booked(st, agyary, day, geh, owner)
    {
      HeldIsBooked(st, agyary, day, geh, owner);
    }
    forall day | after < day <= after + 90 && !IsHeld(st, agyary, day, geh, owner)
      ensures (exists i :: 0 <= i < |options| && options[i].date == day) || (|options| == 3 && options[2].date < day)
    {
      assert FreeDay(st, agyary, after, geh, owner, day);
    }
  }

  lemma HeldIsBooked(st: Store, agyary: int, date: int, geh: int, owner: Option<int>)
    ensures IsHeld(st, agyary, date, geh, owner) <==> Booked(st, agyary, date, geh, owner)
  {
    assert forall id :: id in st.machis ==>
      (HeldBy(st.machis[id], agyary, date, geh, owner) <==> HoldsSlot(st.machis[id], agyary, date, geh, owner));
  }
}
