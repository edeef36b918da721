/**
 The migration that gives each mobed their own record of a family. A record shared by several mobeds is
 kept by the earliest and copied for each other; their own events move to their copy, and the payments and
 notices of those events with them, moved first while the events still say where they were.
 */
module SplitMigration {
  import opened Results

  /** What a record carries and a copy carries too. */
  datatype Family = Family(name: string, phone: int, active: bool, stoppedAt: Option<int>, savedNames: seq<string>, temples: set<int>)

  /** Whether reminders are on, and since when. */
  datatype Consent = Consent(enabled: bool, enabledAt: Option<int>)

  datatype Record = Record(family: Family, owner: Option<int>, consent: Consent)

  datatype EventId = MachiId(id: int) | BookingId(id: int) | MemorialId(id: int)

  datatype Event = Event(customer: int, creator: Option<int>, at: int)

  /** A family in a mobed's book, as the old table kept it: since when, and with reminders on or not. */
  datatype Listing = Listing(at: int, consent: Consent)

  /** A payment or a notice to a customer, and the event it is about: a notice may be about none. */
  datatype PaperId = PaymentId(id: int) | NoticeId(id: int)

  datatype Paper = Paper(customer: int, about: Option<EventId>)

  datatype Tables = Tables(
    records: map<int, Record>, nextId: nat, books: map<(int, int), Listing>, events: map<EventId, Event>,
    papers: map<PaperId, Paper>)

  // --- The statements ---

  /** This mobed's own consent for the record: none, if it is not in their book. */
  function ConsentOf(db: Tables, c: int, user: int): Consent {
    if (c, user) in db.books then db.books[(c, user)].consent else Consent(false, None)
  }

  /** The earliest owner keeps the row. */
  function KeepRow(db: Tables, c: int, user: int): Tables
    requires c in db.records
  {
    db.(records := db.records[c := db.records[c].(owner := Some(user), consent := ConsentOf(db, c, user))])
  }

  /** Is this an event of `user`'s that still points at record `c`? */
  predicate IsOwn(db: Tables, e: EventId, c: int, user: int) {
    e in db.events && db.events[e].customer == c && db.events[e].creator == Some(user)
  }

  function MovePapers(db: Tables, c: int, user: int, copy: int): Tables {
    db.(papers := map p | p in db.papers ::
      if db.papers[p].customer == c && db.papers[p].about.Some? && IsOwn(db, db.papers[p].about.value, c, user)
      then db.papers[p].(customer := copy) else db.papers[p])
  }

  function MoveEvents(db: Tables, c: int, user: int, copy: int): Tables {
    db.(events := map e | e in db.events :: if IsOwn(db, e, c, user) then db.events[e].(customer := copy) else db.events[e])
  }

  function Copied(db: Tables, c: int, user: int): Tables
    requires c in db.records
  {
    var copy := Record(db.records[c].family, Some(user), ConsentOf(db, c, user));
    db.(records := db.records[db.nextId := copy], nextId := db.nextId + 1)
  }

  /** Another owner gets a copy, and what is theirs moves to it. */
  function SplitOff(db: Tables, c: int, user: int): Tables
    requires c in db.records
  {
    var copied := Copied(db, c, user);
    MoveEvents(MovePapers(copied, c, user, db.nextId), c, user, db.nextId)
  }

  // --- Before and after ---

  /** A mobed touched a record by having it in their book, or by entering an event for it. */
  ghost predicate Touches(db: Tables, c: int, user: int, at: int) {
    || ((c, user) in db.books && db.books[(c, user)].at == at)
    || exists e :: IsOwn(db, e, c, user) && db.events[e].at == at
  }

  /** Of all who touched a record, the mobed who did so first; the lower number if two did at once. */
  ghost predicate IsEarliest(db: Tables, c: int, user: int) {
    exists at :: Touches(db, c, user, at)
      && forall v, b :: Touches(db, c, v, b) ==> at < b || (at == b && user <= v)
  }

  /** One row of the grouped query: a record, a mobed who touched it, and when they first did. */
  datatype Seen = Seen(customer: int, user: int, since: int)

  predicate InOrder(a: Seen, b: Seen) {
    a.customer < b.customer
    || (a.customer == b.customer && (a.since < b.since || (a.since == b.since && a.user < b.user)))
  }

  ghost predicate FirstTouch(db: Tables, row: Seen) {
    && Touches(db, row.customer, row.user, row.since)
    && forall at :: Touches(db, row.customer, row.user, at) ==> row.since <= at
  }

  ghost predicate HasRow(rows: seq<Seen>, c: int, user: int) {
    exists i :: 0 <= i < |rows| && rows[i].customer == c && rows[i].user == user
  }

  ghost predicate Sorted(rows: seq<Seen>) {
    && (forall i, j :: 0 <= i < j < |rows| ==> InOrder(rows[i], rows[j]))
    && (forall i, j :: 0 <= i < j < |rows| ==> !(rows[i].customer == rows[j].customer && rows[i].user == rows[j].user))
  }

  /** The grouped query's answer: each pair once, with the least of its times, by record, time and mobed. */
  ghost predicate Lists(rows: seq<Seen>, db: Tables) {
    && Sorted(rows)
    && (forall i :: 0 <= i < |rows| ==> FirstTouch(db, rows[i]))
    && (forall c, user, at :: Touches(db, c, user, at) ==> HasRow(rows, c, user))
  }

  ghost predicate NoRepeats(s: seq<int>) {
    forall i, j :: 0 <= i < j < |s| ==> s[i] != s[j]
  }

  /** As it was: no owners yet, unique numbers, no dangling links, and papers agreeing with their events. */
  ghost predicate Before(db: Tables) {
    && (forall c :: c in db.records ==> 0 <= c < db.nextId && db.records[c].owner.None?)
    && (forall c, d :: c in db.records && d in db.records && c != d ==> db.records[c].family.phone != db.records[d].family.phone)
    && (forall e :: e in db.events ==> db.events[e].customer in db.records)
    && (forall c, user :: (c, user) in db.books ==> c in db.records)
    && Agree(db)
  }

  ghost predicate Agree(db: Tables) {
    forall p :: p in db.papers && db.papers[p].about.Some? && db.papers[p].about.value in db.events ==>
      db.papers[p].customer == db.events[db.papers[p].about.value].customer
  }

  ghost predicate OwnerPhoneUnique(db: Tables) {
    forall q, r :: q in db.records && r in db.records && q != r && db.records[q].owner.Some? ==>
      !(db.records[q].owner == db.records[r].owner && db.records[q].family.phone == db.records[r].family.phone)
  }

  /** Every event is still there, re-scoped: its creator's own record, of the same family. */
  ghost predicate EventRescoped(was: Tables, db: Tables, e: EventId)
    requires e in was.events && was.events[e].customer in was.records
  {
    && e in db.events && db.events[e].creator == was.events[e].creator && db.events[e].customer in db.records
    && var r := db.records[db.events[e].customer];
       && r.family == was.records[was.events[e].customer].family
       && (was.events[e].creator.Some? ==> r.owner == was.events[e].creator)
       && (was.events[e].creator.None? ==> db.events[e].customer == was.events[e].customer)
  }

  /** A record is the family it was copied from, with the consent that mobed had; untouched, it stays as it was. */
  ghost predicate RecordRescoped(was: Tables, db: Tables, r: int)
    requires r in db.records
  {
    exists c :: c in was.records && db.records[r].family == was.records[c].family && (r in was.records ==> r == c)
      && (db.records[r].owner.Some? ==>
            (exists at :: Touches(was, c, db.records[r].owner.value, at))
            && db.records[r].consent == ConsentOf(was, c, db.records[r].owner.value))
      && (db.records[r].owner.None? ==> r == c && db.records[r] == was.records[r] && forall u, at :: !Touches(was, c, u, at))
  }

  /** The mobed has a record of their own of the family that was record `c`. */
  ghost predicate HasTheirOwn(was: Tables, db: Tables, c: int, user: int) {
    exists r :: r in db.records && c in was.records && db.records[r].owner == Some(user) && db.records[r].family == was.records[c].family
  }

  predicate Served(done: set<(int, int)>, c: int, user: int) {
    (c, user) in done
  }

  /** Where each record came from, and which of a record's users have been served so far. */
  ghost predicate RecordHalfway(was: Tables, db: Tables, home: map<int, int>, done: set<(int, int)>, r: int)
    requires r in db.records
  {
    && 0 <= r < db.nextId && r in home && home[r] in was.records
    && db.records[r].family == was.records[home[r]].family
    && (r in was.records ==> home[r] == r)
    && (db.records[r].owner.Some? ==>
         && Served(done, home[r], db.records[r].owner.value)
         && db.records[r].consent == ConsentOf(was, home[r], db.records[r].owner.value))
    && (db.records[r].owner.None? ==> r in was.records && db.records[r] == was.records[r] && forall u :: !Served(done, r, u))
  }

  ghost predicate EventHalfway(was: Tables, db: Tables, home: map<int, int>, done: set<(int, int)>, e: EventId)
    requires e in was.events
  {
    && e in db.events && db.events[e].creator == was.events[e].creator
    && db.events[e].customer in db.records && db.events[e].customer in home && home[db.events[e].customer] == was.events[e].customer
    && var c, n := was.events[e].customer, db.events[e].customer;
       && c in db.records
       && (n != c ==> was.events[e].creator.Some? && db.records[n].owner == was.events[e].creator)
       && (n == c && was.events[e].creator.Some? && Served(done, c, was.events[e].creator.value) ==>
             db.records[c].owner == was.events[e].creator)
  }

  ghost predicate OwnRecord(db: Tables, home: map<int, int>, c: int, user: int) {
    exists r :: r in db.records && r in home && home[r] == c && db.records[r].owner == Some(user)
  }

  ghost predicate Halfway(was: Tables, db: Tables, home: map<int, int>, done: set<(int, int)>) {
    && home.Keys == db.records.Keys && was.records.Keys <= db.records.Keys
    && db.books == was.books && db.events.Keys == was.events.Keys && db.papers.Keys == was.papers.Keys
    && (forall c, u :: Served(done, c, u) ==> OwnRecord(db, home, c, u))
    && (forall r :: r in db.records ==> RecordHalfway(was, db, home, done, r))
    && (forall q, r :: q in db.records && r in db.records && q != r && db.records[q].owner.Some? ==>
          !(home[q] == home[r] && db.records[q].owner == db.records[r].owner))
    && (forall e :: e in was.events ==> EventHalfway(was, db, home, done, e))
    && (forall p :: p in was.papers ==>
          db.papers[p].about == was.papers[p].about && (was.papers[p].about.None? ==> db.papers[p] == was.papers[p]))
    && Agree(db)
  }

  // --- What each statement keeps ---

  lemma Starts(was: Tables, home: map<int, int>)
    requires Before(was) && home == map r | r in was.records :: r
    ensures Halfway(was, was, home, {})
  {
  }

  /** Before any of a record's users is served, it has no owner and no copy. */
  lemma NotYetServed(was: Tables, db: Tables, home: map<int, int>, done: set<(int, int)>, c: int)
    requires Halfway(was, db, home, done) && c in was.records
    requires forall u :: !Served(done, c, u)
    ensures db.records[c].owner.None? && home[c] == c
  {
    assert RecordHalfway(was, db, home, done, c);
  }

  lemma KeepKeepsRecords(was: Tables, db: Tables, home: map<int, int>, done: set<(int, int)>, c: int, user: int)
    requires Halfway(was, db, home, done) && c in was.records
    requires forall u :: !Served(done, c, u)
    ensures c in db.records
    ensures var after := KeepRow(db, c, user);
            && (forall r :: r in after.records ==> RecordHalfway(was, after, home, done + {(c, user)}, r))
            && (forall q, r :: q in after.records && r in after.records && q != r && after.records[q].owner.Some? ==>
                  !(home[q] == home[r] && after.records[q].owner == after.records[r].owner))
  {
    hide EventHalfway, Agree;
    NotYetServed(was, db, home, done, c);
    var after, more := KeepRow(db, c, user), done + {(c, user)};
    forall r | r in after.records
      ensures RecordHalfway(was, after, home, more, r)
    {
      assert RecordHalfway(was, db, home, done, r);
      assert forall u :: Served(more, r, u) ==> r == c || Served(done, r, u);
    }
    forall q, r | q in after.records && r in after.records && q != r && after.records[q].owner.Some?
      ensures !(home[q] == home[r] && after.records[q].owner == after.records[r].owner)
    {
      assert RecordHalfway(was, db, home, done, q) && RecordHalfway(was, db, home, done, r);
    }
  }

  lemma KeepKeepsEvents(was: Tables, db: Tables, home: map<int, int>, done: set<(int, int)>, c: int, user: int)
    requires Halfway(was, db, home, done) && c in was.records && c in db.records
    requires db.records[c].owner.None?
    ensures var after := KeepRow(db, c, user);
            forall e :: e in was.events ==> EventHalfway(was, after, home, done + {(c, user)}, e)
  {
    hide RecordHalfway, Agree;
    var after, more := KeepRow(db, c, user), done + {(c, user)};
    forall e | e in was.events
      ensures EventHalfway(was, after, home, more, e)
    {
      assert EventHalfway(was, db, home, done, e);
    }
  }

  lemma KeepKeepsOwn(was: Tables, db: Tables, home: map<int, int>, done: set<(int, int)>, c: int, user: int)
    requires Halfway(was, db, home, done) && c in was.records && c in db.records
    requires db.records[c].owner.None? && c in home && home[c] == c
    ensures forall d, u :: Served(done + {(c, user)}, d, u) ==> OwnRecord(KeepRow(db, c, user), home, d, u)
  {
    hide RecordHalfway, EventHalfway, Agree;
    var after := KeepRow(db, c, user);
    forall d, u | Served(done + {(c, user)}, d, u)
      ensures OwnRecord(after, home, d, u)
    {
      if Served(done, d, u) {
        assert OwnRecord(db, home, d, u);
        var r :| r in db.records && r in home && home[r] == d && db.records[r].owner == Some(u);
        assert after.records[r] == db.records[r];
      } else {
        assert after.records[c].owner == Some(u);
      }
    }
  }

  lemma KeepKeeps(was: Tables, db: Tables, home: map<int, int>, done: set<(int, int)>, c: int, user: int)
    requires Halfway(was, db, home, done) && c in was.records && c in db.records
    requires forall u :: !Served(done, c, u)
    ensures Halfway(was, KeepRow(db, c, user), home, done + {(c, user)})
  {
    hide RecordHalfway, EventHalfway, Agree, Served, OwnRecord;
    NotYetServed(was, db, home, done, c);
    KeepKeepsRecords(was, db, home, done, c, user);
    KeepKeepsEvents(was, db, home, done, c, user);
    KeepKeepsOwn(was, db, home, done, c, user);
    SameAgree(db, KeepRow(db, c, user));
  }

  lemma CopyIsNew(was: Tables, db: Tables, home: map<int, int>, done: set<(int, int)>)
    requires Halfway(was, db, home, done)
    ensures db.nextId !in db.records && db.nextId !in was.records
  {
    assert forall r :: r in db.records ==> RecordHalfway(was, db, home, done, r);
  }

  lemma SplitKeepsRecords(was: Tables, db: Tables, home: map<int, int>, done: set<(int, int)>, c: int, user: int)
    requires Halfway(was, db, home, done) && c in was.records && c in db.records && !Served(done, c, user)
    requires db.records[c].owner.Some?
    ensures var after, homes := SplitOff(db, c, user), home[db.nextId := c];
            && (forall r :: r in after.records ==> RecordHalfway(was, after, homes, done + {(c, user)}, r))
            && (forall q, r :: q in after.records && r in after.records && q != r && after.records[q].owner.Some? ==>
                  !(homes[q] == homes[r] && after.records[q].owner == after.records[r].owner))
  {
    hide EventHalfway, Agree;
    var after, more, homes := SplitOff(db, c, user), done + {(c, user)}, home[db.nextId := c];
    assert RecordHalfway(was, db, home, done, c);
    CopyIsNew(was, db, home, done);
    forall r | r in after.records
      ensures RecordHalfway(was, after, homes, more, r)
    {
      if r in db.records {
        assert RecordHalfway(was, db, home, done, r);
        assert forall u :: Served(more, r, u) ==> r == c || Served(done, r, u);
      }
    }
    forall q, r | q in after.records && r in after.records && q != r && after.records[q].owner.Some?
      ensures !(homes[q] == homes[r] && after.records[q].owner == after.records[r].owner)
    {
      if q in db.records {
        assert RecordHalfway(was, db, home, done, q);
      }
      if r in db.records {
        assert RecordHalfway(was, db, home, done, r);
      }
    }
  }

  lemma SplitKeepsEvents(was: Tables, db: Tables, home: map<int, int>, done: set<(int, int)>, c: int, user: int)
    requires Halfway(was, db, home, done) && c in was.records && c in db.records
    ensures var after, homes := SplitOff(db, c, user), home[db.nextId := c];
            forall e :: e in was.events ==> EventHalfway(was, after, homes, done + {(c, user)}, e)
  {
    hide RecordHalfway, Agree;
    var after, more, homes := SplitOff(db, c, user), done + {(c, user)}, home[db.nextId := c];
    CopyIsNew(was, db, home, done);
    assert home[c] == c by { HomeOfOld(was, db, home, done, c); }
    forall e | e in was.events
      ensures EventHalfway(was, after, homes, more, e)
    {
      assert EventHalfway(was, db, home, done, e);
      HomeOfOld(was, db, home, done, was.events[e].customer);
    }
  }

  lemma HomeOfOld(was: Tables, db: Tables, home: map<int, int>, done: set<(int, int)>, c: int)
    requires Halfway(was, db, home, done)
    ensures c in was.records ==> c in home && home[c] == c
  {
    if c in was.records {
      assert RecordHalfway(was, db, home, done, c);
    }
  }

  lemma SplitKeepsOwn(was: Tables, db: Tables, home: map<int, int>, done: set<(int, int)>, c: int, user: int)
    requires Halfway(was, db, home, done) && c in was.records && c in db.records
    ensures forall d, u :: Served(done + {(c, user)}, d, u) ==> OwnRecord(SplitOff(db, c, user), home[db.nextId := c], d, u)
  {
    hide RecordHalfway, EventHalfway, Agree;
    CopyIsNew(was, db, home, done);
    var after, homes := SplitOff(db, c, user), home[db.nextId := c];
    forall d, u | Served(done + {(c, user)}, d, u)
      ensures OwnRecord(after, homes, d, u)
    {
      if Served(done, d, u) {
        assert OwnRecord(db, home, d, u);
        var r :| r in db.records && r in home && home[r] == d && db.records[r].owner == Some(u);
        assert after.records[r] == db.records[r] && homes[r] == d;
      } else {
        assert after.records[db.nextId].owner == Some(u);
      }
    }
  }

  lemma SplitKeeps(was: Tables, db: Tables, home: map<int, int>, done: set<(int, int)>, c: int, user: int)
    requires Halfway(was, db, home, done) && c in was.records && c in db.records && !Served(done, c, user)
    requires db.records[c].owner.Some?
    ensures Halfway(was, SplitOff(db, c, user), home[db.nextId := c], done + {(c, user)})
  {
    hide RecordHalfway, EventHalfway, Agree;
    SplitKeepsRecords(was, db, home, done, c, user);
    SplitKeepsEvents(was, db, home, done, c, user);
    SplitKeepsOwn(was, db, home, done, c, user);
    var copied := Copied(db, c, user);
    SameAgree(db, copied);
    PapersFollow(copied, c, user, db.nextId);
  }

  lemma SameAgree(db: Tables, copied: Tables)
    requires Agree(db) && copied.events == db.events && copied.papers == db.papers
    ensures Agree(copied)
  {
  }

  /** Moved first, by the events they are about, the papers still agree once the events have moved. */
  lemma PapersFollow(db: Tables, c: int, user: int, copy: int)
    requires Agree(db)
    ensures Agree(MoveEvents(MovePapers(db, c, user, copy), c, user, copy))
  {
  }

  /** Everyone served, every event is re-scoped and no mobed has a number twice. */
  lemma AllServed(was: Tables, db: Tables, home: map<int, int>, done: set<(int, int)>)
    requires Before(was) && Halfway(was, db, home, done)
    requires forall c, u, at :: Touches(was, c, u, at) ==> Served(done, c, u)
    ensures forall e :: e in was.events ==> EventRescoped(was, db, e)
    ensures OwnerPhoneUnique(db)
  {
    hide OwnRecord, Touches;
    forall e | e in was.events
      ensures EventRescoped(was, db, e)
    {
      assert EventHalfway(was, db, home, done, e);
      assert RecordHalfway(was, db, home, done, db.events[e].customer);
      if was.events[e].creator.Some? {
        EntersAnEvent(was, e);
        assert Served(done, was.events[e].customer, was.events[e].creator.value);
      }
    }
    forall q, r | q in db.records && r in db.records && q != r && db.records[q].owner.Some?
      ensures !(db.records[q].owner == db.records[r].owner && db.records[q].family.phone == db.records[r].family.phone)
    {
      assert RecordHalfway(was, db, home, done, q) && RecordHalfway(was, db, home, done, r);
    }
  }

  lemma EntersAnEvent(was: Tables, e: EventId)
    requires e in was.events && was.events[e].creator.Some?
    ensures Touches(was, was.events[e].customer, was.events[e].creator.value, was.events[e].at)
  {
    assert IsOwn(was, e, was.events[e].customer, was.events[e].creator.value);
  }

  /** Nobody lost a family, and nobody gained one: the records are those of the mobeds who touched them. */
  lemma EveryRecordRescoped(was: Tables, db: Tables, home: map<int, int>, done: set<(int, int)>)
    requires Halfway(was, db, home, done)
    requires forall c, u, at :: Touches(was, c, u, at) ==> Served(done, c, u)
    requires forall c, u :: Served(done, c, u) ==> exists at :: Touches(was, c, u, at)
    ensures forall r :: r in db.records ==> RecordRescoped(was, db, r)
    ensures forall c, u, at :: Touches(was, c, u, at) ==> HasTheirOwn(was, db, c, u)
  {
    hide EventHalfway, Agree, Touches;
    forall r | r in db.records
      ensures RecordRescoped(was, db, r)
    {
      assert RecordHalfway(was, db, home, done, r);
      assert home[r] in was.records;
    }
    forall c, u, at | Touches(was, c, u, at)
      ensures HasTheirOwn(was, db, c, u)
    {
      assert Served(done, c, u) && OwnRecord(db, home, c, u);
      var r :| r in db.records && r in home && home[r] == c && db.records[r].owner == Some(u);
      assert RecordHalfway(was, db, home, done, r);
    }
  }

  // --- The query's rows, gathered by record ---

  /** The mobeds of one record, in the order of the rows. */
  function UsersOf(rows: seq<Seen>, c: int): seq<int> {
    if rows == [] then []
    else UsersOf(rows[..|rows| - 1], c) + if rows[|rows| - 1].customer == c then [rows[|rows| - 1].user] else []
  }

  lemma FrontSorted(rows: seq<Seen>)
    requires rows != [] && Sorted(rows)
    ensures Sorted(rows[..|rows| - 1])
  {
    hide InOrder;
    var front := rows[..|rows| - 1];
    assert forall i :: 0 <= i < |front| ==> front[i] == rows[i];
  }

  lemma {:induction false} UsersAreThose(rows: seq<Seen>, c: int, user: int)
    ensures user in UsersOf(rows, c) <==> HasRow(rows, c, user)
  {
    if rows != [] {
      var front, last := rows[..|rows| - 1], rows[|rows| - 1];
      UsersAreThose(front, c, user);
      assert forall i :: 0 <= i < |front| ==> front[i] == rows[i];
      assert HasRow(rows, c, user) <==> HasRow(front, c, user) || (last.customer == c && last.user == user) by {
        if HasRow(front, c, user) {
          var i :| 0 <= i < |front| && front[i].customer == c && front[i].user == user;
          assert rows[i] == front[i];
        }
      }
    }
  }

  lemma {:induction false} UsersOnce(rows: seq<Seen>, c: int)
    requires Sorted(rows)
    ensures NoRepeats(UsersOf(rows, c))
  {
    if rows != [] {
      var front, last := rows[..|rows| - 1], rows[|rows| - 1];
      FrontSorted(rows);
      UsersOnce(front, c);
      UsersAreThose(front, c, last.user);
      assert forall i :: 0 <= i < |front| ==> front[i] == rows[i];
    }
  }

  /** The first of them is the earliest: that is what the query's order is for. */
  lemma {:induction false} FirstRow(rows: seq<Seen>, c: int) returns (k: nat)
    requires UsersOf(rows, c) != []
    ensures k < |rows| && rows[k].customer == c && rows[k].user == UsersOf(rows, c)[0]
    ensures forall j :: 0 <= j < k ==> rows[j].customer != c
  {
    var front := rows[..|rows| - 1];
    if UsersOf(front, c) != [] {
      k := FirstRow(front, c);
      assert forall j :: 0 <= j < |front| ==> front[j] == rows[j];
    } else {
      k := |rows| - 1;
      forall j | 0 <= j < k
        ensures rows[j].customer != c
      {
        UsersAreThose(front, c, rows[j].user);
        assert front[j] == rows[j];
      }
    }
  }

  lemma FirstIsEarliest(rows: seq<Seen>, db: Tables, c: int)
    requires Lists(rows, db) && UsersOf(rows, c) != []
    ensures IsEarliest(db, c, UsersOf(rows, c)[0])
  {
    hide Touches;
    var k := FirstRow(rows, c);
    assert FirstTouch(db, rows[k]);
    forall v, b | Touches(db, c, v, b)
      ensures rows[k].since < b || (rows[k].since == b && rows[k].user <= v)
    {
      assert HasRow(rows, c, v);
      var j :| 0 <= j < |rows| && rows[j].customer == c && rows[j].user == v;
      assert FirstTouch(db, rows[j]);
      assert j == k || InOrder(rows[k], rows[j]);
    }
  }

  lemma NoUsers()
    ensures forall c :: UsersOf([], c) == []
  {
  }

  lemma OneMoreUser(rows: seq<Seen>, i: nat)
    requires i < |rows|
    ensures forall c :: UsersOf(rows[..i + 1], c) == UsersOf(rows[..i], c) + if rows[i].customer == c then [rows[i].user] else []
  {
    assert rows[..i + 1][..i] == rows[..i];
  }

  /** Gathering the rows: each record once, with its mobeds in order. */
  method ByCustomer(rows: seq<Seen>) returns (order: seq<int>, users: map<int, seq<int>>)
    ensures NoRepeats(order)
    ensures forall c :: c in order <==> c in users
    ensures forall c :: c in users ==> users[c] == UsersOf(rows, c)
    ensures forall c :: c in users <==> UsersOf(rows, c) != []
  {
    hide UsersOf;
    order, users := [], map[];
    NoUsers();
    var i := 0;
    while i < |rows|
      invariant 0 <= i <= |rows| && NoRepeats(order)
      invariant forall c :: c in order <==> c in users
      invariant forall c :: c in users ==> users[c] == UsersOf(rows[..i], c)
      invariant forall c :: c in users <==> UsersOf(rows[..i], c) != []
    {
      var c := rows[i].customer;
      OneMoreUser(rows, i);
      if c !in users {
        order, users := order + [c], users[c := []];
      }
      users := users[c := users[c] + [rows[i].user]];
      i := i + 1;
    }
    assert rows[..i] == rows;
  }

  // --- The loop ---

  class Database {
    var db: Tables

    constructor (db: Tables)
      ensures this.db == db
    {
      this.db := db;
    }

    /** Serve the users of one record, the earliest first. */
    method SplitRecord(ghost was: Tables, ghost home: map<int, int>, ghost done: set<(int, int)>, c: int, users: seq<int>)
      returns (ghost homes: map<int, int>, ghost all: set<(int, int)>)
      requires Halfway(was, db, home, done) && c in was.records && c in db.records
      requires users != [] && NoRepeats(users)
      requires forall u :: !Served(done, c, u)
      modifies this
      ensures Halfway(was, db, homes, all)
      ensures forall d, u :: Served(all, d, u) <==> Served(done, d, u) || (d == c && u in users)
      ensures forall d :: d in old(db).records && d != c ==> d in db.records && db.records[d] == old(db).records[d]
      ensures c in db.records && db.records[c].owner == Some(users[0])
    {
      hide Halfway, SplitOff, KeepRow;
      KeepKeeps(was, db, home, done, c, users[0]);
      KeptRow(db, c, users[0]);
      db := KeepRow(db, c, users[0]);
      homes, all := home, done + {(c, users[0])};
      var i := 1;
      while i < |users|
        invariant 1 <= i <= |users|
        invariant Halfway(was, db, homes, all) && c in db.records && db.records[c].owner == Some(users[0])
        invariant forall d :: d in old(db).records && d != c ==> d in db.records && db.records[d] == old(db).records[d]
        invariant forall d, u :: Served(all, d, u) <==> Served(done, d, u) || (d == c && u in users[..i])
      {
        assert users[i] !in users[..i];
        SplitKeeps(was, db, homes, all, c, users[i]);
        SplitRow(was, db, homes, all, c, users[i]);
        ghost var copy := db.nextId;
        db := SplitOff(db, c, users[i]);
        homes, all := homes[copy := c], all + {(c, users[i])};
        assert users[..i + 1] == users[..i] + [users[i]];
        i := i + 1;
      }
      assert users[..i] == users;
    }

    /** The whole split, from the rows of the grouped query. */
    method Upgrade(rows: seq<Seen>)
      requires Before(db) && Lists(rows, db)
      modifies this
      ensures db.events.Keys == old(db).events.Keys && db.papers.Keys == old(db).papers.Keys
      ensures old(db).records.Keys <= db.records.Keys
      ensures forall e :: e in old(db).events ==> EventRescoped(old(db), db, e)
      ensures Agree(db)
      ensures forall p :: p in old(db).papers ==>
        db.papers[p].about == old(db).papers[p].about && (old(db).papers[p].about.None? ==> db.papers[p] == old(db).papers[p])
      ensures OwnerPhoneUnique(db)
      ensures forall r :: r in db.records ==> RecordRescoped(old(db), db, r)
      ensures forall c, u, at :: Touches(old(db), c, u, at) ==> HasTheirOwn(old(db), db, c, u)
      ensures forall c :: c in old(db).records && db.records[c].owner.Some? ==> IsEarliest(old(db), c, db.records[c].owner.value)
    {
      hide Halfway, EventRescoped, OwnerPhoneUnique, RecordRescoped, HasTheirOwn, Before, Agree, Lists, Touches, UsersOf, IsEarliest;
      ghost var was := db;
      ghost var home: map<int, int> := map r | r in was.records :: r;
      ghost var done: set<(int, int)> := {};
      var order, users := ByCustomer(rows);
      QueryGives(was, rows);
      Starts(was, home);
      EventsStand(was);
      var i := 0;
      while i < |order|
        invariant 0 <= i <= |order|
        invariant Halfway(was, db, home, done)
        invariant forall c, u :: Served(done, c, u) <==> c in order[..i] && c in users && u in users[c]
        invariant forall c :: c in order[..i] ==> c in users && c in db.records && db.records[c].owner == Some(users[c][0])
      {
        var c := order[i];
        assert c in order && c !in order[..i] && c in users;
        HalfwayGives(was, db, home, done);
        home, done := SplitRecord(was, home, done, c, users[c]);
        assert order[..i + 1] == order[..i] + [c];
        i := i + 1;
      }
      assert order[..i] == order;
      forall c, u, at | Touches(was, c, u, at)
        ensures Served(done, c, u)
      {
        assert u in UsersOf(rows, c);
        assert c in users && c in order;
      }
      HalfwayGives(was, db, home, done);
      AllServed(was, db, home, done);
      EveryRecordRescoped(was, db, home, done);
      OwnersServed(was, db, home, done);
    }
  }

  /** What the rows say of each record: who touched it, each once, the earliest first. */
  lemma QueryGives(db: Tables, rows: seq<Seen>)
    requires Before(db) && Lists(rows, db)
    ensures forall c, u, at :: Touches(db, c, u, at) ==> u in UsersOf(rows, c)
    ensures forall c, u :: u in UsersOf(rows, c) ==> exists at :: Touches(db, c, u, at)
    ensures forall c :: NoRepeats(UsersOf(rows, c))
    ensures forall c :: UsersOf(rows, c) != [] ==> c in db.records && IsEarliest(db, c, UsersOf(rows, c)[0])
  {
    hide IsEarliest;
    forall c, u, at | Touches(db, c, u, at)
      ensures u in UsersOf(rows, c)
    {
      UsersAreThose(rows, c, u);
    }
    forall c, u | u in UsersOf(rows, c)
      ensures exists at :: Touches(db, c, u, at)
    {
      hide Touches;
      UsersAreThose(rows, c, u);
      if HasRow(rows, c, u) {
        var i :| 0 <= i < |rows| && rows[i].customer == c && rows[i].user == u;
        assert FirstTouch(db, rows[i]);
      }
    }
    forall c
      ensures NoRepeats(UsersOf(rows, c))
      ensures UsersOf(rows, c) != [] ==> c in db.records && IsEarliest(db, c, UsersOf(rows, c)[0])
    {
      UsersOnce(rows, c);
      if UsersOf(rows, c) != [] {
        FirstIsEarliest(rows, db, c);
        assert UsersOf(rows, c)[0] in UsersOf(rows, c);
        var at :| Touches(db, c, UsersOf(rows, c)[0], at);
      }
    }
  }

  lemma OwnersServed(was: Tables, db: Tables, home: map<int, int>, done: set<(int, int)>)
    requires Halfway(was, db, home, done)
    ensures forall c :: c in was.records && db.records[c].owner.Some? ==> Served(done, c, db.records[c].owner.value)
  {
    forall c | c in was.records && db.records[c].owner.Some?
      ensures Served(done, c, db.records[c].owner.value)
    {
      assert RecordHalfway(was, db, home, done, c);
    }
  }

  lemma EventsStand(was: Tables)
    requires Before(was)
    ensures forall e :: e in was.events ==> was.events[e].customer in was.records
  {
  }

  lemma HalfwayGives(was: Tables, db: Tables, home: map<int, int>, done: set<(int, int)>)
    requires Halfway(was, db, home, done)
    ensures was.records.Keys <= db.records.Keys && db.events.Keys == was.events.Keys && db.papers.Keys == was.papers.Keys
    ensures forall p :: p in was.papers ==>
              db.papers[p].about == was.papers[p].about && (was.papers[p].about.None? ==> db.papers[p] == was.papers[p])
    ensures Agree(db)
  {
  }

  lemma KeptRow(db: Tables, c: int, user: int)
    requires c in db.records
    ensures c in KeepRow(db, c, user).records && KeepRow(db, c, user).records[c].owner == Some(user)
    ensures forall d :: d in db.records && d != c ==>
              d in KeepRow(db, c, user).records && KeepRow(db, c, user).records[d] == db.records[d]
  {
  }

  lemma SplitRow(was: Tables, db: Tables, home: map<int, int>, done: set<(int, int)>, c: int, user: int)
    requires Halfway(was, db, home, done) && c in db.records
    ensures forall d :: d in db.records ==> d in SplitOff(db, c, user).records && SplitOff(db, c, user).records[d] == db.records[d]
  {
    CopyIsNew(was, db, home, done);
  }
}
