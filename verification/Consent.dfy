/**
 Who may be reminded. A mobed turns reminders on for their own record of a family; a STOP belongs to the
 person, so it is kept against the number and reaches every record of it, now and later, until a mobed says
 the family asked again. A reminder row is checked against its record once more just before it goes.
 Specified on values with the history of what was said; `Book` does the same to the tables.
 */
module Consent {
  import opened Results

  /** A real number, or the one an erased record is given, which can be nobody's. */
  datatype Phone = Number(digits: int) | NoOnes(record: int)

  /** The version of the words a mobed reads to the family before turning reminders on. */
  const CONSENT_VERSION := "2026-10-b"

  /** `enabledAt` and `words` are the evidence of the agreement: when it was given, and to which words. */
  datatype Record = Record(
    owner: Option<int>, phone: Phone, active: bool, enabled: bool, stoppedAt: Option<int>,
    enabledAt: Option<int>, words: Option<string>)

  function NewRecord(owner: Option<int>, phone: Phone, stoppedAt: Option<int>): Record {
    Record(owner, phone, true, false, stoppedAt, None, None)
  }

  /** A planned reminder: whose record it is for, the number as it was then, and the memorial's own mobed. */
  datatype Row = Row(record: int, phone: Phone, mobed: int, sending: bool)

  /**
   What was said, in order: a number replied STOP, or a mobed turned reminders on for a record that had the number
   then, lifting a STOP or without one to lift.
   */
  datatype Said =
    | Stopped(phone: Phone)
    | Lifted(record: int, mobed: int, phone: Phone)
    | Agreed(record: int, mobed: int, phone: Phone)

  datatype State = State(
    records: map<int, Record>, optOuts: map<Phone, int>, rows: map<int, Row>, nextId: nat, said: seq<Said>)

  const EMPTY := State(map[], map[], map[], 0, [])

  datatype Answer = Done | NotInBook | StaleConsent | StillStopped | Clash | Withdrawn

  // --- The steps ---

  function StoppedRecord(r: Record, phone: Phone, now: int): Record {
    if r.phone != phone || r.stoppedAt.Some? then r
    else if r.enabled then r.(stoppedAt := Some(now), enabled := false, enabledAt := None)
    else r.(stoppedAt := Some(now))
  }

  function Stop(st: State, digits: int, now: int): State {
    var phone := Number(digits);
    st.(optOuts := st.optOuts[phone := now],
        records := map id | id in st.records :: StoppedRecord(st.records[id], phone, now),
        said := st.said + [Stopped(phone)])
  }

  /** The mobeds a STOP tells: those who had reminders on. */
  predicate IsTold(st: State, id: int, phone: Phone) {
    id in st.records && st.records[id].phone == phone && st.records[id].stoppedAt.None?
    && st.records[id].enabled && st.records[id].owner.Some?
  }

  function Switched(st: State, user: int, id: int, on: bool, confirmed: bool, readOut: Option<string>, now: int): (State, Answer) {
    if id !in st.records || st.records[id].owner != Some(user) then (st, NotInBook)
    else
      var r := st.records[id];
      if !on then (st.(records := st.records[id := r.(enabled := false, enabledAt := None, words := None)]), Done)
      else if readOut.Some? && readOut.value != CONSENT_VERSION then (st, StaleConsent)
      else if r.stoppedAt.Some? && !confirmed then (st, StillStopped)
      else
        (st.(records := st.records[id := r.(enabled := true, stoppedAt := None, enabledAt := Some(now), words := Some(CONSENT_VERSION))],
             said := st.said + [if r.stoppedAt.Some? then Lifted(id, user, r.phone) else Agreed(id, user, r.phone)]), Done)
  }

  function OptedOutAt(st: State, phone: Phone): Option<int> {
    if phone in st.optOuts then Some(st.optOuts[phone]) else None
  }

  predicate IsRecordOf(st: State, id: int, owner: Option<int>, phone: Phone) {
    id in st.records && st.records[id].owner == owner && st.records[id].phone == phone
  }

  predicate HasRecord(st: State, owner: Option<int>, phone: Phone) {
    exists id :: id in st.records && IsRecordOf(st, id, owner, phone)
  }

  /** A new record, or the one this mobed already has, back in their book. */
  function Resolved(st: State, user: int, digits: int, found: int): State {
    var phone := Number(digits);
    if HasRecord(st, Some(user), phone) then
      if IsRecordOf(st, found, Some(user), phone) then st.(records := st.records[found := st.records[found].(active := true)])
      else st
    else
      st.(records := st.records[st.nextId := NewRecord(Some(user), phone, OptedOutAt(st, phone))],
          nextId := st.nextId + 1)
  }

  function Renumber(st: State, id: int, digits: int): (State, Answer)
    requires id in st.records
  {
    var r, phone := st.records[id], Number(digits);
    if phone == r.phone then (st, Done)
    else if HasRecord(st, r.owner, phone) then (st, Clash)
    else
      var stoppedAt := if r.stoppedAt.None? then OptedOutAt(st, phone) else r.stoppedAt;
      var moved := r.(phone := phone, enabled := false, enabledAt := None, words := None, stoppedAt := stoppedAt);
      (st.(records := st.records[id := moved]), Done)
  }

  /** Off the list with reminders off, or gone altogether when nothing refers to it. */
  function RemoveFromBook(st: State, id: int, referenced: bool): State
    requires id in st.records
  {
    if referenced then st.(records := st.records[id := st.records[id].(active := false, enabled := false, enabledAt := None)])
    else st.(records := st.records - {id})
  }

  /** Erasing a number everywhere, its messages with it; the STOP is kept. */
  function Erase(st: State, digits: int, referenced: set<int>): State {
    var phone := Number(digits);
    st.(records := map id | id in st.records && (st.records[id].phone != phone || id in referenced) ::
          if st.records[id].phone == phone then NewRecord(st.records[id].owner, NoOnes(id), None).(active := false) else st.records[id],
        rows := map k | k in st.rows && st.rows[k].phone != phone
                        && (st.rows[k].record in st.records ==> st.records[st.rows[k].record].phone != phone) :: st.rows[k])
  }

  /** The planner's row for a record that may be reminded. */
  function PlanRow(st: State, id: int): State {
    if id in st.records && st.records[id].owner.Some? && st.records[id].active && st.records[id].enabled
       && st.records[id].stoppedAt.None? then
      st.(rows := st.rows[st.nextId := Row(id, st.records[id].phone, st.records[id].owner.value, false)], nextId := st.nextId + 1)
    else st
  }

  predicate MayGo(st: State, row: Row) {
    && row.record in st.records && st.records[row.record].active && st.records[row.record].stoppedAt.None?
    && st.records[row.record].owner == Some(row.mobed) && st.records[row.record].enabled
  }

  /** The check just before a row is marked as sending; a withdrawn row leaves the queue. */
  function MarkSending(st: State, k: int): (State, Answer)
    requires k in st.rows
  {
    if MayGo(st, st.rows[k]) then (st.(rows := st.rows[k := st.rows[k].(sending := true)]), Done)
    else (st.(rows := st.rows - {k}), Withdrawn)
  }

  datatype Op =
    | StopOp(digits: int, now: int)
    | SetOp(user: int, id: int, on: bool, confirmed: bool, readOut: Option<string>, now: int)
    | ResolveOp(user: int, digits: int, found: int)
    | RenumberOp(id: int, digits: int)
    | RemoveOp(id: int, referenced: bool)
    | EraseOp(digits: int, stillNeeded: set<int>)
    | PlanOp(id: int)
    | MarkOp(row: int)

  function Apply(st: State, op: Op): State {
    match op
    case StopOp(digits, now) => Stop(st, digits, now)
    case SetOp(user, id, on, confirmed, readOut, now) => Switched(st, user, id, on, confirmed, readOut, now).0
    case ResolveOp(user, digits, found) => Resolved(st, user, digits, found)
    case RenumberOp(id, digits) => if id in st.records then Renumber(st, id, digits).0 else st
    case RemoveOp(id, referenced) => if id in st.records then RemoveFromBook(st, id, referenced) else st
    case EraseOp(digits, stillNeeded) => Erase(st, digits, stillNeeded)
    case PlanOp(id) => PlanRow(st, id)
    case MarkOp(k) => if k in st.rows then MarkSending(st, k).0 else st
  }

  function Run(st: State, ops: seq<Op>): State {
    if ops == [] then st else Apply(Run(st, ops[..|ops| - 1]), ops[|ops| - 1])
  }

  // --- What every run keeps ---

  predicate StoppedAfter(said: seq<Said>, i: int, phone: Phone) {
    exists j :: i < j < |said| && 0 <= j && said[j] == Stopped(phone)
  }

  /** This record's own mobed lifted the STOP, for this number, after the number's last one. */
  predicate LiftedSince(said: seq<Said>, id: int, owner: Option<int>, phone: Phone) {
    exists i :: 0 <= i < |said| && said[i].Lifted? && said[i].record == id && Some(said[i].mobed) == owner
                && said[i].phone == phone && !StoppedAfter(said, i, phone)
  }

  /** This record's own mobed turned reminders on while it had this number, after the number's last STOP. */
  predicate AgreedSince(said: seq<Said>, id: int, owner: Option<int>, phone: Phone) {
    exists i :: 0 <= i < |said| && !said[i].Stopped? && said[i].record == id && Some(said[i].mobed) == owner
                && said[i].phone == phone && !StoppedAfter(said, i, phone)
  }

  /**
   A record of a number that ever replied STOP is stopped, unless its own mobed lifted it since; and one that is
   switched on says when the family agreed, to the words in force, and was switched on by its own mobed while it had
   the number it has now, with no STOP of that number since.
   */
  ghost predicate RecordHonoured(st: State, id: int)
    requires id in st.records
  {
    var r := st.records[id];
    && (r.phone in st.optOuts && r.stoppedAt.None? ==> LiftedSince(st.said, id, r.owner, r.phone))
    && (r.stoppedAt.Some? ==> !r.enabled)
    && (r.enabled ==> r.enabledAt.Some? && r.words == Some(CONSENT_VERSION) && AgreedSince(st.said, id, r.owner, r.phone))
  }

  ghost predicate Honoured(st: State) {
    && (forall phone :: phone in st.optOuts <==> StoppedAfter(st.said, -1, phone))
    && (forall phone :: phone in st.optOuts ==> phone.Number?)
    && (forall id :: id in st.records ==> RecordHonoured(st, id))
  }

  /** In one mobed's book a number has one record. */
  ghost predicate OneRecordEach(st: State) {
    && (forall id :: id in st.records ==> 0 <= id < st.nextId)
    && (forall id :: id in st.records && st.records[id].phone.NoOnes? ==> st.records[id].phone.record == id)
    && (forall i, j :: i in st.records && j in st.records && i != j && st.records[i].owner.Some? ==>
          !(st.records[i].owner == st.records[j].owner && st.records[i].phone == st.records[j].phone))
  }

  lemma SaidMore(said: seq<Said>, s: Said, id: int, owner: Option<int>, phone: Phone)
    ensures forall i, p :: -1 <= i < |said| ==> (StoppedAfter(said + [s], i, p) <==> StoppedAfter(said, i, p) || s == Stopped(p))
    ensures LiftedSince(said, id, owner, phone) && s != Stopped(phone) ==> LiftedSince(said + [s], id, owner, phone)
    ensures owner.Some? && s == Lifted(id, owner.value, phone) ==> LiftedSince(said + [s], id, owner, phone)
    ensures AgreedSince(said, id, owner, phone) && s != Stopped(phone) ==> AgreedSince(said + [s], id, owner, phone)
    ensures owner.Some? && (s == Lifted(id, owner.value, phone) || s == Agreed(id, owner.value, phone)) ==>
              AgreedSince(said + [s], id, owner, phone)
  {
    var all := said + [s];
    forall i, p | -1 <= i < |said|
      ensures StoppedAfter(all, i, p) <==> StoppedAfter(said, i, p) || s == Stopped(p)
    {
      if StoppedAfter(said, i, p) {
        var j :| i < j < |said| && said[j] == Stopped(p);
        assert all[j] == Stopped(p);
      }
      assert all[|said|] == s;
    }
    if LiftedSince(said, id, owner, phone) && s != Stopped(phone) {
      var i :| 0 <= i < |said| && said[i].Lifted? && said[i].record == id && Some(said[i].mobed) == owner
               && said[i].phone == phone && !StoppedAfter(said, i, phone);
      assert all[i] == said[i];
    }
    if AgreedSince(said, id, owner, phone) && s != Stopped(phone) {
      var i :| 0 <= i < |said| && !said[i].Stopped? && said[i].record == id && Some(said[i].mobed) == owner
               && said[i].phone == phone && !StoppedAfter(said, i, phone);
      assert all[i] == said[i];
    }
    assert all[|said|] == s;
    assert !StoppedAfter(all, |said|, phone);
  }

  lemma StopKeepsHonoured(st: State, digits: int, now: int)
    requires Honoured(st)
    ensures Honoured(Stop(st, digits, now))
  {
    hide LiftedSince, AgreedSince, StoppedAfter;
    var after := Stop(st, digits, now);
    forall id | id in after.records
      ensures RecordHonoured(after, id)
    {
      var r := st.records[id];
      assert RecordHonoured(st, id);
      SaidMore(st.said, Stopped(Number(digits)), id, r.owner, r.phone);
    }
    forall phone
      ensures phone in after.optOuts <==> StoppedAfter(after.said, -1, phone)
    {
      SaidMore(st.said, Stopped(Number(digits)), 0, None, phone);
    }
  }

  lemma SetKeepsHonoured(st: State, user: int, id: int, on: bool, confirmed: bool, readOut: Option<string>, now: int)
    requires Honoured(st)
    ensures Honoured(Switched(st, user, id, on, confirmed, readOut, now).0)
  {
    hide LiftedSince, AgreedSince, StoppedAfter;
    var after := Switched(st, user, id, on, confirmed, readOut, now).0;
    forall k | k in after.records
      ensures RecordHonoured(after, k)
    {
      assert RecordHonoured(st, k);
      if after.said != st.said {
        SaidMore(st.said, after.said[|st.said|], k, st.records[k].owner, st.records[k].phone);
      }
    }
    forall phone
      ensures phone in after.optOuts <==> StoppedAfter(after.said, -1, phone)
    {
      if after.said != st.said {
        SaidMore(st.said, after.said[|st.said|], 0, None, phone);
      }
    }
  }

  lemma ApplyKeepsHonoured(st: State, op: Op)
    requires Honoured(st)
    ensures Honoured(Apply(st, op))
  {
    hide LiftedSince, AgreedSince, StoppedAfter, HasRecord, MayGo, Stop, Switched;
    if op.StopOp? {
      StopKeepsHonoured(st, op.digits, op.now);
    } else if op.SetOp? {
      SetKeepsHonoured(st, op.user, op.id, op.on, op.confirmed, op.readOut, op.now);
    } else {
      var after := Apply(st, op);
      forall k | k in after.records
        ensures RecordHonoured(after, k)
      {
        if k in st.records {
          assert RecordHonoured(st, k);
        }
      }
    }
  }

  /** A record may be dropped, or given nobody's number; its owner and number otherwise stay. */
  ghost predicate SameNumbers(st: State, after: State) {
    && after.nextId >= st.nextId
    && forall id :: id in after.records ==>
         && id in st.records && after.records[id].owner == st.records[id].owner
         && (after.records[id].phone == st.records[id].phone || after.records[id].phone == NoOnes(id))
  }

  lemma SameNumbersKeep(st: State, after: State)
    requires OneRecordEach(st) && SameNumbers(st, after)
    ensures OneRecordEach(after)
  {
  }

  lemma NoRecordOf(st: State, owner: Option<int>, phone: Phone, id: int)
    requires !HasRecord(st, owner, phone) && id in st.records && owner.Some?
    ensures !(st.records[id].owner == owner && st.records[id].phone == phone)
  {
    assert !IsRecordOf(st, id, owner, phone);
  }

  lemma ResolveKeepsOneEach(st: State, user: int, digits: int, found: int)
    requires OneRecordEach(st)
    ensures OneRecordEach(Resolved(st, user, digits, found))
  {
    hide HasRecord, OptedOutAt;
    if HasRecord(st, Some(user), Number(digits)) {
      SameNumbersKeep(st, Resolved(st, user, digits, found));
    } else {
      forall id | id in st.records
        ensures !(st.records[id].owner == Some(user) && st.records[id].phone == Number(digits))
      {
        NoRecordOf(st, Some(user), Number(digits), id);
      }
    }
  }

  lemma RenumberKeepsOneEach(st: State, id: int, digits: int)
    requires OneRecordEach(st) && id in st.records
    ensures OneRecordEach(Renumber(st, id, digits).0)
  {
    hide HasRecord, OptedOutAt;
    var owner := st.records[id].owner;
    if !HasRecord(st, owner, Number(digits)) && owner.Some? {
      forall k | k in st.records
        ensures !(st.records[k].owner == owner && st.records[k].phone == Number(digits))
      {
        NoRecordOf(st, owner, Number(digits), k);
      }
    }
  }

  lemma ApplyKeepsOneEach(st: State, op: Op)
    requires OneRecordEach(st)
    ensures OneRecordEach(Apply(st, op))
  {
    hide OneRecordEach, HasRecord, OptedOutAt, MayGo, Resolved, Renumber;
    match op
    case ResolveOp(user, digits, found) => ResolveKeepsOneEach(st, user, digits, found);
    case RenumberOp(id, digits) =>
      if id in st.records {
        RenumberKeepsOneEach(st, id, digits);
      }
    case _ => SameNumbersKeep(st, Apply(st, op));
  }

  /**
   In every run of STOPs, switching on and off, adding, renumbering, removing, bringing back and erasing:
   every record of a number that ever replied STOP is stopped, unless its own mobed lifted it after the
   number's last STOP; and in one mobed's book a number has one record.
   */
  lemma {:induction false} StopsAreHonoured(ops: seq<Op>)
    ensures Honoured(Run(EMPTY, ops)) && OneRecordEach(Run(EMPTY, ops))
  {
    if ops != [] {
      hide Apply, Honoured, OneRecordEach;
      StopsAreHonoured(ops[..|ops| - 1]);
      ApplyKeepsHonoured(Run(EMPTY, ops[..|ops| - 1]), ops[|ops| - 1]);
      ApplyKeepsOneEach(Run(EMPTY, ops[..|ops| - 1]), ops[|ops| - 1]);
    }
  }

  // --- Nothing goes without consent ---

  /**
   What marking a row as sending means in any state a run can reach: its record is on file, switched on
   and not stopped; and if the record still has the number the row was planned for, then that number has
   not replied STOP since the record's own mobed last lifted it. Either way its mobed had turned reminders on for it
   while it had the number it has now.
   */
  lemma MarkedWithConsent(ops: seq<Op>, k: int)
    requires k in Run(EMPTY, ops).rows && MarkSending(Run(EMPTY, ops), k).1 == Done
    ensures var st, row := Run(EMPTY, ops), Run(EMPTY, ops).rows[k];
            && row.record in st.records
            && (var r := st.records[row.record];
               && r.active && r.enabled && r.stoppedAt.None? && r.owner == Some(row.mobed)
               && AgreedSince(st.said, row.record, Some(row.mobed), r.phone)
               && (r.phone == row.phone && row.phone in st.optOuts ==> LiftedSince(st.said, row.record, Some(row.mobed), row.phone)))
  {
    hide Run, LiftedSince, AgreedSince, StoppedAfter;
    StopsAreHonoured(ops);
    assert RecordHonoured(Run(EMPTY, ops), Run(EMPTY, ops).rows[k].record);
  }

  /** Row `k` is as planned for `row`, or gone; its record has the row's number, or is gone. */
  ghost predicate RowHasItsNumber(st: State, k: int, row: Row) {
    && (k in st.rows ==> st.rows[k].(sending := false) == row.(sending := false))
    && (row.record in st.records ==> st.records[row.record].phone == row.phone)
    && k < st.nextId && row.record < st.nextId
  }

  predicate Spares(op: Op, record: int) {
    !op.EraseOp? && !(op.RenumberOp? && op.id == record)
  }

  lemma StepKeepsTheNumber(st: State, op: Op, k: int, row: Row)
    requires RowHasItsNumber(st, k, row) && Spares(op, row.record)
    ensures RowHasItsNumber(Apply(st, op), k, row)
  {
    hide HasRecord, OptedOutAt, MayGo;
  }

  /** As long as a record is neither renumbered nor erased, its rows carry its own number. */
  lemma {:induction false} RowsKeepTheNumber(st: State, ops: seq<Op>, k: int, row: Row)
    requires RowHasItsNumber(st, k, row)
    requires forall i :: 0 <= i < |ops| ==> Spares(ops[i], row.record)
    ensures RowHasItsNumber(Run(st, ops), k, row)
  {
    if ops != [] {
      hide Apply, RowHasItsNumber, Spares;
      var front, op := ops[..|ops| - 1], ops[|ops| - 1];
      assert forall i :: 0 <= i < |front| ==> front[i] == ops[i];
      RowsKeepTheNumber(st, front, k, row);
      StepKeepsTheNumber(Run(st, front), op, k, row);
    }
  }

  lemma {:induction false} RunOn(st: State, first: seq<Op>, second: seq<Op>)
    ensures Run(st, first + second) == Run(Run(st, first), second)
  {
    hide Apply;
    if second == [] {
      assert first + second == first;
    } else {
      RunOn(st, first, second[..|second| - 1]);
      assert (first + second)[..|first + second| - 1] == first + second[..|second| - 1];
    }
  }

  /** A row planned for a record that then keeps its number goes only if that number's last STOP was lifted. */
  lemma StopWins(before: seq<Op>, id: int, after: seq<Op>)
    requires var st := Run(EMPTY, before); id in st.records && st.nextId in PlanRow(st, id).rows && st.nextId !in st.rows
    requires forall i :: 0 <= i < |after| ==> Spares(after[i], id)
    ensures var st, k := Run(EMPTY, before), Run(EMPTY, before).nextId;
            var end := Run(EMPTY, before + [PlanOp(id)] + after);
            k in end.rows && MarkSending(end, k).1 == Done && st.records[id].phone in end.optOuts ==>
              LiftedSince(end.said, id, st.records[id].owner, st.records[id].phone)
  {
    hide LiftedSince, AgreedSince, MayGo;
    var st, k := Run(EMPTY, before), Run(EMPTY, before).nextId;
    var planned := before + [PlanOp(id)];
    StopsAreHonoured(before);
    RunOn(EMPTY, before, [PlanOp(id)]);
    assert [PlanOp(id)][..0] == [];
    assert Run(EMPTY, planned) == PlanRow(st, id);
    RunOn(EMPTY, planned, after);
    var row := Row(id, st.records[id].phone, st.records[id].owner.value, false);
    RowsKeepTheNumber(Run(EMPTY, planned), after, k, row);
    var end := Run(EMPTY, planned + after);
    if k in end.rows && MarkSending(end, k).1 == Done {
      MarkedWithConsent(planned + after, k);
    }
  }

  /**
   Exactly when a STOP reaches a planned row. Take any state of any run, and a row there that would go. After
   its number replies STOP the row is still in the queue, with no lift for that number; and it is withdrawn if
   and only if its record had that very number when the STOP came.
   */
  lemma StopReachesRowExactly(ops: seq<Op>, k: int, digits: int, now: int)
    requires k in Run(EMPTY, ops).rows && MayGo(Run(EMPTY, ops), Run(EMPTY, ops).rows[k])
    requires Run(EMPTY, ops).rows[k].phone == Number(digits)
    ensures var st, row, end := Run(EMPTY, ops), Run(EMPTY, ops).rows[k], Run(EMPTY, ops + [StopOp(digits, now)]);
            && k in end.rows && end.rows[k] == row
            && row.phone in end.optOuts && !LiftedSince(end.said, row.record, Some(row.mobed), row.phone)
            && (MarkSending(end, k).1 == Withdrawn <==> st.records[row.record].phone == row.phone)
  {
    hide LiftedSince, AgreedSince, StoppedAfter;
    var all := ops + [StopOp(digits, now)];
    var st, end := Run(EMPTY, ops), Run(EMPTY, all);
    assert all[..|ops|] == ops && end == Stop(st, digits, now);
    NoLiftAfterStop(st.said, st.rows[k].record, Some(st.rows[k].mobed), Number(digits));
  }

  lemma NoLiftAfterStop(said: seq<Said>, id: int, owner: Option<int>, phone: Phone)
    ensures !LiftedSince(said + [Stopped(phone)], id, owner, phone)
  {
    assert (said + [Stopped(phone)])[|said|] == Stopped(phone);
  }

  /**
   One way past it: a row is planned for a number; the record is given another number; the first replies
   STOP; the mobed turns reminders on for the second. The row still goes to the first.
   */
  lemma RenumberedRowStillGoes(a: int, b: int)
    requires a != b
    ensures var ops := [ResolveOp(1, a, 0), SetOp(1, 0, true, false, None, 5), PlanOp(0), RenumberOp(0, b),
                        StopOp(a, 9), SetOp(1, 0, true, false, None, 5)];
            var st := Run(EMPTY, ops);
            && 1 in st.rows && st.rows[1].phone == Number(a)
            && MarkSending(st, 1).1 == Done
            && Number(a) in st.optOuts && forall id :: !LiftedSince(st.said, id, Some(1), Number(a))
  {
    hide Run, LiftedSince, AgreedSince;
    var ops := [ResolveOp(1, a, 0), SetOp(1, 0, true, false, None, 5), PlanOp(0), RenumberOp(0, b),
                StopOp(a, 9), SetOp(1, 0, true, false, None, 5)];
    var s3 := PlannedForOne(a, ops);
    var s4 := Apply(s3, ops[3]);
    var s5 := Apply(s4, ops[4]);
    var s6 := Apply(s5, ops[5]);
    assert !HasRecord(s3, Some(1), Number(b));
    assert s4.records == map[0 := NewRecord(Some(1), Number(b), None)];
    assert s5.records == s4.records;
    assert s6.said == [Agreed(0, 1, Number(a)), Stopped(Number(a)), Agreed(0, 1, Number(b))];
    NeverLifted(s6.said, Number(a), Number(b));
  }

  /**
   And another: the number replies STOP first; its record is given another number, the STOP with it; the
   mobed lifts that for the second number. The row still goes to the first, which nobody lifted.
   */
  lemma LiftedForAnotherStillGoes(a: int, b: int)
    requires a != b
    ensures var ops := [ResolveOp(1, a, 0), SetOp(1, 0, true, false, None, 5), PlanOp(0), StopOp(a, 9),
                        RenumberOp(0, b), SetOp(1, 0, true, true, None, 12)];
            var st := Run(EMPTY, ops);
            && 1 in st.rows && st.rows[1].phone == Number(a)
            && MarkSending(st, 1).1 == Done
            && Number(a) in st.optOuts && forall id :: !LiftedSince(st.said, id, Some(1), Number(a))
  {
    hide Run, LiftedSince, AgreedSince;
    var ops := [ResolveOp(1, a, 0), SetOp(1, 0, true, false, None, 5), PlanOp(0), StopOp(a, 9),
                RenumberOp(0, b), SetOp(1, 0, true, true, None, 12)];
    var s3 := PlannedForOne(a, ops);
    var s4 := Apply(s3, ops[3]);
    var s5 := Apply(s4, ops[4]);
    var s6 := Apply(s5, ops[5]);
    assert s4.records == map[0 := NewRecord(Some(1), Number(a), Some(9)).(words := Some(CONSENT_VERSION))];
    assert !HasRecord(s4, Some(1), Number(b));
    assert s5.records == map[0 := NewRecord(Some(1), Number(b), Some(9))];
    assert s6.said == [Agreed(0, 1, Number(a)), Stopped(Number(a)), Lifted(0, 1, Number(b))];
    NeverLifted(s6.said, Number(a), Number(b));
  }

  /** Both begin alike: one record of number `a`, agreed to, and a row planned for it. */
  lemma PlannedForOne(a: int, ops: seq<Op>) returns (st: State)
    requires |ops| == 6
    requires ops[0] == ResolveOp(1, a, 0) && ops[1] == SetOp(1, 0, true, false, None, 5) && ops[2] == PlanOp(0)
    ensures Run(EMPTY, ops) == Apply(Apply(Apply(st, ops[3]), ops[4]), ops[5])
    ensures st.records ==
      map[0 := NewRecord(Some(1), Number(a), None).(enabled := true, enabledAt := Some(5), words := Some(CONSENT_VERSION))]
    ensures st.rows == map[1 := Row(0, Number(a), 1, false)] && st.optOuts == map[] && st.said == [Agreed(0, 1, Number(a))]
  {
    hide Run;
    var s1 := Apply(EMPTY, ops[0]);
    var s2 := Apply(s1, ops[1]);
    st := Apply(s2, ops[2]);
    SixSteps(EMPTY, ops);
    assert s1.records == map[0 := NewRecord(Some(1), Number(a), None)];
    assert s2.records ==
      map[0 := NewRecord(Some(1), Number(a), None).(enabled := true, enabledAt := Some(5), words := Some(CONSENT_VERSION))];
  }

  lemma SixSteps(st: State, ops: seq<Op>)
    requires |ops| == 6
    ensures Run(st, ops) == Apply(Apply(Apply(Apply(Apply(Apply(st, ops[0]), ops[1]), ops[2]), ops[3]), ops[4]), ops[5])
  {
    hide Apply;
    forall n | 0 <= n < 6
      ensures Run(st, ops[..n + 1]) == Apply(Run(st, ops[..n]), ops[n])
    {
      assert ops[..n + 1][..n] == ops[..n];
    }
    assert ops[..6] == ops;
    assert Run(st, ops[..0]) == st;
  }

  lemma NeverLifted(said: seq<Said>, phone: Phone, other: Phone)
    requires phone != other
    requires forall i :: 0 <= i < |said| && said[i].Lifted? ==> said[i].phone == other
    ensures forall id :: !LiftedSince(said, id, Some(1), phone)
  {
  }

  // --- What each step comes to ---

  /** Nothing has changed but, perhaps, this one record and what was said. */
  ghost predicate OnlyThisRecord(st: State, after: State, id: int) {
    && after.optOuts == st.optOuts && after.rows == st.rows && after.nextId == st.nextId
    && after.records.Keys == st.records.Keys
    && forall k :: k in st.records && k != id ==> after.records[k] == st.records[k]
  }

  /** After a STOP every record of the number is off and stopped, since this STOP or an earlier one; no other record is touched. */
  lemma AfterStop(st: State, digits: int, now: int)
    ensures var after := Stop(st, digits, now);
            && after.records.Keys == st.records.Keys && after.rows == st.rows
            && after.optOuts == st.optOuts[Number(digits) := now]
            && (forall id :: id in st.records && st.records[id].phone != Number(digits) ==> after.records[id] == st.records[id])
            && (forall id :: id in st.records && st.records[id].phone == Number(digits) ==>
                 && after.records[id].phone == Number(digits) && after.records[id].owner == st.records[id].owner
                 && after.records[id].active == st.records[id].active
                 && after.records[id].stoppedAt == (if st.records[id].stoppedAt.Some? then st.records[id].stoppedAt else Some(now))
                 && (Honoured(st) ==> !after.records[id].enabled))
  {
    forall id | Honoured(st) && id in st.records && st.records[id].stoppedAt.Some?
      ensures !st.records[id].enabled
    {
      assert RecordHonoured(st, id);
    }
  }

  /** Whose a record is, and what stands in the way of switching it on. */
  lemma SwitchedExactly(st: State, user: int, id: int, on: bool, confirmed: bool, readOut: Option<string>, now: int)
    ensures var (after, answer) := Switched(st, user, id, on, confirmed, readOut, now);
            var own := id in st.records && st.records[id].owner == Some(user);
            var stale := on && readOut.Some? && readOut.value != CONSENT_VERSION;
            var barred := on && own && st.records[id].stoppedAt.Some? && !confirmed;
            && (answer == NotInBook <==> !own) && (answer == StaleConsent <==> own && stale)
            && (answer == StillStopped <==> barred && !stale) && (answer == Done <==> own && !stale && !barred)
            && (answer != Done ==> after == st)
            && (answer == Done ==>
                 && OnlyThisRecord(st, after, id)
                 && after.records[id].enabled == on
                 && after.records[id].phone == st.records[id].phone && after.records[id].owner == st.records[id].owner
                 && after.records[id].active == st.records[id].active
                 && after.records[id].stoppedAt == (if on then None else st.records[id].stoppedAt)
                 && after.records[id].enabledAt == (if on then Some(now) else None)
                 && after.records[id].words == (if on then Some("2026-10-b") else None))
  {
  }

  /** A new number has agreed to nothing: the record has it, with reminders off and no evidence, and stopped if either was. */
  lemma RenumberedIsOff(st: State, id: int, digits: int)
    requires id in st.records
    ensures var (after, answer) := Renumber(st, id, digits);
            var r := st.records[id];
            var taken := exists k :: k in st.records && st.records[k].owner == r.owner && st.records[k].phone == Number(digits);
            && (r.phone == Number(digits) ==> (after, answer) == (st, Done))
            && (r.phone != Number(digits) ==> (answer == Clash <==> taken) && (answer == Done <==> !taken))
            && (answer == Clash ==> after == st)
            && (r.phone != Number(digits) && answer == Done ==>
                 && OnlyThisRecord(st, after, id)
                 && after.records[id].phone == Number(digits) && !after.records[id].enabled
                 && after.records[id].enabledAt == None && after.records[id].words == None
                 && after.records[id].owner == r.owner && after.records[id].active == r.active
                 && after.records[id].stoppedAt ==
                      if r.stoppedAt.Some? then r.stoppedAt
                      else if Number(digits) in st.optOuts then Some(st.optOuts[Number(digits)]) else None)
  {
    if k :| k in st.records && st.records[k].owner == st.records[id].owner && st.records[k].phone == Number(digits) {
      assert IsRecordOf(st, k, st.records[id].owner, Number(digits));
    }
  }

  /** A mobed's record of the number comes back as it was, its STOP with it; a new one starts off, and stopped if the number is. */
  lemma ResolvedIs(st: State, user: int, digits: int, found: int)
    requires OneRecordEach(st) && IsRecordOf(Resolved(st, user, digits, found), found, Some(user), Number(digits))
    ensures var after := Resolved(st, user, digits, found);
            && after.optOuts == st.optOuts && after.rows == st.rows && after.said == st.said
            && (forall k :: k in st.records && k != found ==> k in after.records && after.records[k] == st.records[k])
            && (found in st.records ==> after.records == st.records[found := st.records[found].(active := true)])
            && (found !in st.records ==>
                 && after.records.Keys == st.records.Keys + {found}
                 && after.records[found].active && !after.records[found].enabled
                 && after.records[found].stoppedAt ==
                      if Number(digits) in st.optOuts then Some(st.optOuts[Number(digits)]) else None)
  {
    assert st.nextId !in st.records;
  }

  /** Taken off the list a record keeps its number and any STOP, with reminders off; otherwise it is gone. */
  lemma RemovedIs(st: State, id: int, referenced: bool)
    requires id in st.records
    ensures var after := RemoveFromBook(st, id, referenced);
            && after.optOuts == st.optOuts && after.rows == st.rows && after.said == st.said
            && (id in after.records <==> referenced)
            && (forall k :: k in st.records && k != id ==> k in after.records && after.records[k] == st.records[k])
            && (forall k :: k in after.records ==> k in st.records)
            && (referenced ==>
                 && !after.records[id].active && !after.records[id].enabled && after.records[id].enabledAt == None
                 && after.records[id].phone == st.records[id].phone && after.records[id].stoppedAt == st.records[id].stoppedAt)
  {
  }

  /** Erased, a number is on no record and on no row, nor is a row left of any record that had it; its STOP is remembered. */
  lemma ErasedIs(st: State, digits: int, referenced: set<int>)
    ensures var after := Erase(st, digits, referenced);
            && after.optOuts == st.optOuts && after.said == st.said
            && (forall id :: id in after.records ==> after.records[id].phone != Number(digits))
            && (forall k :: k in after.rows <==>
                  k in st.rows && st.rows[k].phone != Number(digits)
                  && !(st.rows[k].record in st.records && st.records[st.rows[k].record].phone == Number(digits)))
            && (forall k :: k in after.rows ==> after.rows[k] == st.rows[k])
            && (forall id :: id in st.records && st.records[id].phone != Number(digits) ==>
                  id in after.records && after.records[id] == st.records[id])
            && (forall id :: id in st.records && st.records[id].phone == Number(digits) ==>
                 && (id in after.records <==> id in referenced)
                 && (id in after.records ==>
                       && after.records[id].phone == NoOnes(id) && !after.records[id].active && !after.records[id].enabled
                       && after.records[id].enabledAt == None && after.records[id].words == None
                       && after.records[id].owner == st.records[id].owner))
  {
  }

  /** A row is planned exactly for a record in somebody's book, on the list, switched on and not stopped; for its number. */
  lemma PlannedExactly(st: State, id: int)
    ensures var after := PlanRow(st, id);
            var ready := id in st.records && st.records[id].owner.Some? && st.records[id].active && st.records[id].enabled
                         && st.records[id].stoppedAt.None?;
            && after.records == st.records && after.optOuts == st.optOuts && after.said == st.said
            && (!ready ==> after == st)
            && (ready ==>
                 && after.rows.Keys == st.rows.Keys + {st.nextId}
                 && (forall k :: k in st.rows && k != st.nextId ==> after.rows[k] == st.rows[k])
                 && after.rows[st.nextId].record == id && after.rows[st.nextId].phone == st.records[id].phone
                 && Some(after.rows[st.nextId].mobed) == st.records[id].owner && !after.rows[st.nextId].sending)
  {
  }

  /** The last check passes a row exactly if its record is still its mobed's, on the list, switched on and not stopped. */
  lemma MarkedExactly(st: State, k: int)
    requires k in st.rows
    ensures var (after, answer) := MarkSending(st, k);
            var row := st.rows[k];
            var ready := row.record in st.records && st.records[row.record].owner == Some(row.mobed)
                         && st.records[row.record].active && st.records[row.record].enabled
                         && st.records[row.record].stoppedAt.None?;
            && after.records == st.records && after.optOuts == st.optOuts && after.said == st.said
            && (answer == Done <==> ready) && (answer == Withdrawn <==> !ready)
            && (k in after.rows <==> ready)
            && (ready ==> after.rows[k] == row.(sending := true))
            && (forall q :: q in st.rows && q != k ==> q in after.rows && after.rows[q] == st.rows[q])
            && (forall q :: q in after.rows ==> q in st.rows)
  {
  }

  /** A second STOP finds every record stopped and tells nobody. */
  lemma SecondStopTellsNobody(st: State, digits: int, now: int, id: int)
    ensures !IsTold(Stop(st, digits, now), id, Number(digits))
  {
  }

  // --- The tables, changed in place ---

  class Book {
    var records: map<int, Record>
    var optOuts: map<Phone, int>
    var rows: map<int, Row>
    var nextId: nat
    ghost var said: seq<Said>

    ghost function St(): State
      reads this
    {
      State(records, optOuts, rows, nextId, said)
    }

    constructor ()
      ensures St() == EMPTY
    {
      records, optOuts, rows, nextId, said := map[], map[], map[], 0, [];
    }

    /** Remember the STOP, stop every record of the number, and say whose mobeds to tell. */
    method RecordStop(digits: int, now: int) returns (told: set<int>)
      requires OneRecordEach(St())
      modifies this
      ensures St() == Stop(old(St()), digits, now)
      ensures forall id :: id in told <==> IsTold(old(St()), id, Number(digits))
    {
      hide OneRecordEach, IsTold, StoppedBelow, ToldBelow;
      ghost var was := St();
      var phone := Number(digits);
      optOuts := optOuts[phone := now];
      said := said + [Stopped(phone)];
      told := {};
      var id := 0;
      NoneStopped(was, phone, now);
      while id < nextId
        invariant 0 <= id && nextId == was.nextId && rows == was.rows
        invariant optOuts == was.optOuts[phone := now] && said == was.said + [Stopped(phone)]
        invariant records == StoppedBelow(was, phone, now, id) && told == ToldBelow(was, phone, id)
      {
        OneMoreStopped(was, phone, now, id);
        if id in records && records[id].phone == phone && records[id].stoppedAt.None? {
          var r := records[id].(stoppedAt := Some(now));
          if r.enabled {
            r := r.(enabled := false, enabledAt := None);
            if r.owner.Some? {
              told := told + {id};
            }
          }
          records := records[id := r];
        }
        id := id + 1;
      }
      AllStopped(was, digits, now, id);
    }

    method SetReminders(user: int, id: int, on: bool, confirmed: bool, readOut: Option<string>, now: int)
      returns (answer: Answer)
      modifies this
      ensures (St(), answer) == Switched(old(St()), user, id, on, confirmed, readOut, now)
    {
      if id !in records || records[id].owner != Some(user) {
        return NotInBook;
      }
      if on {
        if readOut.Some? && readOut.value != CONSENT_VERSION {
          return StaleConsent;
        }
        var r := records[id];
        if r.stoppedAt.Some? {
          if !confirmed {
            return StillStopped;
          }
          said := said + [Lifted(id, user, r.phone)];
          r := r.(stoppedAt := None);
        } else {
          said := said + [Agreed(id, user, r.phone)];
        }
        records := records[id := r.(enabled := true, enabledAt := Some(now), words := Some(CONSENT_VERSION))];
      } else {
        records := records[id := records[id].(enabled := false, enabledAt := None, words := None)];
      }
      return Done;
    }

    /** This mobed's record of the number, brought back if it was removed, or a new one that starts stopped if it must. */
    method ResolveOwn(user: int, digits: int) returns (id: int, created: bool)
      requires OneRecordEach(St())
      modifies this
      ensures St() == Resolved(old(St()), user, digits, id)
      ensures IsRecordOf(St(), id, Some(user), Number(digits)) && records[id].active
      ensures created <==> !HasRecord(old(St()), Some(user), Number(digits))
    {
      var phone := Number(digits);
      id := 0;
      while id < nextId
        invariant 0 <= id <= nextId
        invariant forall k :: 0 <= k < id ==> !IsRecordOf(St(), k, Some(user), phone)
      {
        if id in records && records[id].owner == Some(user) && records[id].phone == phone {
          assert IsRecordOf(St(), id, Some(user), phone);
          records := records[id := records[id].(active := true)];
          return id, false;
        }
        id := id + 1;
      }
      var stoppedAt := if phone in optOuts then Some(optOuts[phone]) else None;
      id, created := nextId, true;
      records := records[id := NewRecord(Some(user), phone, stoppedAt)];
      nextId := nextId + 1;
    }

    /** Correct a record's number: reminders go off, and a STOP of the new number applies. */
    method Update(id: int, digits: int) returns (answer: Answer)
      requires id in records
      modifies this
      ensures (St(), answer) == Renumber(old(St()), id, digits)
    {
      var r, phone := records[id], Number(digits);
      if phone == r.phone {
        return Done;
      }
      if exists k :: k in records && records[k].owner == r.owner && records[k].phone == phone {
        ghost var k :| k in records && records[k].owner == r.owner && records[k].phone == phone;
        assert IsRecordOf(St(), k, r.owner, phone);
        return Clash;
      }
      r := r.(phone := phone, enabled := false, enabledAt := None, words := None);
      if phone in optOuts && r.stoppedAt.None? {
        r := r.(stoppedAt := Some(optOuts[phone]));
      }
      assert !HasRecord(St(), r.owner, phone);
      records := records[id := r];
      return Done;
    }

    method Remove(id: int, referenced: bool)
      requires id in records
      modifies this
      ensures St() == RemoveFromBook(old(St()), id, referenced)
    {
      if referenced {
        records := records[id := records[id].(active := false, enabled := false, enabledAt := None)];
      } else {
        records := records - {id};
      }
    }
  }

  ghost function StoppedBelow(st: State, phone: Phone, now: int, below: int): map<int, Record> {
    map id | id in st.records :: if id < below then StoppedRecord(st.records[id], phone, now) else st.records[id]
  }

  ghost function ToldBelow(st: State, phone: Phone, below: int): set<int> {
    set id | id in st.records && id < below && IsTold(st, id, phone)
  }

  lemma NoneStopped(st: State, phone: Phone, now: int)
    requires OneRecordEach(st)
    ensures StoppedBelow(st, phone, now, 0) == st.records && ToldBelow(st, phone, 0) == {}
  {
  }

  lemma OneMoreStopped(st: State, phone: Phone, now: int, id: int)
    ensures var records := StoppedBelow(st, phone, now, id);
            var stops := id in records && records[id].phone == phone && records[id].stoppedAt.None?;
            && StoppedBelow(st, phone, now, id + 1) ==
                 (if stops then records[id := StoppedRecord(records[id], phone, now)] else records)
            && ToldBelow(st, phone, id + 1) ==
                 ToldBelow(st, phone, id) + (if stops && records[id].enabled && records[id].owner.Some? then {id} else {})
  {
  }

  lemma AllStopped(st: State, digits: int, now: int, below: int)
    requires OneRecordEach(st) && below >= st.nextId
    ensures StoppedBelow(st, Number(digits), now, below) == Stop(st, digits, now).records
    ensures forall id :: id in ToldBelow(st, Number(digits), below) <==> IsTold(st, id, Number(digits))
  {
  }
}
