/**
 One pass of the sender: close what is stuck, then take the pending rows that are due, one by one, each
 marked as sending before it is posted. Every change it makes is a step of the outbox protocol, so what
 holds of every run there holds here; here it is shown that a pass ends, what it posts, and that the
 breaker stops it.
 */
module ReminderSender {
  import opened Results
  import opened Outbox
  import Consent

  const MINUTES_PER_DAY := 1440
  const STUCK_SENDING := 5

  datatype Try = Try(row: int, outcome: Outcome, gaveUp: bool)

  datatype Ending = QueueEmpty | WasPaused | AccountStopped | WillRetry | BreakerTripped

  /** Failures in a row: one bad number does not count, a lost answer neither counts nor clears. */
  function StreakAfter(streak: nat, t: Try): nat {
    match t.outcome
    case Success(_) => 0
    case Permanent(code) => if code.Some? && code.value in RECIPIENT_CODES then streak else streak + 1
    case Transient => if t.gaveUp then streak + 1 else streak
    case _ => streak
  }

  function Streak(tries: seq<Try>): nat {
    if tries == [] then 0 else StreakAfter(Streak(tries[..|tries| - 1]), tries[|tries| - 1])
  }

  /** Too late to say "tomorrow": past the cutoff, or already another day. */
  predicate Late(row: Row, now: int, cutoffHour: int) {
    now % MINUTES_PER_DAY / 60 >= cutoffHour || row.scheduledAt / MINUTES_PER_DAY != now / MINUTES_PER_DAY
  }

  predicate IsDue(box: Box, r: int, now: int) {
    r in box.rows && box.rows[r].status == Pending && box.rows[r].scheduledAt <= now
  }

  ghost function Due(box: Box, now: int): set<int> {
    set r | r in box.rows && IsDue(box, r, now)
  }

  lemma {:induction false} RunsOn(start: Box, steps: seq<Step>, end: Box, step: Step)
    requires Runs(start, steps, end) && Enabled(end, step)
    ensures Runs(start, steps + [step], Apply(end, step))
    decreases |steps|
  {
    hide Enabled, Apply;
    if steps == [] {
      assert [step][1..] == [];
    } else {
      RunsOn(Apply(start, steps[0]), steps[1..], end, step);
      assert (steps + [step])[1..] == steps[1..] + [step];
    }
  }

  // --- When rows were last touched ---

  /** A row that a step changes, or makes, is touched now. */
  function Touched(before: map<int, Row>, after: map<int, Row>, updatedAt: map<int, int>, now: int): map<int, int> {
    map r | r in after :: if r in before && after[r] == before[r] && r in updatedAt then updatedAt[r] else now
  }

  function Stale(updatedAt: map<int, int>, now: int): set<int> {
    set r | r in updatedAt && updatedAt[r] < now - STUCK_SENDING
  }

  // --- What a pass does ---

  predicate Tried(tries: seq<Try>, r: int) {
    exists k :: 0 <= k < |tries| && tries[k].row == r
  }

  /**
   The circumstances of a pass: the time, what the consent tables say when each row's turn comes, and how the
   wire will answer for each row. A row has at most one turn in a pass, so both are told by the row.
   */
  datatype Evening = Evening(
    now: int, cutoffHour: int, breaker: int, book: int -> Consent.State, wire: int -> (Reply, Fate))

  /** Consent is read again at the row's own turn. */
  predicate Withdrawn(e: Evening, r: int) {
    !(r in e.book(r).rows && Consent.MayGo(e.book(r), e.book(r).rows[r]))
  }

  ghost predicate WireTruthful(e: Evening) {
    forall r :: Truthful(e.wire(r).0, e.wire(r).1)
  }

  /** The outbox with what was left sending closed. */
  function StuckClosed(box: Box, stale: set<int>): Box {
    box.(rows := map r | r in box.rows ::
      if r in stale && box.rows[r].status == Sending then box.rows[r].(status := Failed) else box.rows[r])
  }

  /** A row rightly posted, and what became of it. */
  ghost predicate RightlyTried(before: Box, after: Box, e: Evening, t: Try) {
    && t.row in before.rows && t.row in after.rows
    && IsDue(before, t.row, e.now) && !Late(before.rows[t.row], e.now, e.cutoffHour) && !Withdrawn(e, t.row)
    && t.outcome == PostOutcome(e.wire(t.row).0)
    && t.gaveUp == (before.rows[t.row].retryCount + 1 >= MAX_ATTEMPTS)
    && exists m :: after.rows[t.row] == Heard(before.rows[t.row], t.outcome, m)
  }

  /** A row not posted: left as it was, or failed because it was too late or consent was withdrawn. */
  predicate RightlyLeft(before: Box, after: Box, e: Evening, r: int)
    requires r in before.rows
  {
    && r in after.rows
    && (after.rows[r] == before.rows[r] ||
        (IsDue(before, r, e.now) && (Late(before.rows[r], e.now, e.cutoffHour) || Withdrawn(e, r))
         && after.rows[r] == before.rows[r].(status := Failed)))
  }

  /** The messages a pass handed over, one for each try that reached WhatsApp at all. */
  function PostedIn(tries: seq<Try>, e: Evening): seq<Message> {
    if tries == [] then []
    else
      var t := tries[|tries| - 1];
      PostedIn(tries[..|tries| - 1], e) + if e.wire(t.row).0 == NotSent then [] else [Message(t.row, e.wire(t.row).1)]
  }

  ghost predicate PassDid(before: Box, after: Box, e: Evening, tries: seq<Try>) {
    && after.rows.Keys == before.rows.Keys && after.nextId == before.nextId
    && after.messages == before.messages + PostedIn(tries, e)
    && (forall k :: 0 <= k < |tries| ==> RightlyTried(before, after, e, tries[k]))
    && (forall j, k :: 0 <= j < k < |tries| ==> tries[j].row < tries[k].row)
    && (forall r :: r in before.rows && !Tried(tries, r) ==> RightlyLeft(before, after, e, r))
  }

  /** Does this try end the pass whatever the breaker says? */
  predicate Stops(t: Try) {
    t.outcome.AccountProblem? || (t.outcome.Transient? && !t.gaveUp)
  }

  /** While a pass goes on, no try has stopped it and the breaker has not tripped. */
  ghost predicate GoesOn(e: Evening, tries: seq<Try>) {
    forall k :: 0 <= k < |tries| ==> GoesOnAt(e, tries, k)
  }

  ghost predicate GoesOnAt(e: Evening, tries: seq<Try>, k: nat)
    requires k < |tries|
  {
    !Stops(tries[k]) && Streak(tries[..k + 1]) < e.breaker
  }

  class Desk {
    var box: Box
    var updatedAt: map<int, int>
    var paused: bool
    ghost var trace: seq<Step>

    /** The outbox is always one the protocol can reach. */
    ghost predicate Valid()
      reads this
    {
      Runs(EMPTY, trace, box) && updatedAt.Keys == box.rows.Keys
    }

    constructor ()
      ensures Valid() && box == EMPTY && !paused
    {
      box, updatedAt, paused, trace := EMPTY, map[], false, [];
    }

    method Take(step: Step, now: int)
      requires Valid() && Enabled(box, step)
      modifies this`box, this`updatedAt, this`trace
      ensures Valid() && box == Apply(old(box), step)
      ensures updatedAt == Touched(old(box).rows, box.rows, old(updatedAt), now)
      ensures forall r :: r in box.rows ==>
                r in updatedAt
                && (r in old(box).rows && box.rows[r] == old(box).rows[r] ==> updatedAt[r] == old(updatedAt)[r])
                && (r !in old(box).rows || box.rows[r] != old(box).rows[r] ==> updatedAt[r] == now)
    {
      hide Runs, Apply, Enabled;
      RunsOn(EMPTY, trace, box, step);
      var before := box;
      box := Apply(box, step);
      updatedAt := Touched(before.rows, box.rows, updatedAt, now);
      trace := trace + [step];
    }

    method Pause()
      modifies this`paused
      ensures paused
    {
      paused := true;
    }

    method Resume()
      modifies this`paused
      ensures !paused
    {
      paused := false;
    }

    /** Mark a pending row as sending and hand it over; what WhatsApp does with it does not wait to be heard. */
    method HandOver(s: int, r: int, reply: Reply, fate: Fate, now: int)
      requires Valid() && SenderOf(box, s).Idle? && r in box.rows && box.rows[r].status == Pending
      modifies this`box, this`updatedAt, this`trace
      ensures Valid() && box.nextId == old(box).nextId
      ensures box.rows == old(box).rows[r := old(box).rows[r].(status := Sending)]
      ensures SenderOf(box, s) == if reply == NotSent then Claimed(r) else Waiting(r, |old(box).messages|)
      ensures box.messages == old(box).messages + if reply == NotSent then [] else [Message(r, fate)]
    {
      hide Runs, Truthful, PostOutcome, Heard, Touched;
      Take(Claim(s, r), now);
      if reply != NotSent {
        var m := |box.messages|;
        Take(Post(s), now);
        if fate != Flying {
          Take(Decide(m, fate == Accepted), now);
        }
      }
    }

    /** Mark a pending row as sending, post it, and write down what came back. */
    method PostRow(s: int, r: int, reply: Reply, fate: Fate, now: int) returns (outcome: Outcome)
      requires Valid() && SenderOf(box, s).Idle? && r in box.rows && box.rows[r].status == Pending
      requires Truthful(reply, fate)
      modifies this`box, this`updatedAt, this`trace
      ensures Valid() && SenderOf(box, s).Idle?
      ensures outcome == PostOutcome(reply)
      ensures box.nextId == old(box).nextId
      ensures box.rows == old(box).rows[r := Heard(old(box).rows[r], outcome, |old(box).messages|)]
      ensures EndsAs(old(box).rows[r], reply, box.rows[r])
      ensures box.messages == old(box).messages + if reply == NotSent then [] else [Message(r, fate)]
    {
      hide Runs, Truthful, PostOutcome, Heard, Touched;
      ghost var row := box.rows[r];
      HandOver(s, r, reply, fate, now);
      Take(Hear(s, reply), now);
      outcome := PostOutcome(reply);
      HeardTwice(row, reply, |old(box).messages|);
      HeardEndsAs(row, reply, |old(box).messages|);
    }

    /** The lowest-numbered row that is due. */
    method FirstDue(low: int, e: Evening, ghost before: Box, ghost tries: seq<Try>) returns (first: Option<int>)
      requires Valid() && Going(before, box, e, tries, low)
      ensures PassDid(before, box, e, tries) && GoesOn(e, tries)
      ensures first.None? ==> forall r :: r in box.rows ==> !IsDue(box, r, e.now)
      ensures first.Some? ==> first.value in box.rows && first.value >= low && IsDue(box, first.value, e.now)
      ensures first.Some? ==> forall r :: r in box.rows && IsDue(box, r, e.now) ==> r >= first.value
    {
      hide Runs, PassDid, GoesOn, IsDue;
      ReachableIsSound(trace, box);
      var r := if low < 0 then 0 else low;
      while r < box.nextId
        invariant low <= r && r >= 0
        invariant forall q :: q in box.rows && IsDue(box, q, e.now) ==> q >= r
      {
        if r in box.rows && IsDue(box, r, e.now) {
          return Some(r);
        }
        r := r + 1;
      }
      return None;
    }

    /** Close the rows left sending, for five minutes untouched, by a sender that is gone. */
    method CloseAllStuck(now: int)
      requires Valid()
      modifies this`box, this`updatedAt, this`trace
      ensures Valid() && OneRowEach(box) && box.senders == old(box).senders
      ensures box == StuckClosed(old(box), Stale(old(updatedAt), now))
      ensures box.rows.Keys == old(box).rows.Keys && box.messages == old(box).messages
      ensures forall r :: r in box.rows ==>
                box.rows[r] == if old(box).rows[r].status == Sending && old(updatedAt)[r] < now - 5
                               then old(box).rows[r].(status := Failed) else old(box).rows[r]
    {
      hide Runs, OneRowEach, Apply, Touched, ClosedBelow;
      ghost var was, times := box, updatedAt;
      ReachableIsSound(trace, box);
      RowsBelow(box);
      NoneClosed(box, times, now);
      var r := 0;
      while r < box.nextId
        invariant Valid() && 0 <= r && box == ClosedBelow(was, times, now, r)
        invariant box.nextId == was.nextId && updatedAt.Keys == was.rows.Keys
        invariant forall q :: q in was.rows && q >= r ==> updatedAt[q] == times[q]
      {
        OneMoreClosed(was, times, now, r);
        if r in box.rows && box.rows[r].status == Sending && updatedAt[r] < now - STUCK_SENDING {
          ghost var before, touched := box, updatedAt;
          Take(CloseStuck(r), now);
          TouchedOnly(before, touched, now, r);
        }
        r := r + 1;
        ClosedKeeps(was, times, now, r);
      }
      ReachableIsSound(trace, box);
      AllClosed(was, times, now, r);
    }

    /** Fail the first due row, being too late or withdrawn. */
    method DropRow(r: int, e: Evening, ghost before: Box, ghost tries: seq<Try>, ghost low: int)
      requires Valid() && Going(before, box, e, tries, low) && r >= low && IsDue(box, r, e.now)
      requires forall q :: q in box.rows && IsDue(box, q, e.now) ==> q >= r
      requires Late(box.rows[r], e.now, e.cutoffHour) || Withdrawn(e, r)
      modifies this`box, this`updatedAt, this`trace
      ensures Valid() && box.senders == old(box).senders
      ensures Going(before, box, e, tries, r + 1) && Due(box, e.now) < Due(old(box), e.now)
    {
      hide Runs, Going, Late, Due, Touched, Withdrawn;
      Dropped(before, box, e, tries, r, low);
      Take(Drop(r), e.now);
    }

    /** Post the first due row, which is neither too late nor withdrawn. */
    method TryRow(s: int, r: int, e: Evening, ghost before: Box, ghost tries: seq<Try>, ghost low: int)
      returns (outcome: Outcome, gaveUp: bool)
      requires Valid() && SenderOf(box, s).Idle? && WireTruthful(e)
      requires Going(before, box, e, tries, low) && r >= low && IsDue(box, r, e.now)
      requires forall q :: q in box.rows && IsDue(box, q, e.now) ==> q >= r
      requires !Late(box.rows[r], e.now, e.cutoffHour) && !Withdrawn(e, r)
      modifies this`box, this`updatedAt, this`trace
      ensures Valid() && SenderOf(box, s).Idle?
      ensures var t := Try(r, outcome, gaveUp);
        && PassDid(before, box, e, tries + [t]) && GoesOn(e, tries)
        && Streak(tries + [t]) == StreakAfter(Streak(tries), t)
        && (!Stops(t) && Streak(tries + [t]) < e.breaker ==>
              Going(before, box, e, tries + [t], r + 1) && Due(box, e.now) < Due(old(box), e.now))
    {
      hide Runs, Truthful, PassDid, GoesOn, Late, Heard, PostOutcome, OneRowEach, Due, Streak, StreakAfter, Stops, Touched, Withdrawn;
      ghost var was := box;
      var (reply, fate) := e.wire(r);
      gaveUp := box.rows[r].retryCount + 1 >= MAX_ATTEMPTS;
      outcome := PostRow(s, r, reply, fate, e.now);
      ghost var t := Try(r, outcome, gaveUp);
      TriedNext(before, was, box, e, tries, t, low);
      GoneOn(e, tries, t);
      if !Stops(t) {
        HeardSettles(was.rows[r], outcome, |was.messages|);
        SameStop(r, outcome, gaveUp);
        DueShrinks(was, box, r, box.rows[r], e.now);
      }
    }

    /** One pass. Paused, it posts nothing; otherwise it goes on until the queue is empty or something stops it. */
    method SendPending(s: int, e: Evening) returns (ending: Ending, ghost tries: seq<Try>)
      requires Valid() && SenderOf(box, s).Idle? && WireTruthful(e)
      modifies this
      ensures Valid() && SenderOf(box, s).Idle?
      ensures PassDid(StuckClosed(old(box), Stale(old(updatedAt), e.now)), box, e, tries)
      ensures old(paused) ==> tries == [] && box.messages == old(box).messages
      ensures paused <==> old(paused) || ending == AccountStopped || ending == BreakerTripped
      ensures ending == WasPaused ==> old(paused)
      ensures ending == QueueEmpty ==> forall r :: r in box.rows ==> !IsDue(box, r, e.now)
      ensures ending == QueueEmpty || ending == WasPaused ==> GoesOn(e, tries)
      ensures ending != QueueEmpty && ending != WasPaused ==>
        && tries != [] && GoesOn(e, tries[..|tries| - 1])
        && (ending == AccountStopped <==> tries[|tries| - 1].outcome.AccountProblem?)
        && (ending == WillRetry <==> tries[|tries| - 1].outcome.Transient? && !tries[|tries| - 1].gaveUp)
        && (ending == BreakerTripped ==> Streak(tries) >= e.breaker)
    {
      hide Runs, Truthful, PassDid, GoesOn, Going, Late, IsDue, Due, Streak, WireTruthful, StuckClosed, Touched, Stale, Withdrawn;
      CloseAllStuck(e.now);
      ghost var before := box;
      StuckPostsNothing(old(box), Stale(old(updatedAt), e.now), before, e);
      tries := [];
      var streak, low := 0, 0;
      NothingYet(before, e);
      while true
        invariant Valid() && SenderOf(box, s).Idle?
        invariant paused == old(paused) && (paused ==> tries == [])
        invariant Going(before, box, e, tries, low) && streak == Streak(tries)
        decreases Due(box, e.now)
      {
        var first := FirstDue(low, e, before, tries);
        if tries == [] {
          PostedNothing(before, box, e);
        }
        if first.None? {
          return QueueEmpty, tries;
        }
        var r := first.value;
        if Late(box.rows[r], e.now, e.cutoffHour) {
          DropRow(r, e, before, tries, low);
          low := r + 1;
          continue;
        }
        if paused {
          return WasPaused, tries;
        }
        if Withdrawn(e, r) {
          DropRow(r, e, before, tries, low);
          low := r + 1;
          continue;
        }
        var outcome, gaveUp := TryRow(s, r, e, before, tries, low);
        ghost var t := Try(r, outcome, gaveUp);
        assert (tries + [t])[..|tries|] == tries;
        tries := tries + [t];
        match outcome {
          case AccountProblem =>
            paused := true;
            return AccountStopped, tries;
          case Permanent(code) =>
            if !(code.Some? && code.value in RECIPIENT_CODES) {
              streak := streak + 1;
            }
          case Unknown =>
          case Transient =>
            if !gaveUp {
              return WillRetry, tries;
            }
            streak := streak + 1;
          case Success(_) =>
            streak := 0;
        }
        if streak >= e.breaker {
          paused := true;
          return BreakerTripped, tries;
        }
        low := r + 1;
      }
    }
  }

  /** The rows below `below` that were left sending closed, the others as they were. */
  ghost function ClosedBelow(box: Box, updatedAt: map<int, int>, now: int, below: int): Box {
    box.(rows := map r | r in box.rows ::
      if r < below && r in Stale(updatedAt, now) && box.rows[r].status == Sending then box.rows[r].(status := Failed) else box.rows[r])
  }

  lemma NoneClosed(box: Box, updatedAt: map<int, int>, now: int)
    requires forall r :: r in box.rows ==> 0 <= r < box.nextId
    ensures ClosedBelow(box, updatedAt, now, 0) == box
  {
  }

  lemma ClosedKeeps(box: Box, updatedAt: map<int, int>, now: int, below: int)
    ensures ClosedBelow(box, updatedAt, now, below).nextId == box.nextId
    ensures ClosedBelow(box, updatedAt, now, below).rows.Keys == box.rows.Keys
  {
  }

  lemma OneMoreClosed(box: Box, updatedAt: map<int, int>, now: int, r: int)
    requires updatedAt.Keys == box.rows.Keys
    ensures var before := ClosedBelow(box, updatedAt, now, r);
            && before.nextId == box.nextId && before.senders == box.senders && before.rows.Keys == box.rows.Keys
            && (r in box.rows ==> before.rows[r] == box.rows[r])
            && ClosedBelow(box, updatedAt, now, r + 1) ==
                 if r in box.rows && box.rows[r].status == Sending && updatedAt[r] < now - STUCK_SENDING then Apply(before, CloseStuck(r))
                 else before
  {
    var before, after := ClosedBelow(box, updatedAt, now, r), ClosedBelow(box, updatedAt, now, r + 1);
    if r in box.rows && box.rows[r].status == Sending && updatedAt[r] < now - STUCK_SENDING {
      assert after.rows == before.rows[r := box.rows[r].(status := Failed)];
    } else {
      assert after.rows == before.rows;
    }
  }

  lemma TouchedOnly(box: Box, updatedAt: map<int, int>, now: int, r: int)
    requires updatedAt.Keys == box.rows.Keys && Enabled(box, CloseStuck(r))
    ensures forall q :: q in box.rows && q != r ==>
              q in Touched(box.rows, Apply(box, CloseStuck(r)).rows, updatedAt, now)
              && Touched(box.rows, Apply(box, CloseStuck(r)).rows, updatedAt, now)[q] == updatedAt[q]
  {
  }

  lemma AllClosed(box: Box, updatedAt: map<int, int>, now: int, below: int)
    requires forall r :: r in box.rows ==> r < below
    ensures ClosedBelow(box, updatedAt, now, below) == StuckClosed(box, Stale(updatedAt, now))
    ensures ClosedBelow(box, updatedAt, now, below).senders == box.senders
  {
    assert ClosedBelow(box, updatedAt, now, below).rows == StuckClosed(box, Stale(updatedAt, now)).rows;
  }

  lemma StuckPostsNothing(was: Box, stale: set<int>, before: Box, e: Evening)
    requires before == StuckClosed(was, stale)
    ensures before.messages == was.messages
  {
  }

  lemma PostedNothing(before: Box, after: Box, e: Evening)
    requires PassDid(before, after, e, [])
    ensures after.messages == before.messages
  {
  }

  lemma SameStop(r: int, outcome: Outcome, gaveUp: bool)
    ensures Stops(Try(r, outcome, gaveUp)) == Stops(Try(0, outcome, gaveUp))
  {
  }

  /** What holds of a pass that has gone on so far. */
  ghost predicate Going(before: Box, after: Box, e: Evening, tries: seq<Try>, low: int) {
    && PassDid(before, after, e, tries) && GoesOn(e, tries)
    && (forall r :: r in after.rows && IsDue(after, r, e.now) ==> r >= low)
    && (forall k :: 0 <= k < |tries| ==> tries[k].row < low)
  }

  /** Marking the row as sending first leaves no trace in how it ends. */
  lemma HeardTwice(row: Row, reply: Reply, message: int)
    ensures Heard(row.(status := Sending), PostOutcome(reply), if reply == NotSent then -1 else message)
            == Heard(row, PostOutcome(reply), message)
  {
  }

  lemma ReachableIsSound(trace: seq<Step>, box: Box)
    requires Runs(EMPTY, trace, box)
    ensures OneRowEach(box)
  {
    StartsSound();
    RunKeepsSound(EMPTY, trace, box);
  }

  lemma RowsBelow(box: Box)
    requires OneRowEach(box)
    ensures forall r :: r in box.rows ==> 0 <= r < box.nextId
  {
  }

  lemma NothingYet(before: Box, e: Evening)
    requires OneRowEach(before)
    ensures Going(before, before, e, [], 0) && Streak([]) == 0
  {
  }

  lemma DueShrinks(was: Box, after: Box, r: int, row: Row, now: int)
    requires IsDue(was, r, now) && after.rows == was.rows[r := row] && row.status != Pending
    ensures Due(after, now) < Due(was, now)
    ensures forall q :: q in after.rows && IsDue(after, q, now) ==> q != r && IsDue(was, q, now)
  {
    assert r in Due(was, now) && r !in Due(after, now);
  }

  /** A row at or past the cursor has not been tried or failed yet. */
  lemma Untouched(before: Box, was: Box, e: Evening, tries: seq<Try>, r: int, low: int)
    requires Going(before, was, e, tries, low) && r >= low && IsDue(was, r, e.now)
    ensures !Tried(tries, r) && r in before.rows && was.rows[r] == before.rows[r]
  {
    hide Late, Heard, PostOutcome, Streak;
    assert RightlyLeft(before, was, e, r);
  }

  lemma TriedStays(before: Box, was: Box, after: Box, e: Evening, t: Try, r: int, row: Row)
    requires RightlyTried(before, was, e, t) && t.row != r && after.rows == was.rows[r := row]
    ensures RightlyTried(before, after, e, t)
  {
    hide Late, Heard, PostOutcome, IsDue;
  }

  lemma LeftStays(before: Box, was: Box, after: Box, e: Evening, q: int, r: int, row: Row)
    requires q in before.rows && RightlyLeft(before, was, e, q) && q != r && after.rows == was.rows[r := row]
    ensures RightlyLeft(before, after, e, q)
  {
    hide Late, IsDue;
  }

  /** Failing the first due row, rightly, keeps a pass going. */
  lemma Dropped(before: Box, was: Box, e: Evening, tries: seq<Try>, r: int, low: int)
    requires Going(before, was, e, tries, low) && r >= low && IsDue(was, r, e.now)
    requires forall q :: q in was.rows && IsDue(was, q, e.now) ==> q >= r
    requires Late(was.rows[r], e.now, e.cutoffHour) || Withdrawn(e, r)
    ensures var after := Apply(was, Drop(r));
            Going(before, after, e, tries, r + 1) && Due(after, e.now) < Due(was, e.now)
  {
    hide Late, GoesOn, Tried, RightlyTried, RightlyLeft, PostedIn;
    var after := Apply(was, Drop(r));
    var row := was.rows[r].(status := Failed);
    Untouched(before, was, e, tries, r, low);
    DueShrinks(was, after, r, row, e.now);
    forall k | 0 <= k < |tries|
      ensures RightlyTried(before, after, e, tries[k])
    {
      TriedStays(before, was, after, e, tries[k], r, row);
    }
    forall q | q in before.rows && !Tried(tries, q)
      ensures RightlyLeft(before, after, e, q)
    {
      if q == r {
        DroppedRightly(before, was, e, r);
      } else {
        LeftStays(before, was, after, e, q, r, row);
      }
    }
  }

  lemma DroppedRightly(before: Box, was: Box, e: Evening, r: int)
    requires r in before.rows && r in was.rows && was.rows[r] == before.rows[r] && IsDue(was, r, e.now)
    requires Late(was.rows[r], e.now, e.cutoffHour) || Withdrawn(e, r)
    ensures RightlyLeft(before, Apply(was, Drop(r)), e, r)
  {
    hide Late;
  }

  lemma TriedGrows(tries: seq<Try>, t: Try, r: int)
    ensures Tried(tries + [t], r) <==> Tried(tries, r) || t.row == r
  {
    var all := tries + [t];
    assert all[|tries|] == t;
    if Tried(tries, r) {
      var k :| 0 <= k < |tries| && tries[k].row == r;
      assert all[k].row == r;
    }
  }

  /** A posted row stays pending only when the account was refused, or it may be tried again. */
  lemma HeardSettles(row: Row, outcome: Outcome, message: int)
    ensures Heard(row, outcome, message).status == Pending <==> Stops(Try(0, outcome, row.retryCount + 1 >= MAX_ATTEMPTS))
  {
  }

  lemma NewlyTried(before: Box, was: Box, after: Box, e: Evening, t: Try)
    requires t.row in before.rows && IsDue(was, t.row, e.now) && was.rows[t.row] == before.rows[t.row]
    requires !Late(was.rows[t.row], e.now, e.cutoffHour) && !Withdrawn(e, t.row)
    requires t.outcome == PostOutcome(e.wire(t.row).0) && t.gaveUp == (was.rows[t.row].retryCount + 1 >= MAX_ATTEMPTS)
    requires after.rows == was.rows[t.row := Heard(was.rows[t.row], t.outcome, |was.messages|)]
    ensures RightlyTried(before, after, e, t)
  {
    hide Late, Heard, PostOutcome;
  }

  lemma PostedOn(tries: seq<Try>, t: Try, e: Evening)
    ensures PostedIn(tries + [t], e) == PostedIn(tries, e) + if e.wire(t.row).0 == NotSent then [] else [Message(t.row, e.wire(t.row).1)]
  {
    assert (tries + [t])[..|tries|] == tries;
  }

  /** Posting the first due row, rightly, is the next try. */
  lemma TriedNext(before: Box, was: Box, after: Box, e: Evening, tries: seq<Try>, t: Try, low: int)
    requires Going(before, was, e, tries, low) && t.row >= low && IsDue(was, t.row, e.now)
    requires forall q :: q in was.rows && IsDue(was, q, e.now) ==> q >= t.row
    requires !Late(was.rows[t.row], e.now, e.cutoffHour) && !Withdrawn(e, t.row)
    requires t.outcome == PostOutcome(e.wire(t.row).0) && t.gaveUp == (was.rows[t.row].retryCount + 1 >= MAX_ATTEMPTS)
    requires after.nextId == was.nextId
    requires after.rows == was.rows[t.row := Heard(was.rows[t.row], t.outcome, |was.messages|)]
    requires after.messages == was.messages + if e.wire(t.row).0 == NotSent then [] else [Message(t.row, e.wire(t.row).1)]
    ensures PassDid(before, after, e, tries + [t])
  {
    hide Late, Heard, PostOutcome, GoesOn, Tried, RightlyTried, RightlyLeft, IsDue, PostedIn;
    Untouched(before, was, e, tries, t.row, low);
    PostedOn(tries, t, e);
    var all, row := tries + [t], Heard(was.rows[t.row], t.outcome, |was.messages|);
    forall k | 0 <= k < |all|
      ensures RightlyTried(before, after, e, all[k])
    {
      if k < |tries| {
        TriedStays(before, was, after, e, tries[k], t.row, row);
      } else {
        NewlyTried(before, was, after, e, t);
      }
    }
    forall q | q in before.rows && !Tried(all, q)
      ensures RightlyLeft(before, after, e, q)
    {
      TriedGrows(tries, t, q);
      LeftStays(before, was, after, e, q, t.row, row);
    }
  }

  lemma StreakOn(tries: seq<Try>, t: Try)
    ensures Streak(tries + [t]) == StreakAfter(Streak(tries), t)
  {
    hide StreakAfter;
    assert (tries + [t])[..|tries|] == tries;
  }

  /** What the next try does to the streak, and whether the pass goes on. */
  lemma GoneOn(e: Evening, tries: seq<Try>, t: Try)
    requires GoesOn(e, tries)
    ensures Streak(tries + [t]) == StreakAfter(Streak(tries), t)
    ensures !Stops(t) && Streak(tries + [t]) < e.breaker ==> GoesOn(e, tries + [t])
  {
    hide Streak, StreakAfter, Stops;
    StreakOn(tries, t);
    if !Stops(t) && Streak(tries + [t]) < e.breaker {
      var all := tries + [t];
      forall k | 0 <= k < |all|
        ensures GoesOnAt(e, all, k)
      {
        if k < |tries| {
          assert GoesOnAt(e, tries, k);
          assert all[..k + 1] == tries[..k + 1] && all[k] == tries[k];
        } else {
          assert all[..k + 1] == all;
        }
      }
    }
  }

  // --- What a pass comes to, row by row ---

  /** Every row that was posted ends as its reply alone says. */
  lemma PostedEndsAs(before: Box, after: Box, e: Evening, tries: seq<Try>, i: nat)
    requires PassDid(before, after, e, tries) && i < |tries|
    ensures var r := tries[i].row;
            && r in before.rows && r in after.rows && EndsAs(before.rows[r], e.wire(r).0, after.rows[r])
            && tries[i].outcome == PostOutcome(e.wire(r).0) && (tries[i].gaveUp <==> before.rows[r].retryCount >= 2)
  {
    hide Late, IsDue, Withdrawn, Heard, PostOutcome, EndsAs;
    assert RightlyTried(before, after, e, tries[i]);
    var r := tries[i].row;
    var m :| after.rows[r] == Heard(before.rows[r], tries[i].outcome, m);
    HeardEndsAs(before.rows[r], e.wire(r).0, m);
  }

  /** In time: on the very day it was planned, before the cutoff hour. */
  predicate InTime(row: Row, now: int, cutoffHour: int) {
    var midnight := now - now % 1440;
    midnight <= row.scheduledAt < midnight + 1440 && now < midnight + 60 * cutoffHour
  }

  lemma LateExactly(row: Row, now: int, cutoffHour: int)
    ensures Late(row, now, cutoffHour) <==> !InTime(row, now, cutoffHour)
  {
  }

  /** The pending rows whose time has come. */
  predicate Waits(box: Box, r: int, now: int) {
    r in box.rows && box.rows[r].status == Pending && box.rows[r].scheduledAt <= now
  }

  /** Consent as it stands at the row's turn: its record is its mobed's, on the list, switched on and not stopped. */
  ghost predicate Consents(st: Consent.State, r: int) {
    r in st.rows && st.rows[r].record in st.records
    && var record := st.records[st.rows[r].record];
       record.active && record.enabled && record.stoppedAt.None? && record.owner == Some(st.rows[r].mobed)
  }

  /**
   A pass that came to the end of the queue: each row that waited was posted if it was in time and had consent, and
   failed otherwise; none is left waiting that was not put back; and a row that did not wait is as it was.
   */
  lemma WholeQueue(before: Box, after: Box, e: Evening, tries: seq<Try>)
    requires PassDid(before, after, e, tries)
    requires forall r :: r in after.rows ==> !IsDue(after, r, e.now)
    ensures forall r :: r in before.rows && !Waits(before, r, e.now) ==> r in after.rows && after.rows[r] == before.rows[r]
    ensures forall r :: Waits(before, r, e.now) ==>
              && r in after.rows
              && (Tried(tries, r) <==> InTime(before.rows[r], e.now, e.cutoffHour) && Consents(e.book(r), r))
              && (if Tried(tries, r) then EndsAs(before.rows[r], e.wire(r).0, after.rows[r])
                  else after.rows[r] == before.rows[r].(status := Failed))
  {
    hide Heard, PostOutcome, EndsAs, Late, InTime;
    forall r | r in before.rows
      ensures !Waits(before, r, e.now) ==> r in after.rows && after.rows[r] == before.rows[r]
      ensures Waits(before, r, e.now) ==>
                && r in after.rows
                && (Tried(tries, r) <==> InTime(before.rows[r], e.now, e.cutoffHour) && Consents(e.book(r), r))
                && (if Tried(tries, r) then EndsAs(before.rows[r], e.wire(r).0, after.rows[r])
                    else after.rows[r] == before.rows[r].(status := Failed))
    {
      LateExactly(before.rows[r], e.now, e.cutoffHour);
      if Tried(tries, r) {
        var k :| 0 <= k < |tries| && tries[k].row == r;
        assert RightlyTried(before, after, e, tries[k]);
        PostedEndsAs(before, after, e, tries, k);
      } else {
        assert RightlyLeft(before, after, e, r);
      }
    }
  }

  /** A failure that counts: a refusal that is not about one bad number, or a last try used up. */
  predicate CountsAgainst(e: Evening, t: Try) {
    var reply := e.wire(t.row).0;
    || (IsRefusal(reply) && !(reply.code.Some? && reply.code.value in {131026, 131021, 131030}))
    || (IsPassing(reply) && t.gaveUp)
  }

  function Against(e: Evening, tries: seq<Try>): nat {
    if tries == [] then 0 else Against(e, tries[..|tries| - 1]) + if CountsAgainst(e, tries[|tries| - 1]) then 1 else 0
  }

  /** The breaker's count is of the failures that count since the last message that was accepted. */
  lemma {:induction false} StreakIs(e: Evening, tries: seq<Try>) returns (from: nat)
    requires forall i :: 0 <= i < |tries| ==> tries[i].outcome == PostOutcome(e.wire(tries[i].row).0)
    ensures from <= |tries| && (from > 0 ==> IsAccepted(e.wire(tries[from - 1].row).0))
    ensures forall i :: from <= i < |tries| ==> !IsAccepted(e.wire(tries[i].row).0)
    ensures Streak(tries) == Against(e, tries[from..])
  {
    hide PostOutcome, CountsAgainst;
    if tries == [] {
      from := 0;
    } else {
      var front, last := tries[..|tries| - 1], tries[|tries| - 1];
      OutcomeIs(e.wire(last.row).0);
      if IsAccepted(e.wire(last.row).0) {
        from := |tries|;
        assert tries[from..] == [];
      } else {
        from := StreakIs(e, front);
        assert tries[from..][..|tries[from..]| - 1] == front[from..];
        OneMoreAgainst(e, tries, last);
      }
    }
  }

  lemma OneMoreAgainst(e: Evening, tries: seq<Try>, t: Try)
    requires tries != [] && t == tries[|tries| - 1] && t.outcome == PostOutcome(e.wire(t.row).0)
    requires !IsAccepted(e.wire(t.row).0)
    ensures Streak(tries) == Streak(tries[..|tries| - 1]) + if CountsAgainst(e, t) then 1 else 0
  {
    OutcomeIs(e.wire(t.row).0);
  }

  /** A pass goes on after a try exactly if the account is well, nothing is to be tried again, and the count is short. */
  lemma GoesOnExactly(e: Evening, tries: seq<Try>, k: nat)
    requires k < |tries| && tries[k].outcome == PostOutcome(e.wire(tries[k].row).0)
    ensures GoesOnAt(e, tries, k) <==>
              && !IsAccountTrouble(e.wire(tries[k].row).0) && !(IsPassing(e.wire(tries[k].row).0) && !tries[k].gaveUp)
              && Streak(tries[..k + 1]) < e.breaker
  {
    OutcomeIs(e.wire(tries[k].row).0);
  }

  /** The failures in a row counted within a pass never exceed the breaker's limit (or one, for a limit of none). */
  lemma NeverPastTheBreaker(e: Evening, tries: seq<Try>)
    requires tries != [] ==> GoesOn(e, tries[..|tries| - 1])
    ensures Streak(tries) <= if e.breaker > 1 then e.breaker else 1
  {
    if |tries| > 1 {
      var front := tries[..|tries| - 1];
      assert GoesOnAt(e, front, |front| - 1);
      assert front[..|front| - 1 + 1] == front;
    }
  }

  /**
   Whatever a pass posted, its record was on file, switched on and not stopped when its turn came; and if the
   record still had the row's number, that number's last STOP had been lifted. Its mobed had turned reminders on for it
   while it had the number it had then.
   */
  lemma PostedWithConsent(before: Box, after: Box, e: Evening, tries: seq<Try>, i: nat, ops: seq<Consent.Op>)
    requires PassDid(before, after, e, tries) && i < |tries|
    requires e.book(tries[i].row) == Consent.Run(Consent.EMPTY, ops)
    ensures var st, k := e.book(tries[i].row), tries[i].row;
            && k in st.rows && st.rows[k].record in st.records
            && var row, r := st.rows[k], st.records[st.rows[k].record];
               && r.active && r.enabled && r.stoppedAt.None? && r.owner == Some(row.mobed)
               && Consent.AgreedSince(st.said, row.record, Some(row.mobed), r.phone)
               && (r.phone == row.phone && row.phone in st.optOuts ==>
                     Consent.LiftedSince(st.said, row.record, Some(row.mobed), row.phone))
  {
    hide Late, IsDue, PostOutcome, Heard, Consent.Run, Consent.LiftedSince, Consent.AgreedSince;
    assert RightlyTried(before, after, e, tries[i]);
    Consent.MarkedWithConsent(ops, tries[i].row);
  }

  // --- Evening after evening ---

  /** What happens to the desk in time: passes, and an admin's switch. */
  datatype Turn = PassTurn(e: Evening) | PauseTurn | ResumeTurn

  datatype Seen = Seen(paused: bool, messages: seq<Message>)

  /** Paused, a turn that is not a resume leaves it paused and posts nothing. */
  predicate StaysShut(before: Seen, turn: Turn, after: Seen) {
    before.paused && !turn.ResumeTurn? ==> after == before
  }

  ghost predicate TurnsTruthful(turns: seq<Turn>) {
    forall i :: 0 <= i < |turns| && turns[i].PassTurn? ==> WireTruthful(turns[i].e)
  }

  /** Once paused, by the breaker, an account problem or an admin, nothing is posted until an admin resumes. */
  lemma {:induction false} ShutUntilResumed(seen: seq<Seen>, turns: seq<Turn>, i: nat, j: nat)
    requires |seen| == |turns| + 1 && i <= j <= |turns|
    requires forall k :: 0 <= k < |turns| ==> StaysShut(seen[k], turns[k], seen[k + 1])
    requires seen[i].paused && forall k :: i <= k < j ==> !turns[k].ResumeTurn?
    ensures seen[j] == seen[i]
    decreases j
  {
    if i < j {
      ShutUntilResumed(seen, turns, i, j - 1);
      assert StaysShut(seen[j - 1], turns[j - 1], seen[j - 1 + 1]);
    }
  }

  /** Any number of turns; `seen` is the switch and the messages before the first and after each. */
  method TakeTurns(desk: Desk, s: int, turns: seq<Turn>) returns (ghost seen: seq<Seen>)
    requires desk.Valid() && SenderOf(desk.box, s).Idle? && TurnsTruthful(turns)
    modifies desk
    ensures desk.Valid() && SenderOf(desk.box, s).Idle?
    ensures |seen| == |turns| + 1
    ensures seen[0] == Seen(old(desk.paused), old(desk.box).messages)
    ensures seen[|turns|] == Seen(desk.paused, desk.box.messages)
    ensures forall k :: 0 <= k < |turns| ==> StaysShut(seen[k], turns[k], seen[k + 1])
    ensures forall i, j :: 0 <= i <= j <= |turns| && seen[i].paused && (forall k :: i <= k < j ==> !turns[k].ResumeTurn?) ==>
              seen[j] == seen[i]
  {
    hide Runs, WireTruthful, PassDid, GoesOn;
    seen := [Seen(desk.paused, desk.box.messages)];
    var n := 0;
    while n < |turns|
      invariant 0 <= n <= |turns| && |seen| == n + 1
      invariant desk.Valid() && SenderOf(desk.box, s).Idle?
      invariant seen[0] == Seen(old(desk.paused), old(desk.box).messages)
      invariant seen[n] == Seen(desk.paused, desk.box.messages)
      invariant forall k :: 0 <= k < n ==> StaysShut(seen[k], turns[k], seen[k + 1])
    {
      match turns[n] {
        case PassTurn(e) =>
          var ending, tries := desk.SendPending(s, e);
        case PauseTurn => desk.Pause();
        case ResumeTurn => desk.Resume();
      }
      seen := seen + [Seen(desk.paused, desk.box.messages)];
      n := n + 1;
    }
    forall i, j | 0 <= i <= j <= |turns| && seen[i].paused && (forall k :: i <= k < j ==> !turns[k].ResumeTurn?)
      ensures seen[j] == seen[i]
    {
      ShutUntilResumed(seen, turns, i, j);
    }
  }
}
