/**
 The reminder outbox as a protocol. Any number of senders run at once; each may crash at any moment, lose
 the answer to what it posted, or be so slow that another closes its row as stuck. A posted message lives
 on by itself: it may be accepted long after its sender is gone. One step is one committed transaction,
 one hand-over to WhatsApp, or one decision of WhatsApp's.
 */
module Outbox {
  import opened Results

  const MAX_ATTEMPTS := 3
  const ACCOUNT_CODES := {190, 131042, 131031, 131048, 130429, 80007, 368, 132001, 132015, 132016}
  const RECIPIENT_CODES := {131026, 131021, 131030}

  datatype Status = Pending | Sending | Sent | Delivered | Read | Failed

  /**
   A reminder row. `about` is the observance it was made for; `linked` turns false when that observance is
   deleted. `messageId` is what WhatsApp called the message, if it said.
   */
  datatype Row = Row(about: int, linked: bool, scheduledAt: int, status: Status, retryCount: nat, messageId: Option<int>)

  /** What WhatsApp does with a message, whether or not anyone hears of it. */
  datatype Fate = Flying | Accepted | Refused

  datatype Message = Message(row: int, fate: Fate)

  datatype Sender =
    | Idle
    | Claimed(row: int)
    | Waiting(row: int, message: nat)

  datatype Box = Box(
    rows: map<int, Row>, nextId: nat, observances: set<int>, past: set<int>,
    messages: seq<Message>, senders: map<int, Sender>)

  // --- What a post comes back as ---

  /** What the wire gave back: no connection, silence, or an answer. */
  datatype Reply =
    | NotSent
    | NoAnswer
    | Answered(httpStatus: int, code: Option<int>, messageId: bool)

  datatype Outcome =
    | Success(hasId: bool)
    | AccountProblem
    | Permanent(code: Option<int>)
    | Unknown
    | Transient

  function PostOutcome(reply: Reply): Outcome {
    match reply
    case NotSent => Transient
    case NoAnswer => Unknown
    case Answered(httpStatus, code, messageId) =>
      if httpStatus == 200 then Success(messageId)
      else if code.Some? && code.value in ACCOUNT_CODES then AccountProblem
      else if 400 <= httpStatus < 500 && httpStatus != 429 then Permanent(code)
      else Transient
  }

  /**
   The one thing taken on trust about WhatsApp. An answer that will be tried again means the message was
   refused for good, and 200 means it was accepted; no other answer, and no silence, is trusted.
   */
  predicate Truthful(reply: Reply, fate: Fate) {
    match PostOutcome(reply)
    case Success(_) => fate == Accepted
    case AccountProblem => fate == Refused
    case Transient => fate == Refused
    case _ => true
  }

  /** The row once its sender has heard `outcome`. */
  function Heard(row: Row, outcome: Outcome, message: int): Row {
    match outcome
    case Success(hasId) => row.(status := Sent, messageId := if hasId then Some(message) else None)
    case AccountProblem => row.(status := Pending)
    case Permanent(_) => row.(status := Failed)
    case Unknown => row.(status := Failed)
    case Transient =>
      row.(retryCount := row.retryCount + 1, status := if row.retryCount + 1 >= MAX_ATTEMPTS then Failed else Pending)
  }

  // --- What a row comes to, by the reply alone ---

  /** Meta's codes for trouble with the account rather than with one recipient. */
  predicate IsAccountTrouble(reply: Reply) {
    reply.Answered? && reply.httpStatus != 200 && reply.code.Some?
    && reply.code.value in {190, 131042, 131031, 131048, 130429, 80007, 368, 132001, 132015, 132016}
  }

  /** An answer that repeating will not change: 4xx, but not "slow down". */
  predicate IsRefusal(reply: Reply) {
    reply.Answered? && !IsAccountTrouble(reply) && 400 <= reply.httpStatus <= 499 && reply.httpStatus != 429
  }

  predicate IsAccepted(reply: Reply) {
    reply.Answered? && reply.httpStatus == 200
  }

  /** Not sent at all, or an outage, or "slow down". */
  predicate IsPassing(reply: Reply) {
    !reply.NoAnswer? && !IsAccepted(reply) && !IsAccountTrouble(reply) && !IsRefusal(reply)
  }

  /**
   How a row that was being sent ends. Accepted: sent, with an id exactly if one came. Account trouble: pending as
   before. Refused, or no answer: failed. Anything passing: one more try used up, pending before the third and failed
   at it.
   */
  predicate EndsAs(row: Row, reply: Reply, after: Row) {
    && after.about == row.about && after.linked == row.linked && after.scheduledAt == row.scheduledAt
    && (IsAccepted(reply) ==>
          after.status == Sent && after.retryCount == row.retryCount && after.messageId.Some? == reply.messageId)
    && (!IsAccepted(reply) ==> after.messageId == row.messageId)
    && (IsAccountTrouble(reply) ==> after.status == Pending && after.retryCount == row.retryCount)
    && (IsRefusal(reply) || reply.NoAnswer? ==> after.status == Failed && after.retryCount == row.retryCount)
    && (IsPassing(reply) ==>
          after.retryCount == row.retryCount + 1 && after.status == if row.retryCount + 1 < 3 then Pending else Failed)
  }

  lemma HeardEndsAs(row: Row, reply: Reply, message: int)
    ensures EndsAs(row, reply, Heard(row, PostOutcome(reply), message))
  {
  }

  /** The five ways a post can come out, each by the reply alone. */
  lemma OutcomeIs(reply: Reply)
    ensures PostOutcome(reply).Success? <==> IsAccepted(reply)
    ensures PostOutcome(reply).AccountProblem? <==> IsAccountTrouble(reply)
    ensures PostOutcome(reply).Permanent? <==> IsRefusal(reply)
    ensures PostOutcome(reply).Unknown? <==> reply.NoAnswer?
    ensures PostOutcome(reply).Transient? <==> IsPassing(reply)
    ensures IsRefusal(reply) ==> PostOutcome(reply) == Permanent(reply.code)
  {
  }

  function Rank(status: Status): nat {
    match status
    case Sent => 1
    case Delivered => 2
    case Read => 3
    case _ => 0
  }

  /** A receipt only ever moves a row forward, or fails it. */
  function Receipted(row: Row, receipt: Status): Row {
    if receipt == Failed then row.(status := Failed)
    else if (receipt == Delivered || receipt == Read) && Rank(receipt) > Rank(row.status) then row.(status := receipt)
    else row
  }

  // --- Steps ---

  datatype Step =
    | Observe(obs: int)                       // a memorial gains an observance
    | Unobserve(obs: int)                     // an observance is deleted; its row stays, unlinked
    | Insert(obs: int, scheduledAt: int, refused: bool)  // the planner, on conflict do nothing
    | Drop(row: int)                          // too late, or consent withdrawn: a pending row fails
    | Claim(sender: int, row: int)            // pending to sending, committed before posting
    | Post(sender: int)                       // the request leaves
    | Decide(message: int, accepted: bool)    // WhatsApp accepts or refuses, whenever it likes
    | Hear(sender: int, reply: Reply)         // the answer, or the lack of one, reaches the sender
    | Crash(sender: int)                      // the sender is gone; what it posted is not
    | CloseStuck(row: int)                    // a row left sending is closed as failed
    | Receive(message: int, receipt: Status)  // a delivery receipt

  function SenderOf(box: Box, s: int): Sender {
    if s in box.senders then box.senders[s] else Idle
  }

  predicate HasRowFor(box: Box, obs: int) {
    exists r :: r in box.rows && box.rows[r].linked && box.rows[r].about == obs
  }

  predicate Enabled(box: Box, step: Step) {
    match step
    case Observe(obs) => obs !in box.past
    case Unobserve(obs) => obs in box.observances
    case Insert(obs, _, _) => obs in box.observances
    case Drop(r) => r in box.rows && box.rows[r].status == Pending
    case Claim(s, r) => SenderOf(box, s).Idle? && r in box.rows && box.rows[r].status == Pending
    case Post(s) => SenderOf(box, s).Claimed?
    case Decide(m, _) => 0 <= m < |box.messages| && box.messages[m].fate == Flying
    case Hear(s, reply) =>
      (match SenderOf(box, s)
       case Idle => false
       case Claimed(r) => reply == NotSent && r in box.rows
       case Waiting(r, m) => reply != NotSent && r in box.rows && m < |box.messages| && Truthful(reply, box.messages[m].fate))
    case Crash(_) => true
    case CloseStuck(r) => r in box.rows && box.rows[r].status == Sending
    case Receive(m, _) => 0 <= m < |box.messages| && box.messages[m].fate == Accepted
  }

  function Unlinked(rows: map<int, Row>, obs: int): map<int, Row> {
    map r | r in rows :: if rows[r].about == obs then rows[r].(linked := false) else rows[r]
  }

  function AllReceipted(rows: map<int, Row>, m: int, receipt: Status): map<int, Row> {
    map r | r in rows :: if rows[r].messageId == Some(m) then Receipted(rows[r], receipt) else rows[r]
  }

  function Apply(box: Box, step: Step): Box
    requires Enabled(box, step)
  {
    match step
    case Observe(obs) => box.(observances := box.observances + {obs}, past := box.past + {obs})
    case Unobserve(obs) => box.(observances := box.observances - {obs}, rows := Unlinked(box.rows, obs))
    case Insert(obs, scheduledAt, refused) =>
      if HasRowFor(box, obs) then box
      else
        var row := Row(obs, true, scheduledAt, if refused then Failed else Pending, 0, None);
        box.(rows := box.rows[box.nextId := row], nextId := box.nextId + 1)
    case Drop(r) => box.(rows := box.rows[r := box.rows[r].(status := Failed)])
    case Claim(s, r) => box.(rows := box.rows[r := box.rows[r].(status := Sending)], senders := box.senders[s := Claimed(r)])
    case Post(s) =>
      var r := SenderOf(box, s).row;
      box.(messages := box.messages + [Message(r, Flying)], senders := box.senders[s := Waiting(r, |box.messages|)])
    case Decide(m, accepted) =>
      box.(messages := box.messages[m := box.messages[m].(fate := if accepted then Accepted else Refused)])
    case Hear(s, reply) =>
      var holder := SenderOf(box, s);
      var r, m := holder.row, if holder.Waiting? then holder.message else -1;
      box.(rows := box.rows[r := Heard(box.rows[r], PostOutcome(reply), m)], senders := box.senders[s := Idle])
    case Crash(s) => box.(senders := box.senders[s := Idle])
    case CloseStuck(r) => box.(rows := box.rows[r := box.rows[r].(status := Failed)])
    case Receive(m, receipt) => box.(rows := AllReceipted(box.rows, m, receipt))
  }

  const EMPTY := Box(map[], 0, {}, {}, [], map[])

  /** A run: every step enabled where it is taken. */
  predicate Runs(box: Box, steps: seq<Step>, end: Box)
    decreases |steps|
  {
    if steps == [] then end == box
    else Enabled(box, steps[0]) && Runs(Apply(box, steps[0]), steps[1..], end)
  }

  // --- The invariant ---

  /** Every message about the row, but perhaps `m`, has been refused. */
  predicate SettledBut(box: Box, r: int, m: int) {
    forall i :: 0 <= i < |box.messages| && i != m && box.messages[i].row == r ==> box.messages[i].fate == Refused
  }

  predicate Holds(sender: Sender, r: int) {
    !sender.Idle? && sender.row == r
  }

  predicate Held(box: Box, r: int) {
    exists s :: s in box.senders && Holds(box.senders[s], r)
  }

  /** Nothing about a pending row was accepted, is in flight, or is in anyone's hands. */
  ghost predicate PendingIsSafe(box: Box) {
    forall r :: r in box.rows && box.rows[r].status == Pending ==> SettledBut(box, r, -1) && !Held(box, r)
  }

  ghost predicate HolderIsSafe(box: Box, s: int)
    requires s in box.senders
  {
    match box.senders[s]
    case Idle => true
    case Claimed(r) => r in box.rows && SettledBut(box, r, -1)
    case Waiting(r, m) => r in box.rows && m < |box.messages| && box.messages[m].row == r && SettledBut(box, r, m)
  }

  ghost predicate HoldersAreSafe(box: Box) {
    && (forall s :: s in box.senders ==> HolderIsSafe(box, s))
    && (forall s, t, r :: s in box.senders && t in box.senders && s != t && Holds(box.senders[s], r) ==> !Holds(box.senders[t], r))
  }

  /** At most one message about a row is not refused. */
  ghost predicate OneLive(box: Box) {
    forall i, j :: 0 <= i < j < |box.messages| && box.messages[i].row == box.messages[j].row ==>
      box.messages[i].fate == Refused || box.messages[j].fate == Refused
  }

  ghost predicate WasAccepted(box: Box, r: int) {
    exists m :: 0 <= m < |box.messages| && box.messages[m] == Message(r, Accepted)
  }

  /** A row that says it was sent was accepted, and its message id names a message of its own. */
  ghost predicate RowSaysTrue(box: Box, r: int)
    requires r in box.rows
  {
    && (box.rows[r].status in {Sent, Delivered, Read} ==> WasAccepted(box, r))
    && (box.rows[r].messageId.Some? ==>
          && 0 <= box.rows[r].messageId.value < |box.messages|
          && box.messages[box.rows[r].messageId.value] == Message(r, Accepted))
  }

  ghost predicate SaysTrue(box: Box) {
    forall r :: r in box.rows ==> RowSaysTrue(box, r)
  }

  /** One row for an observance, ever. */
  ghost predicate OneRowEach(box: Box) {
    && box.observances <= box.past
    && (forall r :: r in box.rows ==> 0 <= r < box.nextId && box.rows[r].about in box.past)
    && (forall r :: r in box.rows && box.rows[r].about in box.observances ==> box.rows[r].linked)
    && (forall q, r :: q in box.rows && r in box.rows && q != r ==> box.rows[q].about != box.rows[r].about)
    && (forall m :: 0 <= m < |box.messages| ==> box.messages[m].row in box.rows)
  }

  ghost predicate Sound(box: Box) {
    PendingIsSafe(box) && HoldersAreSafe(box) && OneLive(box) && SaysTrue(box) && OneRowEach(box)
  }

  lemma StartsSound()
    ensures Sound(EMPTY)
  {
  }

  lemma NoRowFor(box: Box, obs: int, r: int)
    requires OneRowEach(box) && obs in box.observances && !HasRowFor(box, obs) && r in box.rows
    ensures box.rows[r].about != obs
  {
  }

  lemma StepKeepsRows(box: Box, step: Step)
    requires OneRowEach(box) && HoldersAreSafe(box) && Enabled(box, step)
    ensures OneRowEach(Apply(box, step))
  {
    hide PostOutcome, Truthful, HasRowFor, Receipted, Heard;
    if step.Post? {
      assert HolderIsSafe(box, step.sender);
    }
    if step.Insert? && !HasRowFor(box, step.obs) {
      forall r | r in box.rows
        ensures box.rows[r].about != step.obs
      {
        NoRowFor(box, step.obs, r);
      }
    }
    if step.Receive? {
      forall r | r in box.rows
        ensures Receipted(box.rows[r], step.receipt).about == box.rows[r].about && Receipted(box.rows[r], step.receipt).linked == box.rows[r].linked
      {
        ReceiptKeepsRow(box.rows[r], step.receipt);
      }
    }
    if step.Hear? {
      HeardKeepsRow(box.rows[SenderOf(box, step.sender).row], step.reply);
    }
  }

  lemma ReceiptKeepsRow(row: Row, receipt: Status)
    ensures Receipted(row, receipt).about == row.about && Receipted(row, receipt).linked == row.linked
  {
  }

  lemma HeardKeepsRow(row: Row, reply: Reply)
    ensures forall m :: Heard(row, PostOutcome(reply), m).about == row.about && Heard(row, PostOutcome(reply), m).linked == row.linked
  {
  }

  lemma StepKeepsOneLive(box: Box, step: Step)
    requires HoldersAreSafe(box) && OneLive(box) && Enabled(box, step)
    ensures OneLive(Apply(box, step))
  {
    hide PostOutcome, Truthful, Heard, Receipted;
    if step.Post? {
      assert HolderIsSafe(box, step.sender);
    }
  }

  /** What was accepted stays accepted, and messages keep their places. */
  lemma AcceptedStays(box: Box, step: Step, m: int)
    requires Enabled(box, step) && 0 <= m < |box.messages| && box.messages[m].fate == Accepted
    ensures m < |Apply(box, step).messages| && Apply(box, step).messages[m] == box.messages[m]
  {
    hide PostOutcome, Truthful, Heard, Receipted, HasRowFor, Unlinked, AllReceipted;
  }

  lemma AcceptedRowStays(box: Box, step: Step, r: int)
    requires Enabled(box, step) && WasAccepted(box, r)
    ensures WasAccepted(Apply(box, step), r)
  {
    hide Enabled, Apply;
    var m :| 0 <= m < |box.messages| && box.messages[m] == Message(r, Accepted);
    AcceptedStays(box, step, m);
  }

  /** The row a sender hears about says no more than it heard. */
  lemma HeardSaysTrue(box: Box, s: int, reply: Reply)
    requires HoldersAreSafe(box) && SaysTrue(box) && Enabled(box, Hear(s, reply))
    ensures RowSaysTrue(Apply(box, Hear(s, reply)), SenderOf(box, s).row)
  {
    var r := SenderOf(box, s).row;
    assert HolderIsSafe(box, s) && RowSaysTrue(box, r);
    var after := Apply(box, Hear(s, reply));
    if SenderOf(box, s).Waiting? && PostOutcome(reply).Success? {
      assert after.messages[SenderOf(box, s).message] == Message(r, Accepted);
    }
  }

  lemma RowKeepsSaying(box: Box, step: Step, r: int)
    requires SaysTrue(box) && OneRowEach(box) && Enabled(box, step) && r in Apply(box, step).rows
    requires step.Hear? ==> r != SenderOf(box, step.sender).row
    ensures RowSaysTrue(Apply(box, step), r)
  {
    hide PostOutcome, Truthful, Heard, WasAccepted, HasRowFor;
    if r in box.rows {
      assert RowSaysTrue(box, r);
      if WasAccepted(box, r) {
        AcceptedRowStays(box, step, r);
      }
      if box.rows[r].messageId.Some? {
        AcceptedStays(box, step, box.rows[r].messageId.value);
        AcceptedIs(box, box.rows[r].messageId.value, r);
        AcceptedRowStays(box, step, r);
      }
    }
  }

  lemma AcceptedIs(box: Box, m: int, r: int)
    requires 0 <= m < |box.messages| && box.messages[m] == Message(r, Accepted)
    ensures WasAccepted(box, r)
  {
  }

  lemma StepKeepsSaying(box: Box, step: Step)
    requires HoldersAreSafe(box) && SaysTrue(box) && OneRowEach(box) && Enabled(box, step)
    ensures SaysTrue(Apply(box, step))
  {
    hide Apply, RowSaysTrue, HoldersAreSafe, OneRowEach, Truthful, PostOutcome;
    var after := Apply(box, step);
    forall r | r in after.rows
      ensures RowSaysTrue(after, r)
    {
      if step.Hear? && r == SenderOf(box, step.sender).row {
        HeardSaysTrue(box, step.sender, step.reply);
      } else {
        RowKeepsSaying(box, step, r);
      }
    }
  }

  lemma StepKeepsHolders(box: Box, step: Step)
    requires PendingIsSafe(box) && HoldersAreSafe(box) && Enabled(box, step)
    ensures HoldersAreSafe(Apply(box, step))
  {
    hide PostOutcome, Truthful, Heard, Receipted;
    var after := Apply(box, step);
    forall s | s in after.senders
      ensures HolderIsSafe(after, s)
    {
      if s in box.senders {
        assert HolderIsSafe(box, s);
      }
      if step.Post? && step.sender in box.senders {
        assert HolderIsSafe(box, step.sender);
        assert s != step.sender && s in box.senders && !box.senders[s].Idle? ==> !Holds(box.senders[s], box.senders[step.sender].row);
      }
    }
  }

  /** How a row comes to be pending: it was, it is new, or its sender heard that it was refused. */
  lemma HowPending(box: Box, step: Step, r: int)
    requires OneRowEach(box) && Enabled(box, step)
    requires r in Apply(box, step).rows && Apply(box, step).rows[r].status == Pending
    ensures r !in box.rows || box.rows[r].status == Pending || (step.Hear? && Holds(SenderOf(box, step.sender), r))
    ensures r !in box.rows ==> step.Insert? && r == box.nextId
    ensures step.Hear? && Holds(SenderOf(box, step.sender), r) && SenderOf(box, step.sender).Waiting? ==>
              box.messages[SenderOf(box, step.sender).message].fate == Refused || box.rows[r].status == Pending
  {
  }

  lemma PendingSettled(box: Box, step: Step, r: int)
    requires PendingIsSafe(box) && HoldersAreSafe(box) && OneRowEach(box) && Enabled(box, step)
    requires r in Apply(box, step).rows && Apply(box, step).rows[r].status == Pending
    ensures SettledBut(Apply(box, step), r, -1)
  {
    hide PostOutcome, Truthful, Heard, Receipted;
    HowPending(box, step, r);
    if (step.Hear? || step.Post?) && step.sender in box.senders {
      assert HolderIsSafe(box, step.sender);
    }
    if step.Post? {
      assert !Held(box, r);
    }
  }

  lemma PendingFree(box: Box, step: Step, r: int)
    requires PendingIsSafe(box) && HoldersAreSafe(box) && OneRowEach(box) && Enabled(box, step)
    requires r in Apply(box, step).rows && Apply(box, step).rows[r].status == Pending
    ensures !Held(Apply(box, step), r)
  {
    hide PostOutcome, Truthful, Heard, Receipted, SettledBut;
    HowPending(box, step, r);
    var after := Apply(box, step);
    forall s | s in after.senders
      ensures !Holds(after.senders[s], r)
    {
      if s in box.senders {
        assert HolderIsSafe(box, s);
      }
      assert box.rows.Keys == after.rows.Keys || step.Insert?;
    }
  }

  lemma StepKeepsPending(box: Box, step: Step)
    requires PendingIsSafe(box) && HoldersAreSafe(box) && OneRowEach(box) && Enabled(box, step)
    ensures PendingIsSafe(Apply(box, step))
  {
    hide Apply, Held, SettledBut;
    var after := Apply(box, step);
    forall r | r in after.rows && after.rows[r].status == Pending
      ensures SettledBut(after, r, -1) && !Held(after, r)
    {
      PendingSettled(box, step, r);
      PendingFree(box, step, r);
    }
  }

  /** What every run keeps. */
  lemma {:induction false} RunKeepsSound(box: Box, steps: seq<Step>, end: Box)
    requires Sound(box) && Runs(box, steps, end)
    ensures Sound(end)
    decreases |steps|
  {
    if steps != [] {
      hide Enabled, Apply, PendingIsSafe, HoldersAreSafe, OneLive, SaysTrue, OneRowEach;
      StepKeepsRows(box, steps[0]);
      StepKeepsOneLive(box, steps[0]);
      StepKeepsSaying(box, steps[0]);
      StepKeepsHolders(box, steps[0]);
      StepKeepsPending(box, steps[0]);
      RunKeepsSound(Apply(box, steps[0]), steps[1..], end);
    }
  }

  // --- What each step does to the rows ---

  /** No row but, perhaps, `r` has changed, and none has come or gone. */
  ghost predicate OnlyRow(box: Box, after: Box, r: int) {
    && after.rows.Keys == box.rows.Keys
    && forall q :: q in box.rows && q != r ==> after.rows[q] == box.rows[q]
  }

  /** A receipt, in words: what it says of a row that had got as far as this. */
  predicate ReceiptSays(row: Row, receipt: Status, after: Row) {
    && after.(status := row.status) == row
    && (receipt == Failed ==> after.status == Failed)
    && (receipt == Read ==> after.status == Read)
    && (receipt == Delivered ==> after.status == if row.status == Read then Read else Delivered)
    && (receipt != Failed && receipt != Read && receipt != Delivered ==> after == row)
  }

  /** Receipts reach exactly the row whose message they are about, and never move it back. */
  lemma ReceiptsMoveForward(box: Box, m: int, receipt: Status)
    requires Enabled(box, Receive(m, receipt))
    ensures var after := Apply(box, Receive(m, receipt));
            && after.(rows := box.rows) == box && after.rows.Keys == box.rows.Keys
            && (forall r :: r in box.rows && box.rows[r].messageId != Some(m) ==> after.rows[r] == box.rows[r])
            && (forall r :: r in box.rows && box.rows[r].messageId == Some(m) ==>
                  ReceiptSays(box.rows[r], receipt, after.rows[r]))
  {
  }

  /** An observance gets its row if it has none, pending unless refused, with nothing tried yet; no other row changes. */
  lemma InsertedIs(box: Box, obs: int, scheduledAt: int, refused: bool)
    requires OneRowEach(box) && Enabled(box, Insert(obs, scheduledAt, refused))
    ensures var after := Apply(box, Insert(obs, scheduledAt, refused));
            && after.messages == box.messages && after.senders == box.senders
            && (forall r :: r in box.rows ==> r in after.rows && after.rows[r] == box.rows[r])
            && ((exists r :: r in box.rows && box.rows[r].about == obs) ==> after == box)
            && ((forall r :: r in box.rows ==> box.rows[r].about != obs) ==>
                 && after.rows.Keys == box.rows.Keys + {box.nextId} && box.nextId !in box.rows
                 && after.rows[box.nextId] == Row(obs, true, scheduledAt, if refused then Failed else Pending, 0, None))
  {
  }

  /** Claiming marks the row and nothing else; posting, deciding and crashing touch no row; dropping and closing fail theirs. */
  lemma StepsOnRows(box: Box, step: Step)
    requires Enabled(box, step)
    ensures step.Post? || step.Decide? || step.Crash? || step.Observe? ==> Apply(box, step).rows == box.rows
    ensures step.Claim? || step.Drop? || step.CloseStuck? ==>
              var after := Apply(box, step);
              && OnlyRow(box, after, step.row) && after.messages == box.messages
              && after.rows[step.row].(status := box.rows[step.row].status) == box.rows[step.row]
              && after.rows[step.row].status == (if step.Claim? then Sending else Failed)
              && box.rows[step.row].status == if step.CloseStuck? then Sending else Pending
    ensures step.Hear? ==>
              var after, r := Apply(box, step), SenderOf(box, step.sender).row;
              && OnlyRow(box, after, r) && after.messages == box.messages && EndsAs(box.rows[r], step.reply, after.rows[r])
    ensures step.Unobserve? ==>
              var after := Apply(box, step);
              && after.rows.Keys == box.rows.Keys && after.messages == box.messages
              && forall r :: r in box.rows ==>
                   after.rows[r] == if box.rows[r].about == step.obs then box.rows[r].(linked := false) else box.rows[r]
  {
    hide Truthful, Heard, PostOutcome, Receipted, HasRowFor, EndsAs;
    if step.Hear? {
      var holder := SenderOf(box, step.sender);
      HeardEndsAs(box.rows[holder.row], step.reply, if holder.Waiting? then holder.message else -1);
    }
  }

  /** What each step does to the messages and the senders, and to the observances there are. */
  lemma StepsOnTheRest(box: Box, step: Step)
    requires Enabled(box, step)
    ensures var after := Apply(box, step);
            && (!step.Post? && !step.Decide? ==> after.messages == box.messages)
            && (step.Post? ==>
                 && after.messages == box.messages + [Message(SenderOf(box, step.sender).row, Flying)]
                 && SenderOf(after, step.sender) == Waiting(SenderOf(box, step.sender).row, |box.messages|))
            && (step.Decide? ==>
                 && |after.messages| == |box.messages|
                 && after.messages[step.message] == Message(box.messages[step.message].row, if step.accepted then Accepted else Refused)
                 && forall m :: 0 <= m < |box.messages| && m != step.message ==> after.messages[m] == box.messages[m])
            && (step.Claim? ==> SenderOf(after, step.sender) == Claimed(step.row))
            && (step.Hear? || step.Crash? ==> SenderOf(after, step.sender) == Idle)
            && (step.Claim? || step.Post? || step.Hear? || step.Crash? ==>
                 forall s :: s != step.sender ==> SenderOf(after, s) == SenderOf(box, s))
            && (!step.Claim? && !step.Post? && !step.Hear? && !step.Crash? ==> after.senders == box.senders)
            && (forall o :: o in after.observances <==>
                  (o in box.observances && !(step.Unobserve? && o == step.obs)) || (step.Observe? && o == step.obs))
  {
    hide Truthful, Heard, PostOutcome, Receipted, HasRowFor;
  }

  /** How many messages WhatsApp has accepted about an observance. */
  ghost function AcceptedAbout(box: Box, messages: seq<Message>, obs: int): nat {
    if messages == [] then 0
    else
      var last := messages[|messages| - 1];
      AcceptedAbout(box, messages[..|messages| - 1], obs)
      + if last.fate == Accepted && last.row in box.rows && box.rows[last.row].about == obs then 1 else 0
  }

  lemma {:induction false} NoneAbout(box: Box, messages: seq<Message>, obs: int)
    requires forall m :: 0 <= m < |messages| && messages[m].row in box.rows && box.rows[messages[m].row].about == obs ==>
               messages[m].fate != Accepted
    ensures AcceptedAbout(box, messages, obs) == 0
  {
    if messages != [] {
      NoneAbout(box, messages[..|messages| - 1], obs);
    }
  }

  lemma {:induction false} AtMostOneAbout(box: Box, messages: seq<Message>, obs: int)
    requires Sound(box) && messages <= box.messages
    ensures AcceptedAbout(box, messages, obs) <= 1
  {
    hide PendingIsSafe, HoldersAreSafe, SaysTrue;
    if messages != [] {
      var front, last := messages[..|messages| - 1], messages[|messages| - 1];
      AtMostOneAbout(box, front, obs);
      if last.fate == Accepted && last.row in box.rows && box.rows[last.row].about == obs {
        forall m | 0 <= m < |front| && front[m].row in box.rows && box.rows[front[m].row].about == obs
          ensures front[m].fate != Accepted
        {
          assert box.messages[m] == front[m] && box.messages[|messages| - 1] == last;
        }
        NoneAbout(box, front, obs);
      }
    }
  }

  /**
   In every run, however many senders interleave, crash or lose answers: WhatsApp accepts at most one
   message about an observance, and none at all about one whose row is still pending.
   */
  lemma AtMostOncePerObservance(steps: seq<Step>, end: Box, obs: int)
    requires Runs(EMPTY, steps, end)
    ensures AcceptedAbout(end, end.messages, obs) <= 1
    ensures forall r :: r in end.rows && end.rows[r].status == Pending ==> !WasAccepted(end, r)
    ensures forall r :: r in end.rows && end.rows[r].status in {Sent, Delivered, Read} ==> WasAccepted(end, r)
    ensures forall q, r :: q in end.rows && r in end.rows && end.rows[q].about == end.rows[r].about ==> q == r
  {
    StartsSound();
    RunKeepsSound(EMPTY, steps, end);
    AtMostOneAbout(end, end.messages, obs);
    forall r | r in end.rows && end.rows[r].status == Pending
      ensures !WasAccepted(end, r)
    {
      assert SettledBut(end, r, -1);
    }
  }
}
