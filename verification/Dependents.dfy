/**
 What hangs off an event, machi or booking: payments and notices. Deleting the event takes them with it, unless money
 has changed hands.
 */
module Dependents {
  /** A payment for an event; settled once it was received or refunded, no longer pending. */
  datatype Payment = Payment(about: int, settled: bool)

  /** The events with a settled payment. */
  function SettledFor(payments: map<int, Payment>): set<int> {
    set p | p in payments && payments[p].settled :: payments[p].about
  }

  function Without(payments: map<int, Payment>, victims: set<int>): map<int, Payment> {
    map p | p in payments && payments[p].about !in victims :: payments[p]
  }

  /** Each notice names the event it is about. */
  function NoticesWithout(notices: map<int, int>, victims: set<int>): map<int, int> {
    map n | n in notices && notices[n] !in victims :: notices[n]
  }

  lemma SettledAmong(payments: map<int, Payment>, victims: set<int>)
    ensures (exists v :: v in victims && v in SettledFor(payments))
            <==> exists p :: p in payments && payments[p].about in victims && payments[p].settled
  {
    if p :| p in payments && payments[p].about in victims && payments[p].settled {
      assert payments[p].about in SettledFor(payments);
    }
  }

  /**
   Remove what hangs off these events, their pending payments and their notices; refuse, with nothing removed, when
   one of the payments is settled.
   */
  method ClearDependents(payments: map<int, Payment>, notices: map<int, int>, victims: set<int>)
    returns (ok: bool, leftPayments: map<int, Payment>, leftNotices: map<int, int>)
    ensures ok <==> !exists v :: v in victims && v in SettledFor(payments)
    ensures leftPayments == if ok then Without(payments, victims) else payments
    ensures leftNotices == if ok then NoticesWithout(notices, victims) else notices
  {
    SettledAmong(payments, victims);
    if exists p :: p in payments && payments[p].about in victims && payments[p].settled {
      return false, payments, notices;
    }
    leftPayments := map p | p in payments && payments[p].about !in victims :: payments[p];
    leftNotices := map n | n in notices && notices[n] !in victims :: notices[n];
    return true, leftPayments, leftNotices;
  }

  lemma ClearedStand(payments: map<int, Payment>, notices: map<int, int>, victims: set<int>)
    ensures forall p :: p in Without(payments, victims) ==>
              p in payments && Without(payments, victims)[p] == payments[p] && payments[p].about !in victims
    ensures forall n :: n in NoticesWithout(notices, victims) ==>
              n in notices && NoticesWithout(notices, victims)[n] == notices[n] && notices[n] !in victims
  {
  }
}
