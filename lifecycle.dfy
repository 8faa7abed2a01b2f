/** The status lifecycle. The store accepts any new status; the transitions a
    user can actually make are the buttons the request card and the detail
    view render for a record's current status. */
module Lifecycle {
  import opened RequestModel

  /** The transition table, as data: current status to the statuses offered. */
  const Transitions: map<string, seq<string>> := map[
    PendingStatus := [InProgressStatus],
    InProgressStatus := [RescuedStatus, PendingStatus],
    RescuedStatus := []]

  /** Targets of the buttons in a dashboard card: "Start Rescue" on a pending
      record, "Mark as Rescued" on one in progress, nothing otherwise. */
  function CardActions(status: string): (targets: seq<string>)
    ensures forall t :: t in targets ==> status in Transitions && t in Transitions[status]
    ensures |targets| <= 1
    ensures targets != [] <==> status == PendingStatus || status == InProgressStatus
    ensures status == InProgressStatus ==> targets == [RescuedStatus]
  {
    if status == RescuedStatus then []
    else if status == PendingStatus then [InProgressStatus]
    else if status == InProgressStatus then [RescuedStatus]
    else []
  }

  /** Targets of the buttons in the detail view, in the order they appear;
      besides the card's it offers "Move to Pending" on a record in progress. */
  function DetailActions(status: string): (targets: seq<string>)
    ensures targets == if status in Transitions then Transitions[status] else []
  {
    if status == RescuedStatus then []
    else if status == PendingStatus then [InProgressStatus]
    else if status == InProgressStatus then [RescuedStatus, PendingStatus]
    else []
  }

  predicate Allowed(from: string, to: string) {
    to in DetailActions(from)
  }

  /** Rescued is terminal, no status is offered as a target of itself, the
      only way back to pending is from in progress, and every offered
      target is one of the three statuses. */
  lemma TransitionFacts(from: string, to: string)
    ensures from == RescuedStatus ==> !Allowed(from, to)
    ensures Allowed(from, to) ==> from != to && IsKnownStatus(from) && IsKnownStatus(to)
    ensures Allowed(from, to) && to == PendingStatus ==> from == InProgressStatus
    ensures Allowed(from, to) <==>
      (from == PendingStatus && to == InProgressStatus) ||
      (from == InProgressStatus && (to == RescuedStatus || to == PendingStatus))
  {
  }

  /** Statuses reachable from `from` in at most n user actions. */
  function Reachable(from: string, n: nat): (r: set<string>)
    ensures from in r
    ensures forall t :: t in r ==> (IsKnownStatus(t) || t == from)
  {
    if n == 0 then {from}
    else Reachable(from, n - 1) + set s, t | s in Reachable(from, n - 1) && t in DetailActions(s) :: t
  }

  /** Once rescued, a record stays rescued however many actions follow. */
  lemma {:induction false} RescuedIsTerminal(n: nat)
    ensures Reachable(RescuedStatus, n) == {RescuedStatus}
  {
    if n > 0 {
      RescuedIsTerminal(n - 1);
    }
  }
}
