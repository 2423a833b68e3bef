/** The create/update/delete plumbing the catalogue screens (products, estados) share:
    the choice between creating and updating a record, what a save reply does to the
    form dialog, and the delete-confirmation dialog a `409 Conflict` opens. */
module Crud {
  import opened Wrappers

  /** The request a form submit sends: a `POST` of the body, or a `PUT` to the record
      being edited. */
  datatype Save<+B> = Create(body: B) | Update(id: int, body: B)

  /** `if (editId) put(.../editId, body) else post(..., body)`. */
  function SaveRequest<B>(editId: Option<int>, body: B): (r: Save<B>)
    ensures r.body == body
    ensures r.Update? <==> Truthy(editId)
    ensures r.Update? ==> r.id == editId.value
  {
    if Truthy(editId) then Update(editId.value, body) else Create(body)
  }

  /** What a save reply does: on success the list is fetched again and the form dialog
      closes; on failure the error is only logged and the dialog stays open. */
  datatype AfterSave = AfterSave(modalOpen: bool, refetch: bool)

  function OnSaveReply(reply: Reply<()>): (r: AfterSave)
    ensures r.refetch <==> reply.Done?
    ensures r.modalOpen <==> !r.refetch
  {
    if reply.Done? then AfterSave(false, true) else AfterSave(true, false)
  }

  /** The id waiting for a forced delete (`confirmDelete`) and the server's warning. */
  datatype DeleteState = DeleteState(confirmDelete: Option<int>, warning: string)

  const NoPendingDelete := DeleteState(None, "")

  /** `isOpen={!!confirmDelete}`: the warning dialog shows for a truthy pending id. */
  predicate DialogOpen(s: DeleteState) {
    Truthy(s.confirmDelete)
  }

  datatype DeleteOutcome = DeleteOutcome(state: DeleteState, refetch: bool)

  /** `handleDelete(id)`: a successful delete re-fetches the list; a `409` records the id
      and the server's `mensajeError` (rendered as nothing when absent); any other failure
      is only logged. */
  function HandleDelete(s: DeleteState, id: int, reply: Reply<()>): (r: DeleteOutcome)
    ensures r.refetch <==> reply.Done?
    ensures reply.Done? ==> r.state == s
    ensures reply.Failed? && reply.failure.status == Some(409) ==>
      r.state == DeleteState(Some(id), reply.failure.serverMessage.GetOr(""))
    ensures reply.Failed? && reply.failure.status != Some(409) ==> r.state == s
  {
    match reply
    case Done(_) => DeleteOutcome(s, true)
    case Failed(f) =>
      if f.status == Some(409) then DeleteOutcome(DeleteState(Some(id), f.serverMessage.GetOr("")), false)
      else DeleteOutcome(s, false)
  }

  /** Only a conflict opens the warning dialog, and only for a truthy id: a `409` on id 0
      records it but `!!0` keeps the dialog closed. Other outcomes leave the dialog as
      it was. */
  lemma ConflictOpensDialog(s: DeleteState, id: int, reply: Reply<()>)
    ensures reply.Failed? && reply.failure.status == Some(409) ==>
      (DialogOpen(HandleDelete(s, id, reply).state) <==> id != 0)
    ensures !(reply.Failed? && reply.failure.status == Some(409)) ==>
      (DialogOpen(HandleDelete(s, id, reply).state) <==> DialogOpen(s))
  {
  }

  /** The Cancel button and closing the dialog: `setConfirmDelete(null)`. */
  function CancelDelete(s: DeleteState): (r: DeleteState)
    ensures !DialogOpen(r)
    ensures r.warning == s.warning
  {
    s.(confirmDelete := None)
  }

  datatype ForceOutcome<+R> = ForceOutcome(state: DeleteState, issued: seq<R>, refetch: bool)

  /** The Eliminar button of the warning dialog: the requests of `plan` are awaited one
      after another, each with its reply; the first failure is logged and stops the
      rest, leaving the dialog open. When all succeed the dialog closes and the list is
      fetched again. */
  function ForceDelete<R>(s: DeleteState, plan: seq<R>, replies: seq<Reply<()>>): (r: ForceOutcome<R>)
    requires |replies| == |plan|
    ensures r.refetch <==> forall k :: 0 <= k < |replies| ==> replies[k].Done?
    ensures r.refetch ==> r.issued == plan && r.state == CancelDelete(s)
    ensures !r.refetch ==> r.state == s
    ensures !r.refetch ==> exists k :: 0 <= k < |plan| && replies[k].Failed? && r.issued == plan[..k + 1]
                                       && forall j :: 0 <= j < k ==> replies[j].Done?
    decreases |plan|
  {
    if plan == [] then ForceOutcome(CancelDelete(s), [], true)
    else if replies[0].Failed? then
      assert plan[..1] == [plan[0]];
      ForceOutcome(s, [plan[0]], false)
    else
      var rest := ForceDelete(s, plan[1..], replies[1..]);
      var r := ForceOutcome(rest.state, [plan[0]] + rest.issued, rest.refetch);
      assert r.refetch ==> forall k :: 0 <= k < |replies| ==> replies[k].Done? by {
        if r.refetch {
          forall k | 0 <= k < |replies| ensures replies[k].Done? {
            if k > 0 {
              assert replies[k] == replies[1..][k - 1];
            }
          }
        }
      }
      assert !r.refetch ==> exists k :: 0 <= k < |plan| && replies[k].Failed? && r.issued == plan[..k + 1]
                                         && forall j :: 0 <= j < k ==> replies[j].Done? by {
        if !r.refetch {
          var k :| 0 <= k < |plan[1..]| && replies[1..][k].Failed? && rest.issued == plan[1..][..k + 1]
                   && forall j :: 0 <= j < k ==> replies[1..][j].Done?;
          assert plan[..k + 2] == [plan[0]] + plan[1..][..k + 1];
          forall j | 0 <= j < k + 1 ensures replies[j].Done? {
            if j > 0 {
              assert replies[j] == replies[1..][j - 1];
            }
          }
        }
      }
      r
  }

  /** A forced delete issues exactly the requests up to and including the first that
      fails, so a later step of the plan is never sent after an earlier one failed. */
  lemma {:induction false} ForceDeleteStopsAtFailure<R>(s: DeleteState, plan: seq<R>, replies: seq<Reply<()>>, k: int)
    requires |replies| == |plan|
    requires 0 <= k < |plan| && replies[k].Failed?
    requires forall j :: 0 <= j < k ==> replies[j].Done?
    ensures ForceDelete(s, plan, replies).issued == plan[..k + 1]
    ensures ForceDelete(s, plan, replies).state == s
  {
    var r := ForceDelete(s, plan, replies);
    assert !r.refetch;
    var k' :| 0 <= k' < |plan| && replies[k'].Failed? && r.issued == plan[..k' + 1]
              && forall j :: 0 <= j < k' ==> replies[j].Done?;
    assert k' == k;
  }
}
