/** The estados screen: the list filtered by name, the one-field form that creates or
    renames an estado, and deleting one that is still in use. */
module Estados {
  import opened Wrappers
  import opened Seqs
  import opened Text
  import opened Crud

  datatype Estado = Estado(id: int, nombre: string)

  function Matching(search: string): Estado -> bool {
    (e: Estado) => Contains(ToLower(e.nombre), ToLower(search))
  }

  /** `filteredEstados`: the estados whose lower-cased name includes the lower-cased search
      as typed (it is not trimmed), in list order. */
  function Filtrados(es: seq<Estado>, search: string): (r: seq<Estado>)
    ensures IsSubseq(r, es)
    ensures forall e :: e in r <==> e in es && Contains(ToLower(e.nombre), ToLower(search))
    ensures forall e ::
      multiset(r)[e] == (if Contains(ToLower(e.nombre), ToLower(search)) then multiset(es)[e] else 0)
    ensures search == "" ==> r == es
  {
    FilterIsSubseq(es, Matching(search));
    FilterCounts(es, Matching(search));
    assert search == "" ==> Filter(es, Matching(search)) == es by {
      if search == "" {
        EmptySearchKeepsAll(es);
      }
    }
    Filter(es, Matching(search))
  }

  lemma EmptySearchKeepsAll(es: seq<Estado>)
    ensures Filter(es, Matching("")) == es
  {
    forall i | 0 <= i < |es| ensures Matching("")(es[i]) {
      ContainsEmpty(ToLower(es[i].nombre));
    }
    FilterAll(es, Matching(""));
  }

  /** The search ignores case: a search and its lower-cased form show the same list. */
  lemma {:induction false} FiltradosIgnoresCase(es: seq<Estado>, search: string)
    ensures Filtrados(es, ToLower(search)) == Filtrados(es, search)
  {
    ToLowerIdempotent(search);
    FilterCongruent(es, Matching(ToLower(search)), Matching(search));
  }

  /** Filtering the filtered list again by the same search changes nothing. */
  lemma FiltradosIdempotent(es: seq<Estado>, search: string)
    ensures Filtrados(Filtrados(es, search), search) == Filtrados(es, search)
  {
    FilterIdempotent(es, Matching(search));
  }

  /** White space around the search is matched literally: "activo " finds no "Activo". */
  lemma SearchIsNotTrimmed()
    ensures Filtrados([Estado(1, "Activo")], "activo ") == []
  {
    var e := Estado(1, "Activo");
    assert !Contains(ToLower(e.nombre), ToLower("activo "));
    assert e !in Filtrados([e], "activo ");
  }

  /** The form dialog: whether it is open, the estado being edited and the name field. */
  datatype EstadoModal = EstadoModal(open: bool, editId: Option<int>, formNombre: string)

  /** `openModal(estado)`: editing starts from the estado's id and name, creating from
      no id and an empty name. */
  function OpenModal(estado: Option<Estado>): (m: EstadoModal)
    ensures m.open
    ensures estado.Some? ==> m.editId == Some(estado.value.id) && m.formNombre == estado.value.nombre
    ensures estado.None? ==> m.editId.None? && m.formNombre == ""
  {
    match estado
    case Some(e) => EstadoModal(true, Some(e.id), e.nombre)
    case None => EstadoModal(true, None, "")
  }

  /** The request body: `{ nombre: formNombre }`. */
  datatype EstadoBody = EstadoBody(nombre: string)

  /** The name input is `required`, so the browser blocks an empty name before
      `handleSubmit` runs; a submitted form sends a request and reacts to the reply. */
  datatype SubmitOutcome =
    | Blocked
    | Saved(request: Save<EstadoBody>, modal: EstadoModal, refetch: bool)

  /** Submitting the form: the browser's check, then `handleSubmit`: a `PUT` when `editId`
      is truthy, a `POST` otherwise; the dialog closes and the list is fetched again only
      when the request succeeds. */
  function Submit(m: EstadoModal, reply: Reply<()>): (o: SubmitOutcome)
    ensures o.Blocked? <==> m.formNombre == ""
    ensures o.Saved? ==> o.request.body == EstadoBody(m.formNombre)
    ensures o.Saved? ==> (o.request.Update? <==> Truthy(m.editId))
    ensures o.Saved? && o.request.Update? ==> o.request.id == m.editId.value
    ensures o.Saved? ==> o.modal == m.(open := o.modal.open)
    ensures o.Saved? ==> (o.modal.open <==> (m.open && reply.Failed?))
    ensures o.Saved? ==> (o.refetch <==> reply.Done?)
  {
    if m.formNombre == "" then Blocked
    else
      var after := OnSaveReply(reply);
      Saved(SaveRequest(m.editId, EstadoBody(m.formNombre)), m.(open := m.open && after.modalOpen), after.refetch)
  }

  /** Editing an estado and saving without changes renames it to its own name; an estado
      whose id is 0 is created anew instead, since 0 is falsy; an estado without a name
      cannot be saved as it is. */
  lemma OpenThenSubmit(e: Estado, reply: Reply<()>)
    ensures e.nombre == "" ==> Submit(OpenModal(Some(e)), reply).Blocked?
    ensures e.nombre != "" && e.id != 0 ==>
      Submit(OpenModal(Some(e)), reply).Saved? &&
      Submit(OpenModal(Some(e)), reply).request == Update(e.id, EstadoBody(e.nombre))
    ensures e.nombre != "" && e.id == 0 ==>
      Submit(OpenModal(Some(e)), reply).Saved? &&
      Submit(OpenModal(Some(e)), reply).request == Create(EstadoBody(e.nombre))
  {
  }

  /** An empty name is never posted: a fresh form is blocked until a name is typed, and
      then posts exactly that name. */
  lemma NewEstadoPostsFormName(nombre: string, reply: Reply<()>)
    ensures Submit(OpenModal(None), reply).Blocked?
    ensures nombre != "" ==>
      Submit(OpenModal(None).(formNombre := nombre), reply) == Saved(Create(EstadoBody(nombre)), OpenModal(None).(formNombre := nombre, open := reply.Failed?), reply.Done?)
  {
  }

  /** The Eliminar button of the warning dialog: one `DELETE ...?forzar=true`. */
  datatype DeleteRequest = DeleteForced(estadoId: int)

  function ConfirmForcedDelete(s: DeleteState, reply: Reply<()>): (r: ForceOutcome<DeleteRequest>)
    requires DialogOpen(s)
    ensures r.issued == [DeleteForced(s.confirmDelete.value)]
    ensures r.refetch <==> reply.Done?
    ensures reply.Done? ==> !DialogOpen(r.state) && r.state.warning == s.warning
    ensures reply.Failed? ==> r.state == s
  {
    ForceDelete(s, [DeleteForced(s.confirmDelete.value)], [reply])
  }
}
