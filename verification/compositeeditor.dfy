/** The composite payment-method editor: its state, validation, the save sequence (create or
    update the method, then replace its component list, then refresh the catalogue) and the
    loading of an existing composite's components. Server replies are inputs. */
module CompositeEditor {
  import opened Wrappers
  import opened Seqs
  import opened Text
  import opened PaymentMethods
  import opened ComponentList

  datatype Mode = Nuevo | Editar

  /** The form; `componentesIds` is ordered, the order is the component order saved. */
  datatype Form = Form(nombre: string, descripcion: string, icono: string, orden: int, componentesIds: seq<int>)

  const EmptyForm := Form("", "", "", 0, [])

  datatype Editor = Editor(
    modo: Mode,
    selected: Option<MedioPago>,
    qComp: string,
    qSimple: string,
    form: Form,
    saving: bool)

  const Initial := Editor(Nuevo, None, "", "", EmptyForm, false)

  /** `resetForm`: back to a new, empty composite; the `saving` flag is left alone. */
  function ResetForm(e: Editor): (r: Editor)
    ensures r.(saving := false) == Initial
    ensures r.saving == e.saving
  {
    Initial.(saving := e.saving)
  }

  /** The effect run when `show` changes: closing the dialog resets it, opening it keeps
      the state. */
  function OnShowChange(e: Editor, show: bool): (r: Editor)
    ensures !show ==> r.modo == Nuevo && r.selected.None? && r.form == EmptyForm
    ensures !show ==> r.qComp == "" && r.qSimple == "" && r.saving == e.saving
    ensures show ==> r == e
  {
    if show then e else ResetForm(e)
  }

  datatype ValidationError = NameRequired | TooFewComponents

  /** `validar`: a non-blank name first, then at least two components. */
  function Validate(f: Form): (r: Option<ValidationError>)
    ensures r.None? <==> Trim(f.nombre) != [] && |f.componentesIds| >= 2
    ensures r == Some(NameRequired) <==> Trim(f.nombre) == []
  {
    if Trim(f.nombre) == [] then Some(NameRequired)
    else if |f.componentesIds| < 2 then Some(TooFewComponents)
    else None
  }

  function ValidationText(err: ValidationError): string {
    match err
    case NameRequired => "El nombre es obligatorio."
    case TooFewComponents => "Seleccioná al menos 2 componentes."
  }

  /** The body sent for the composite method itself. `ajustePorcentual` is sent (as 0) only
      when creating. */
  datatype MedioBody = MedioBody(
    nombre: string,
    descripcion: string,
    icono: string,
    orden: int,
    ajustePorcentual: Option<int>,
    tipo: string)

  function BodyOf(f: Form, creating: bool): MedioBody {
    MedioBody(Trim(f.nombre), f.descripcion, f.icono, f.orden,
              if creating then Some(0) else None, "COMPUESTO")
  }

  /** One entry of the component list sent to the server. */
  datatype Componente = Componente(medioPagoId: int, orden: int, activo: int)

  /** `componentesIds.map((id, idx) => ({ medio_pago_id: id, orden: idx + 1, activo: 1 }))`. */
  function ComponentesPayload(ids: seq<int>): (r: seq<Componente>)
    ensures |r| == |ids|
    ensures forall k :: 0 <= k < |r| ==> r[k].medioPagoId == ids[k] && r[k].activo == 1
    ensures forall k :: 0 <= k < |r| ==> r[k].orden == k + 1
  {
    seq(|ids|, k requires 0 <= k < |ids| => Componente(ids[k], k + 1, 1))
  }

  /** The calls a save makes, in order. */
  datatype Request =
    | CreateMedio(body: MedioBody)
    | UpdateMedio(target: Option<int>, body: MedioBody)
    | ReplaceComponentes(composite: int, componentes: seq<Componente>)
    | RefreshCatalogue

  /** What the server and the parent screen answer. `created` carries `r?.data?.medio?.id`;
      `refresh` is `None` when no refresh callback was given. */
  datatype SaveReplies = SaveReplies(
    created: Reply<Option<int>>,
    updated: Reply<()>,
    componentes: Reply<()>,
    refresh: Option<Reply<()>>)

  datatype Notice = Silent | Warning(text: string) | Toast(text: string) | ErrorAlert(text: string)

  datatype SaveOutcome = SaveOutcome(requests: seq<Request>, editor: Editor, notice: Notice)

  const MissingIdText := "No se pudo determinar el ID del medio compuesto."
  const SavedText := "Medio compuesto guardado"

  /** `selectedCompuesto?.id`. */
  function SelectedId(e: Editor): Option<int> {
    match e.selected
    case Some(m) => Some(m.id)
    case None => None
  }

  /** The first call of a save, and its reply reduced to the id the components go to. */
  function FirstCall(e: Editor): Request {
    if e.modo == Nuevo then CreateMedio(BodyOf(e.form, true))
    else UpdateMedio(SelectedId(e), BodyOf(e.form, false))
  }

  function FirstReply(e: Editor, replies: SaveReplies): Reply<Option<int>> {
    if e.modo == Nuevo then replies.created
    else
      match replies.updated
      case Done(_) => Done(SelectedId(e))
      case Failed(f) => Failed(f)
  }

  /** Every call of the save succeeds and yields a usable id. */
  predicate AllSucceed(e: Editor, replies: SaveReplies) {
    && FirstReply(e, replies).Done?
    && Truthy(FirstReply(e, replies).value)
    && replies.componentes.Done?
    && (replies.refresh.None? || replies.refresh.value.Done?)
  }

  function Abort(e: Editor, requests: seq<Request>, text: string): SaveOutcome {
    SaveOutcome(requests, e.(saving := false), ErrorAlert(text))
  }

  /** The part of `guardar` after the id is known: replace the component list, refresh the
      catalogue, then reset the form and toast; any failure alerts and keeps the form. */
  function SendComponents(e: Editor, first: Request, id: int, replies: SaveReplies): (o: SaveOutcome)
    requires id != 0 && |e.form.componentesIds| >= 2
    ensures 2 <= |o.requests| <= 3
    ensures o.requests[0] == first
    ensures o.requests[1] == ReplaceComponentes(id, ComponentesPayload(e.form.componentesIds))
    ensures |o.requests| == 3 ==> o.requests[2] == RefreshCatalogue
    ensures o.notice.Toast? <==>
      replies.componentes.Done? && (replies.refresh.None? || replies.refresh.value.Done?)
    ensures o.notice.Toast? ==> o.notice.text == SavedText && o.editor == Initial
    ensures !o.notice.Toast? ==> o.notice.ErrorAlert? && o.editor == e.(saving := false)
  {
    var sent := [first, ReplaceComponentes(id, ComponentesPayload(e.form.componentesIds))];
    match replies.componentes
    case Failed(f) => Abort(e, sent, ErrorText(f))
    case Done(_) =>
      match replies.refresh
      case Some(Failed(f)) => Abort(e, sent + [RefreshCatalogue], ErrorText(f))
      case Some(Done(_)) => SaveOutcome(sent + [RefreshCatalogue], ResetForm(e).(saving := false), Toast(SavedText))
      case None => SaveOutcome(sent, ResetForm(e).(saving := false), Toast(SavedText))
  }

  /** The calls of `guardar` once the form is valid. */
  function Persist(e: Editor, replies: SaveReplies): (o: SaveOutcome)
    requires |e.form.componentesIds| >= 2
    ensures !o.editor.saving
    ensures o.requests != [] && o.requests[0] == FirstCall(e)
    ensures o.notice.Toast? <==> AllSucceed(e, replies)
    ensures o.notice.Toast? ==>
      && o.notice.text == SavedText
      && o.editor == Initial
      && |o.requests| >= 2
      && o.requests[1] == ReplaceComponentes(FirstReply(e, replies).value.value, ComponentesPayload(e.form.componentesIds))
    ensures !o.notice.Toast? ==> o.notice.ErrorAlert? && o.editor == e.(saving := false)
    ensures forall k :: 0 <= k < |o.requests| && o.requests[k].ReplaceComponentes? ==>
      o.requests[k].composite != 0 && |o.requests[k].componentes| >= 2
  {
    var first := FirstCall(e);
    match FirstReply(e, replies)
    case Failed(f) => Abort(e, [first], ErrorText(f))
    case Done(id) =>
      if !Truthy(id) then Abort(e, [first], MissingIdText)
      else SendComponents(e, first, id.value, replies)
  }

  /** `guardar`: validate, then create (new) or update (editing) the composite method, then
      replace its component list under the id obtained, then refresh. */
  function Guardar(e: Editor, replies: SaveReplies): (o: SaveOutcome)
    ensures Validate(e.form).Some? ==>
      o.requests == [] && o.editor == e && o.notice == Warning(ValidationText(Validate(e.form).value))
    ensures Validate(e.form).None? ==> o == Persist(e, replies)
  {
    match Validate(e.form)
    case Some(err) => SaveOutcome([], e, Warning(ValidationText(err)))
    case None => Persist(e, replies)
  }

  /** Only a valid form can be saved, and components always go to a usable id, at least two
      of them, numbered from 1 in the chosen order. */
  lemma GuardarSendsValidComponents(e: Editor, replies: SaveReplies, k: int)
    requires 0 <= k < |Guardar(e, replies).requests|
    requires Guardar(e, replies).requests[k].ReplaceComponentes?
    ensures Validate(e.form).None?
    ensures Guardar(e, replies).requests[k].composite != 0
    ensures var cs := Guardar(e, replies).requests[k].componentes;
      |cs| >= 2 && forall i :: 0 <= i < |cs| ==> cs[i] == Componente(e.form.componentesIds[i], i + 1, 1)
  {
  }

  /** The body of the first call: the trimmed name, type COMPUESTO, and an adjustment only
      on creation. */
  lemma FirstCallBody(e: Editor)
    ensures FirstCall(e).CreateMedio? <==> e.modo == Nuevo
    ensures FirstCall(e).body.nombre == Trim(e.form.nombre) && FirstCall(e).body.tipo == "COMPUESTO"
    ensures FirstCall(e).body.ajustePorcentual == (if e.modo == Nuevo then Some(0) else None)
  {
  }

  /** The save button: disabled while a save is in flight. */
  function SaveButton(e: Editor, replies: SaveReplies): (o: SaveOutcome)
    ensures e.saving ==> o == SaveOutcome([], e, Silent)
    ensures !e.saving ==> o == Guardar(e, replies)
  {
    if e.saving then SaveOutcome([], e, Silent) else Guardar(e, replies)
  }

  /** `x?.medio` of a component row: the joined payment method, if any. */
  datatype MedioRef = MedioRef(id: Option<int>)

  /** One row of `GET /medios-pago/:id/componentes`. */
  datatype ComponenteRow = ComponenteRow(medio: Option<MedioRef>, medioPagoId: Option<int>, orden: Option<int>)

  /** The response body: a list of rows, or anything else. */
  datatype RowsBody = Rows(rows: seq<ComponenteRow>) | NotAList

  /** `x?.medio?.id || x?.medio_pago_id`, kept only when truthy. */
  function RowId(x: ComponenteRow): (r: Option<int>)
    ensures r.Some? ==> r.value != 0
    ensures x.medio.Some? && Truthy(x.medio.value.id) ==> r == x.medio.value.id
  {
    if x.medio.Some? && Truthy(x.medio.value.id) then x.medio.value.id
    else if Truthy(x.medioPagoId) then x.medioPagoId
    else None
  }

  /** `.map(...).filter(Boolean)`: the truthy ids of the rows, in row order. */
  function RowIds(rows: seq<ComponenteRow>): (r: seq<int>)
    ensures |r| <= |rows|
    ensures forall k :: 0 <= k < |r| ==> r[k] != 0
    ensures (forall k :: 0 <= k < |rows| ==> RowId(rows[k]).Some?) ==>
      |r| == |rows| && forall k :: 0 <= k < |rows| ==> RowId(rows[k]) == Some(r[k])
    ensures (forall k :: 0 <= k < |rows| ==> RowId(rows[k]).None?) ==> r == []
  {
    if rows == [] then []
    else (match RowId(rows[0]) case Some(id) => [id] case None => []) + RowIds(rows[1..])
  }

  /** The ids of two runs of rows are the ids of the first run followed by those of the
      second: each row contributes its own id or nothing. */
  lemma {:induction false} RowIdsAppend(a: seq<ComponenteRow>, b: seq<ComponenteRow>)
    ensures RowIds(a + b) == RowIds(a) + RowIds(b)
  {
    if a == [] {
      assert a + b == b;
    } else {
      assert (a + b)[0] == a[0] && (a + b)[1..] == a[1..] + b;
      RowIdsAppend(a[1..], b);
    }
  }

  /** The sort key `a.orden ?? 0`. */
  predicate RowOrdenLe(a: ComponenteRow, b: ComponenteRow) {
    a.orden.GetOr(0) <= b.orden.GetOr(0)
  }

  lemma RowOrdenLeTotal()
    ensures TotalPreorder(RowOrdenLe)
  {
  }

  /** `.sort((a, b) => (a.orden ?? 0) - (b.orden ?? 0))`: the rows by ascending `orden`,
      rows with the same `orden` in the order the server listed them (the sort is stable). */
  function OrderedRows(rows: seq<ComponenteRow>): (p: seq<ComponenteRow>)
    ensures Sorted(p, RowOrdenLe)
    ensures multiset(p) == multiset(rows)
    ensures forall x :: Filter(p, TiedWith(RowOrdenLe, x)) == Filter(rows, TiedWith(RowOrdenLe, x))
  {
    RowOrdenLeTotal();
    assert forall x :: Filter(SortBy(rows, RowOrdenLe), TiedWith(RowOrdenLe, x)) == Filter(rows, TiedWith(RowOrdenLe, x)) by {
      forall x ensures Filter(SortBy(rows, RowOrdenLe), TiedWith(RowOrdenLe, x)) == Filter(rows, TiedWith(RowOrdenLe, x)) {
        SortStable(rows, RowOrdenLe, x);
      }
    }
    SortBy(rows, RowOrdenLe)
  }

  /** The component ids of a loaded composite: rows sorted by `orden`, ids kept when truthy. */
  function LoadIds(rows: seq<ComponenteRow>): (r: seq<int>)
    ensures |r| <= |rows|
    ensures forall k :: 0 <= k < |r| ==> r[k] != 0
  {
    RowIds(OrderedRows(rows))
  }

  /** When no two rows share an `orden`, the ids loaded are those of the one arrangement of
      the rows by ascending `orden`, whatever order the server listed them in. */
  lemma LoadIdsOfSortedPermutation(rows: seq<ComponenteRow>, p: seq<ComponenteRow>)
    requires multiset(p) == multiset(rows)
    requires Sorted(p, RowOrdenLe) && NoTies(p, RowOrdenLe)
    ensures LoadIds(rows) == RowIds(p)
  {
    RowOrdenLeTotal();
    SortedPermutationUnique(p, OrderedRows(rows), RowOrdenLe);
  }

  datatype LoadOutcome = LoadOutcome(editor: Editor, notice: Notice)

  /** `cargarCompuesto(m)`: the editor switches to editing `m` before the request; on success
      the form holds `m`'s fields and its components, on failure the form keeps whatever it
      held before while mode and selection already point at `m`. */
  function LoadComposite(e: Editor, m: MedioPago, reply: Reply<RowsBody>): (o: LoadOutcome)
    ensures o.editor.modo == Editar && o.editor.selected == Some(m)
    ensures o.editor.qComp == e.qComp && o.editor.qSimple == e.qSimple && o.editor.saving == e.saving
    ensures reply.Failed? ==> o.editor.form == e.form && o.notice == ErrorAlert(ErrorText(reply.failure))
    ensures reply.Done? ==>
      && o.notice == Silent
      && o.editor.form.nombre == m.nombre
      && o.editor.form.descripcion == m.descripcion.GetOr("")
      && o.editor.form.icono == m.icono.GetOr("")
      && o.editor.form.orden == m.orden.GetOr(0)
    ensures reply == Done(NotAList) ==> o.editor.form.componentesIds == []
    ensures reply.Done? && reply.value.Rows? ==> o.editor.form.componentesIds == LoadIds(reply.value.rows)
  {
    var editing := e.(modo := Editar, selected := Some(m));
    match reply
    case Failed(f) => LoadOutcome(editing, ErrorAlert(ErrorText(f)))
    case Done(body) =>
      var rows := if body.Rows? then body.rows else [];
      var form := Form(m.nombre, m.descripcion.GetOr(""), m.icono.GetOr(""), m.orden.GetOr(0), LoadIds(rows));
      LoadOutcome(editing.(form := form), Silent)
  }

  /** The rows the server lists for a component list it stored: same order, same ids. */
  function StoredRows(cs: seq<Componente>): (rows: seq<ComponenteRow>)
    ensures |rows| == |cs|
  {
    seq(|cs|, k requires 0 <= k < |cs| => ComponenteRow(None, Some(cs[k].medioPagoId), Some(cs[k].orden)))
  }

  /** An id `.filter(Boolean)` keeps. */
  predicate NonZeroId(id: int) {
    id != 0
  }

  /** Rows that carry just the ids `ids` load as the non-zero ones among them, in order. */
  lemma {:induction false} RowIdsOfPlainRows(rows: seq<ComponenteRow>, ids: seq<int>)
    requires |rows| == |ids|
    requires forall k :: 0 <= k < |rows| ==> rows[k].medio.None? && rows[k].medioPagoId == Some(ids[k])
    ensures RowIds(rows) == Filter(ids, NonZeroId)
  {
    if rows != [] {
      var r, t := rows[1..], ids[1..];
      forall k | 0 <= k < |r| ensures r[k].medio.None? && r[k].medioPagoId == Some(t[k]) {
        assert r[k] == rows[k + 1] && t[k] == ids[k + 1];
      }
      RowIdsOfPlainRows(r, t);
      assert RowId(rows[0]) == if ids[0] != 0 then Some(ids[0]) else None;
      assert ids == [ids[0]] + t;
      FilterCons(ids[0], t, NonZeroId);
    }
  }

  /** The rows a stored component list is listed as have pairwise different `orden`s and
      are already in `orden` order. */
  lemma StoredRowsOrdered(ids: seq<int>)
    ensures Sorted(StoredRows(ComponentesPayload(ids)), RowOrdenLe)
    ensures NoTies(StoredRows(ComponentesPayload(ids)), RowOrdenLe)
  {
    var rows := StoredRows(ComponentesPayload(ids));
    forall i, j | 0 <= i < |rows| && 0 <= j < |rows| && RowOrdenLe(rows[i], rows[j]) && RowOrdenLe(rows[j], rows[i])
      ensures rows[i] == rows[j]
    {
      assert rows[i].orden == Some(i + 1) && rows[j].orden == Some(j + 1);
    }
  }

  /** Saving a component list and loading it back yields its non-zero ids in the saved
      order, whatever order the server lists the stored rows in; so a list without a 0 id
      comes back unchanged, and a 0 id is dropped by the load. */
  lemma SaveThenLoadIds(ids: seq<int>, rows: seq<ComponenteRow>)
    requires multiset(rows) == multiset(StoredRows(ComponentesPayload(ids)))
    ensures LoadIds(rows) == Filter(ids, NonZeroId)
    ensures (forall k :: 0 <= k < |ids| ==> ids[k] != 0) ==> LoadIds(rows) == ids
  {
    var stored := StoredRows(ComponentesPayload(ids));
    StoredRowsOrdered(ids);
    LoadIdsOfSortedPermutation(rows, stored);
    StoredRowIds(ids);
    NoZeroIdKept(ids);
  }

  lemma StoredRowIds(ids: seq<int>)
    ensures RowIds(StoredRows(ComponentesPayload(ids))) == Filter(ids, NonZeroId)
  {
    RowIdsOfPlainRows(StoredRows(ComponentesPayload(ids)), ids);
  }

  lemma NoZeroIdKept(ids: seq<int>)
    ensures (forall k :: 0 <= k < |ids| ==> ids[k] != 0) ==> Filter(ids, NonZeroId) == ids
  {
    if forall k :: 0 <= k < |ids| ==> ids[k] != 0 {
      FilterAll(ids, NonZeroId);
    }
  }

  /** After a successful save, opening the same composite with the stored rows, listed in
      any order, shows the components that were saved, in the saved order. */
  lemma SaveThenReload(e: Editor, replies: SaveReplies, m: MedioPago, rows: seq<ComponenteRow>)
    requires Guardar(e, replies).notice.Toast?
    requires forall k :: 0 <= k < |e.form.componentesIds| ==> e.form.componentesIds[k] != 0
    requires multiset(rows) == multiset(StoredRows(Guardar(e, replies).requests[1].componentes))
    ensures var o := Guardar(e, replies);
      LoadComposite(o.editor, m, Done(Rows(rows))).editor.form.componentesIds == e.form.componentesIds
  {
    SaveThenLoadIds(e.form.componentesIds, rows);
  }
}
