/** The cash-collections report: which local the query is for, the query string sent, how
    the response is read, the text filter, paging by 20 and the period total. Amounts are
    whole cents. */
module Recaudaciones {
  import opened Wrappers
  import opened Seqs
  import opened Text
  import opened JsNumber
  import opened UrlQuery

  /** One collection row; missing columns are `null` in the response. */
  datatype Recaudacion = Recaudacion(
    cajaId: Option<int>,
    localId: int,
    usuarioId: int,
    monto: Option<int>,
    observaciones: Option<string>)

  /** The filter controls and the session. `userLocalId` is `None` when the session has none. */
  datatype Filters = Filters(
    userLevel: string,
    userLocalId: Option<int>,
    fLocal: string,
    fUsuario: string,
    fDesde: string,
    fHasta: string)

  /** The filters as the screen starts: every local, every user, no dates. */
  function InitialFilters(userLevel: string, userLocalId: Option<int>): Filters {
    Filters(userLevel, userLocalId, "auto", "todos", "", "")
  }

  /** `localIdFinal`, kept only when truthy: an admin's choice ('auto' means none), anyone
      else's own local. */
  function LocalIdFinal(f: Filters): (r: Option<string>)
    ensures f.userLevel != "admin" ==>
      r == (if f.userLocalId.Some? && f.userLocalId.value != 0 then Some(IntToString(f.userLocalId.value)) else None)
    ensures f.userLevel == "admin" && f.fLocal == "auto" ==> r.None?
    ensures f.userLevel == "admin" && f.fLocal != "auto" ==> r == (if f.fLocal == "" then None else Some(f.fLocal))
    ensures r.Some? ==> r.value != ""
  {
    if f.userLevel == "admin" then
      (if f.fLocal == "auto" || f.fLocal == "" then None else Some(f.fLocal))
    else
      match f.userLocalId
      case Some(id) => if id != 0 then Some(IntToString(id)) else None
      case None => None
  }

  /** A parameter added only when its value is present. */
  function ParamIf(name: string, value: Option<string>): (r: seq<Param>)
    ensures |r| <= 1
    ensures value.None? <==> r == []
    ensures value.Some? ==> r == [Param(name, value.value)]
  {
    match value
    case Some(v) => [Param(name, v)]
    case None => []
  }

  /** Present when the text is not empty. */
  function NonEmpty(s: string): Option<string> {
    if s == "" then None else Some(s)
  }

  /** The query parameters, in the order the screen appends them. */
  function Params(f: Filters): (ps: seq<Param>)
    ensures |ps| <= 4
    ensures forall i :: 0 <= i < |ps| ==> ps[i].value != "" || ps[i].name == "usuario_id"
    ensures forall v :: Param("local_id", v) in ps <==> LocalIdFinal(f) == Some(v)
    ensures forall v :: Param("usuario_id", v) in ps <==> f.fUsuario != "todos" && v == f.fUsuario
    ensures forall v :: Param("desde", v) in ps <==> f.fDesde != "" && v == f.fDesde
    ensures forall v :: Param("hasta", v) in ps <==> f.fHasta != "" && v == f.fHasta
  {
    var u := if f.fUsuario != "todos" then Some(f.fUsuario) else None;
    Assemble(LocalIdFinal(f), u, NonEmpty(f.fDesde), NonEmpty(f.fHasta));
    ParamIf("local_id", LocalIdFinal(f)) + ParamIf("usuario_id", u)
    + ParamIf("desde", NonEmpty(f.fDesde)) + ParamIf("hasta", NonEmpty(f.fHasta))
  }

  /** The four optional parameters, one after the other: each is present exactly when its
      value is, and only the user's may be empty. */
  lemma Assemble(l: Option<string>, u: Option<string>, d: Option<string>, h: Option<string>)
    requires l.Some? ==> l.value != ""
    requires d.Some? ==> d.value != ""
    requires h.Some? ==> h.value != ""
    ensures var ps := ParamIf("local_id", l) + ParamIf("usuario_id", u) + ParamIf("desde", d) + ParamIf("hasta", h);
      && |ps| <= 4
      && (forall i :: 0 <= i < |ps| ==> ps[i].value != "" || ps[i].name == "usuario_id")
      && (forall v :: Param("usuario_id", v) in ps <==> u == Some(v))
      && (forall v :: Param("local_id", v) in ps <==> l == Some(v))
      && (forall v :: Param("desde", v) in ps <==> d == Some(v))
      && (forall v :: Param("hasta", v) in ps <==> h == Some(v))
  {
    var ps := ParamIf("local_id", l) + ParamIf("usuario_id", u) + ParamIf("desde", d) + ParamIf("hasta", h);
    AssembleValues(l, u, d, h);
    forall v ensures Param("local_id", v) in ps <==> l == Some(v) {
      ParamFrom(l, u, d, h, "local_id", v);
    }
    forall v ensures Param("usuario_id", v) in ps <==> u == Some(v) {
      ParamFrom(l, u, d, h, "usuario_id", v);
    }
    forall v ensures Param("desde", v) in ps <==> d == Some(v) {
      ParamFrom(l, u, d, h, "desde", v);
    }
    forall v ensures Param("hasta", v) in ps <==> h == Some(v) {
      ParamFrom(l, u, d, h, "hasta", v);
    }
  }

  /** At most four parameters, and only the user's may have an empty value. */
  lemma AssembleValues(l: Option<string>, u: Option<string>, d: Option<string>, h: Option<string>)
    requires l.Some? ==> l.value != ""
    requires d.Some? ==> d.value != ""
    requires h.Some? ==> h.value != ""
    ensures var ps := ParamIf("local_id", l) + ParamIf("usuario_id", u) + ParamIf("desde", d) + ParamIf("hasta", h);
      |ps| <= 4 && forall i :: 0 <= i < |ps| ==> ps[i].value != "" || ps[i].name == "usuario_id"
  {
    var a, b, c, e := ParamIf("local_id", l), ParamIf("usuario_id", u), ParamIf("desde", d), ParamIf("hasta", h);
    var ps := a + b + c + e;
    assert forall i :: 0 <= i < |ps| ==> ps[i] in a || ps[i] in b || ps[i] in c || ps[i] in e;
  }

  /** A parameter is among the four exactly when one of them is that parameter. */
  lemma ParamFrom(l: Option<string>, u: Option<string>, d: Option<string>, h: Option<string>, n: string, v: string)
    ensures var ps := ParamIf("local_id", l) + ParamIf("usuario_id", u) + ParamIf("desde", d) + ParamIf("hasta", h);
      Param(n, v) in ps <==>
        (n == "local_id" && l == Some(v)) || (n == "usuario_id" && u == Some(v))
        || (n == "desde" && d == Some(v)) || (n == "hasta" && h == Some(v))
  {
    ParamIfHolds("local_id", l, n, v);
    ParamIfHolds("usuario_id", u, n, v);
    ParamIfHolds("desde", d, n, v);
    ParamIfHolds("hasta", h, n, v);
  }

  /** The parameter `n=v` comes from `ParamIf(name, value)` exactly when the names agree
      and the value is present and is `v`. */
  lemma ParamIfHolds(name: string, value: Option<string>, n: string, v: string)
    ensures Param(n, v) in ParamIf(name, value) <==> n == name && value == Some(v)
  {
  }

  const RecaudacionesPath := "http://localhost:8080/caja/recaudaciones"

  /** The request URL: a query only when some parameter is present. */
  function Url(f: Filters): (url: string)
    ensures '?' in url <==> Params(f) != []
    ensures Params(f) == [] ==> url == RecaudacionesPath
  {
    WithQuery(RecaudacionesPath, Params(f))
  }

  /** As the screen opens, an admin's query is unfiltered. */
  lemma AdminStartsUnfiltered(userLocalId: Option<int>)
    ensures Url(InitialFilters("admin", userLocalId)) == RecaudacionesPath
  {
  }

  /** The decoded JSON body of the response, as far as the screen looks at it. */
  datatype Body = Rows(rows: seq<Recaudacion>) | Wrapper(data: Option<Body>) | Null | Scalar

  /** `filas`: a list as is, else its `data` if that is a list, else nothing. */
  function Filas(b: Body): (r: seq<Recaudacion>)
    ensures b.Rows? ==> r == b.rows
    ensures b.Wrapper? && b.data.Some? && b.data.value.Rows? ==> r == b.data.value.rows
    ensures !b.Rows? && !(b.Wrapper? && b.data.Some? && b.data.value.Rows?) ==> r == []
  {
    match b
    case Rows(rows) => rows
    case Wrapper(Some(Rows(rows))) => rows
    case _ => []
  }

  /** What the report holds: the rows loaded, the page shown, the search text. */
  datatype Report = Report(rows: seq<Recaudacion>, page: int, q: string)

  /** `cargarRecaudaciones` once the reply is in: the rows are replaced and the page goes
      back to 1; a failed request (or a `null` body, whose `.data` throws) clears the rows
      and keeps the page. */
  function Reload(r: Report, reply: Reply<Body>): (o: Report)
    ensures o.q == r.q
    ensures reply.Done? && !reply.value.Null? ==> o.rows == Filas(reply.value) && o.page == 1
    ensures reply.Failed? || reply == Done(Null) ==> o.rows == [] && o.page == r.page
  {
    match reply
    case Done(Null) => r.(rows := [])
    case Done(b) => r.(rows := Filas(b), page := 1)
    case Failed(_) => r.(rows := [])
  }

  /** `String(v)` for a column that may be `null`. */
  function OptIntText(v: Option<int>): string {
    match v
    case Some(n) => IntToString(n)
    case None => "null"
  }

  /** `String(r.monto)`: the amount as JavaScript prints it. */
  function MontoText(v: Option<int>): string {
    match v
    case Some(c) => CentsToString(c)
    case None => "null"
  }

  /** Whether a row matches the (already trimmed and lower-cased) search text. */
  predicate RowMatches(texto: string, r: Recaudacion) {
    || Contains(ToLower(r.observaciones.GetOr("")), texto)
    || Contains(OptIntText(r.cajaId), texto)
    || Contains(MontoText(r.monto), texto)
  }

  function Matching(texto: string): Recaudacion -> bool {
    r => RowMatches(texto, r)
  }

  /** `recaudacionesFiltradas`: all rows for a blank search, else the matching rows in order. */
  function Filtradas(rows: seq<Recaudacion>, q: string): (r: seq<Recaudacion>)
    ensures IsSubseq(r, rows)
    ensures Trim(q) == [] ==> r == rows
    ensures Trim(q) != [] ==> forall x :: x in r <==> x in rows && RowMatches(ToLower(Trim(q)), x)
    ensures Trim(q) != [] ==>
      forall x :: multiset(r)[x] == (if RowMatches(ToLower(Trim(q)), x) then multiset(rows)[x] else 0)
  {
    var texto := ToLower(Trim(q));
    if texto == [] then
      assert |Trim(q)| == 0;
      FilterAll(rows, x => true);
      FilterIsSubseq(rows, x => true);
      rows
    else
      FilterIsSubseq(rows, Matching(texto));
      FilterCounts(rows, Matching(texto));
      Filter(rows, Matching(texto))
  }

  /** Typing a row's amount exactly as printed finds that row. */
  lemma FindsByAmount(rows: seq<Recaudacion>, x: Recaudacion, c: int)
    requires x in rows && x.monto == Some(c)
    ensures x in Filtradas(rows, CentsToString(c))
  {
    var t := CentsToString(c);
    CentsTextChars(c);
    TrimPlain(t);
    ToLowerPlain(t);
    assert OccursAt(t, t, 0);
  }

  const ItemsPorPagina := 20

  /** `Math.ceil(n / 20)`. */
  function TotalPaginas(n: nat): (p: nat)
    ensures (p - 1) * ItemsPorPagina < n <= p * ItemsPorPagina || (n == 0 && p == 0)
  {
    (n + ItemsPorPagina - 1) / ItemsPorPagina
  }

  /** `s.slice(start, end)`: negative positions count from the end, both are clamped to
      the sequence. */
  function JsSlice<T>(s: seq<T>, start: int, end: int): (r: seq<T>)
    ensures 0 <= start <= end <= |s| ==> r == s[start..end]
    ensures |r| <= |s|
  {
    var a := if start < 0 then (if |s| + start < 0 then 0 else |s| + start) else (if start > |s| then |s| else start);
    var b := if end < 0 then (if |s| + end < 0 then 0 else |s| + end) else (if end > |s| then |s| else end);
    if a >= b then [] else s[a..b]
  }

  /** `recaudacionesPaginadas`: the rows of page `p` (counted from 1). */
  function Pagina<T>(rows: seq<T>, p: int): (r: seq<T>)
    ensures |r| <= ItemsPorPagina
    ensures 1 <= p && (p - 1) * ItemsPorPagina < |rows| ==>
      r == rows[(p - 1) * ItemsPorPagina .. if p * ItemsPorPagina < |rows| then p * ItemsPorPagina else |rows|]
    ensures p > TotalPaginas(|rows|) ==> r == []
  {
    JsSlice(rows, (p - 1) * ItemsPorPagina, p * ItemsPorPagina)
  }

  /** The first `k` pages, one after the other. */
  function FirstPages<T>(rows: seq<T>, k: nat): seq<T> {
    if k == 0 then [] else FirstPages(rows, k - 1) + Pagina(rows, k)
  }

  /** The first `k` pages are the first `20 k` rows. */
  lemma {:induction false} FirstPagesPrefix<T>(rows: seq<T>, k: nat)
    ensures FirstPages(rows, k) == rows[..if k * ItemsPorPagina < |rows| then k * ItemsPorPagina else |rows|]
  {
    var j := 0;
    while j < k
      invariant j <= k
      invariant FirstPages(rows, j) == rows[..if j * ItemsPorPagina < |rows| then j * ItemsPorPagina else |rows|]
    {
      j := j + 1;
      NextPagePrefix(rows, j);
    }
  }

  lemma NextPagePrefix<T>(rows: seq<T>, k: nat)
    requires k > 0
    requires FirstPages(rows, k - 1) ==
      rows[..if (k - 1) * ItemsPorPagina < |rows| then (k - 1) * ItemsPorPagina else |rows|]
    ensures FirstPages(rows, k) == rows[..if k * ItemsPorPagina < |rows| then k * ItemsPorPagina else |rows|]
  {
    var a := if (k - 1) * ItemsPorPagina < |rows| then (k - 1) * ItemsPorPagina else |rows|;
    var b := if k * ItemsPorPagina < |rows| then k * ItemsPorPagina else |rows|;
    if (k - 1) * ItemsPorPagina < |rows| {
      assert Pagina(rows, k) == rows[a..b];
      assert rows[..a] + rows[a..b] == rows[..b];
    } else {
      assert Pagina(rows, k) == JsSlice(rows, (k - 1) * ItemsPorPagina, k * ItemsPorPagina);
      assert a == b;
    }
  }

  /** Together the pages show every row once, in order. */
  lemma PagesCover<T>(rows: seq<T>)
    ensures FirstPages(rows, TotalPaginas(|rows|)) == rows
  {
    FirstPagesPrefix(rows, TotalPaginas(|rows|));
  }

  /** `cambiarPagina`: only pages that exist can be selected. */
  function CambiarPagina(page: int, target: int, totalPaginas: nat): (r: int)
    ensures 1 <= target <= totalPaginas ==> r == target
    ensures !(1 <= target <= totalPaginas) ==> r == page
  {
    if 1 <= target && target <= totalPaginas then target else page
  }

  /** Starting on a page that exists, the arrows never leave the existing pages. */
  lemma ArrowsStayInRange(page: int, totalPaginas: nat, dir: int)
    requires 1 <= page <= totalPaginas
    requires dir == 1 || dir == -1
    ensures 1 <= CambiarPagina(page, page + dir, totalPaginas) <= totalPaginas
  {
  }

  /** `Number(r.monto || 0)`. */
  function MontoCents(r: Recaudacion): int {
    r.monto.GetOr(0)
  }

  /** `totalPeriodo`: the sum of the filtered rows' amounts, a missing amount counting 0. */
  function TotalPeriodo(rows: seq<Recaudacion>): int {
    if rows == [] then 0 else MontoCents(rows[0]) + TotalPeriodo(rows[1..])
  }

  lemma {:induction false} TotalPeriodoAppend(a: seq<Recaudacion>, b: seq<Recaudacion>)
    ensures TotalPeriodo(a + b) == TotalPeriodo(a) + TotalPeriodo(b)
  {
    if a == [] {
      assert a + b == b;
    } else {
      assert (a + b)[1..] == a[1..] + b;
      TotalPeriodoAppend(a[1..], b);
    }
  }

  /** The period total is the sum of the per-page totals. */
  lemma {:induction false} TotalIsSumOfPages(rows: seq<Recaudacion>, k: nat)
    ensures TotalPeriodo(FirstPages(rows, k)) == PagesTotal(rows, k)
  {
    var j := 0;
    while j < k
      invariant j <= k
      invariant TotalPeriodo(FirstPages(rows, j)) == PagesTotal(rows, j)
    {
      j := j + 1;
      NextPageTotal(rows, j);
    }
  }

  lemma NextPageTotal(rows: seq<Recaudacion>, k: nat)
    requires k > 0
    requires TotalPeriodo(FirstPages(rows, k - 1)) == PagesTotal(rows, k - 1)
    ensures TotalPeriodo(FirstPages(rows, k)) == PagesTotal(rows, k)
  {
    TotalOfFirstPages(rows, k);
  }

  /** One more page adds that page's total. */
  lemma TotalOfFirstPages(rows: seq<Recaudacion>, k: nat)
    requires k > 0
    ensures TotalPeriodo(FirstPages(rows, k)) == TotalPeriodo(FirstPages(rows, k - 1)) + TotalPeriodo(Pagina(rows, k))
  {
    TotalPeriodoAppend(FirstPages(rows, k - 1), Pagina(rows, k));
  }

  function PagesTotal(rows: seq<Recaudacion>, k: nat): int {
    if k == 0 then 0 else PagesTotal(rows, k - 1) + TotalPeriodo(Pagina(rows, k))
  }

  /** Adding up the page totals of all pages gives the period total. */
  lemma PeriodTotalByPages(rows: seq<Recaudacion>)
    ensures PagesTotal(rows, TotalPaginas(|rows|)) == TotalPeriodo(rows)
  {
    TotalIsSumOfPages(rows, TotalPaginas(|rows|));
    PagesCover(rows);
  }

  /** A catalogue entry (local or user) with its display name. */
  datatype Named = Named(id: int, nombre: Option<string>)

  /** `list.find(x => x.id === id)`. */
  function FindFirst(list: seq<Named>, id: int): (r: Option<Named>)
    ensures r.None? <==> forall i :: 0 <= i < |list| ==> list[i].id != id
    ensures r.Some? ==> exists i :: 0 <= i < |list| && list[i] == r.value && r.value.id == id
                                    && forall j :: 0 <= j < i ==> list[j].id != id
  {
    if list == [] then None
    else if list[0].id == id then Some(list[0])
    else
      var r := FindFirst(list[1..], id);
      assert r.Some? ==> exists i :: 0 <= i < |list| && list[i] == r.value && r.value.id == id
                                    && forall j :: 0 <= j < i ==> list[j].id != id by {
        if r.Some? {
          var i :| 0 <= i < |list[1..]| && list[1..][i] == r.value && r.value.id == id
                   && forall j :: 0 <= j < i ==> list[1..][j].id != id;
          assert list[i + 1] == r.value;
          assert forall j :: 1 <= j < i + 1 ==> list[j].id == list[1..][j - 1].id;
        }
      }
      r
  }

  /** `find(...)?.nombre || fallback`: the first entry's non-empty name, else the fallback. */
  function NameOr(list: seq<Named>, id: int, prefix: string): (s: string)
    ensures FindFirst(list, id).Some? && FindFirst(list, id).value.nombre.GetOr("") != "" ==>
      s == FindFirst(list, id).value.nombre.value
    ensures FindFirst(list, id).Some? && FindFirst(list, id).value.nombre.GetOr("") == "" ==>
      s == prefix + IntToString(id)
    ensures FindFirst(list, id).None? ==> s == prefix + IntToString(id)
    ensures s != ""
  {
    match FindFirst(list, id)
    case Some(x) => if x.nombre.GetOr("") != "" then x.nombre.value else prefix + IntToString(id)
    case None => prefix + IntToString(id)
  }

  /** `nombreLocal`: the local's name, or "Local #" and its id. */
  function NombreLocal(locales: seq<Named>, id: int): (s: string)
    ensures s != ""
    ensures (forall i :: 0 <= i < |locales| ==> locales[i].id != id) ==> s == "Local #" + IntToString(id)
  {
    NameOr(locales, id, "Local #")
  }

  /** `nombreUsuario`: the user's name, or "Usuario #" and its id. */
  function NombreUsuario(usuarios: seq<Named>, id: int): (s: string)
    ensures s != ""
    ensures (forall i :: 0 <= i < |usuarios| ==> usuarios[i].id != id) ==> s == "Usuario #" + IntToString(id)
  {
    NameOr(usuarios, id, "Usuario #")
  }

  /** The first entry with the id names it, even when a later entry with the same id has
      another name. */
  lemma {:induction false} FirstEntryNames(list: seq<Named>, i: int, id: int, nombre: string, prefix: string)
    requires 0 <= i < |list| && list[i] == Named(id, Some(nombre)) && nombre != ""
    requires forall j :: 0 <= j < i ==> list[j].id != id
    ensures NameOr(list, id, prefix) == nombre
  {
    if i > 0 {
      assert list[1..][i - 1] == list[i];
      FirstEntryNames(list[1..], i - 1, id, nombre, prefix);
    }
  }
}
