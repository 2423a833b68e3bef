/** The payment-method catalogue as the composite-method editor sees it: which methods are
    active, which are composite and which simple, their order by `orden`, the search box
    over each list, and the resolution of selected ids to catalogue entries. */
module PaymentMethods {
  import opened Wrappers
  import opened Seqs
  import opened Text
  import opened JsNumber

  /** The `activo` column as the API may deliver it: a number, a boolean, a numeric string,
      or nothing. */
  datatype Flag = FlagNumber(n: int) | FlagBool(b: bool) | FlagText(s: string) | FlagNull

  /** One row of `mediosPago`. Optional fields are the ones the screen reads with `||`. */
  datatype MedioPago = MedioPago(
    id: int,
    nombre: string,
    descripcion: Option<string>,
    icono: Option<string>,
    orden: Option<int>,
    tipo: Option<string>,
    activo: Flag)

  /** `Number(v) === 1 || v === true`: `true`, the number 1 and any text that reads as 1. */
  predicate IsActivo(v: Flag) {
    match v
    case FlagNumber(n) => n == 1
    case FlagBool(b) => b
    case FlagText(s) => StringToNumber(s) == Finite(1.0)
    case FlagNull => false
  }

  /** `String(m.tipo || fallback).toUpperCase()`: a missing or empty type reads as the fallback. */
  function TipoUpper(m: MedioPago, fallback: string): string {
    ToUpper(if m.tipo.Some? && m.tipo.value != "" then m.tipo.value else fallback)
  }

  predicate IsCompuesto(m: MedioPago) {
    IsActivo(m.activo) && TipoUpper(m, "") == "COMPUESTO"
  }

  predicate IsSimple(m: MedioPago) {
    IsActivo(m.activo) && TipoUpper(m, "SIMPLE") == "SIMPLE"
  }

  /** No method is listed both as composite and as simple, and an active method without a
      type is simple. */
  lemma {:induction false} KindsDisjoint(m: MedioPago)
    ensures !(IsCompuesto(m) && IsSimple(m))
    ensures IsActivo(m.activo) && (m.tipo.None? || m.tipo == Some("")) ==> IsSimple(m)
  {
    TipoKinds(m);
  }

  lemma TipoKinds(m: MedioPago)
    ensures !(TipoUpper(m, "") == "COMPUESTO" && TipoUpper(m, "SIMPLE") == "SIMPLE")
    ensures m.tipo.None? || m.tipo == Some("") ==> TipoUpper(m, "SIMPLE") == "SIMPLE"
  {
    if m.tipo.Some? && m.tipo.value != "" {
      assert TipoUpper(m, "") == TipoUpper(m, "SIMPLE");
      assert |"COMPUESTO"| != |"SIMPLE"|;
    } else {
      assert TipoUpper(m, "") == ToUpper("");
      UpperSimple();
    }
  }

  lemma UpperSimple()
    ensures ToUpper("SIMPLE") == "SIMPLE"
  {
    var s := "SIMPLE";
    assert forall i :: 0 <= i < |s| ==> 'A' <= s[i] <= 'Z';
  }

  /** The sort key `m.orden || 0`. */
  function OrdenKey(m: MedioPago): int {
    m.orden.GetOr(0)
  }

  predicate OrdenLe(a: MedioPago, b: MedioPago) {
    OrdenKey(a) <= OrdenKey(b)
  }

  lemma OrdenLeTotal()
    ensures TotalPreorder(OrdenLe)
  {
  }

  /** The catalogue entries that pass `keep`, sorted stably by `orden`. */
  function View(ms: seq<MedioPago>, keep: MedioPago -> bool): (r: seq<MedioPago>)
    ensures Sorted(r, OrdenLe)
    ensures forall m :: multiset(r)[m] == if keep(m) then multiset(ms)[m] else 0
  {
    OrdenLeTotal();
    assert forall m :: multiset(Filter(ms, keep))[m] == if keep(m) then multiset(ms)[m] else 0 by {
      forall m ensures multiset(Filter(ms, keep))[m] == if keep(m) then multiset(ms)[m] else 0 {
        FilterCount(ms, keep, m);
      }
    }
    SortBy(Filter(ms, keep), OrdenLe)
  }

  /** The composite list: active methods of type COMPUESTO, each as often as in the catalogue. */
  function Compuestos(ms: seq<MedioPago>): (r: seq<MedioPago>)
    ensures Sorted(r, OrdenLe)
    ensures forall m :: m in r <==> m in ms && IsCompuesto(m)
    ensures forall m :: multiset(r)[m] == if IsCompuesto(m) then multiset(ms)[m] else 0
  {
    View(ms, IsCompuesto)
  }

  /** The simple list: active methods of type SIMPLE or without a type. */
  function Simples(ms: seq<MedioPago>): (r: seq<MedioPago>)
    ensures Sorted(r, OrdenLe)
    ensures forall m :: m in r <==> m in ms && IsSimple(m)
    ensures forall m :: multiset(r)[m] == if IsSimple(m) then multiset(ms)[m] else 0
  {
    View(ms, IsSimple)
  }

  /** Kept entries whose sort key equals that of `k`. */
  function KeptWithKeyOf(keep: MedioPago -> bool, k: MedioPago): MedioPago -> bool {
    m => keep(m) && OrdenKey(m) == OrdenKey(k)
  }

  /** Methods with the same `orden` keep their catalogue order in a list. */
  lemma {:induction false} ViewKeepsCatalogueOrderOnTies(ms: seq<MedioPago>, keep: MedioPago -> bool, k: MedioPago)
    ensures Filter(View(ms, keep), TiedWith(OrdenLe, k)) == Filter(ms, KeptWithKeyOf(keep, k))
  {
    var tied := TiedWith(OrdenLe, k);
    OrdenLeTotal();
    SortStable(Filter(ms, keep), OrdenLe, k);
    FilterFilter(ms, keep, tied);
    FilterCongruent(ms, Both(keep, tied), KeptWithKeyOf(keep, k));
  }

  /** The text the search box looks in: `${m.nombre} ${m.descripcion || ''}`, lower-cased. */
  function SearchText(m: MedioPago): string {
    ToLower(m.nombre + " " + m.descripcion.GetOr(""))
  }

  /** The normalised query: `q.trim().toLowerCase()`. */
  function Query(q: string): string {
    ToLower(Trim(q))
  }

  function MatchesQuery(query: string): MedioPago -> bool {
    m => Contains(SearchText(m), query)
  }

  /** `compuestosFiltrados` / `simplesFiltrados`: an empty (or blank) query shows the whole
      list; otherwise the entries whose text includes the query, in list order. */
  function Search(list: seq<MedioPago>, q: string): (r: seq<MedioPago>)
    ensures IsSubseq(r, list)
    ensures Trim(q) == [] ==> r == list
    ensures Trim(q) != [] ==> forall m :: m in r <==> m in list && Contains(SearchText(m), Query(q))
    ensures Trim(q) != [] ==>
      forall m :: multiset(r)[m] == (if Contains(SearchText(m), Query(q)) then multiset(list)[m] else 0)
  {
    var query := Query(q);
    if query == [] then
      assert |Trim(q)| == 0;
      FilterAll(list, m => true);
      FilterIsSubseq(list, m => true);
      list
    else
      FilterIsSubseq(list, MatchesQuery(query));
      FilterCounts(list, MatchesQuery(query));
      Filter(list, MatchesQuery(query))
  }

  /** A method whose name includes the query (ignoring case) is always found. */
  lemma FindsByName(list: seq<MedioPago>, m: MedioPago, q: string)
    requires m in list
    requires Contains(ToLower(m.nombre), Query(q))
    ensures m in Search(list, q)
  {
    ToLowerAppend(m.nombre, " " + m.descripcion.GetOr(""));
    ContainsPrefix(ToLower(m.nombre), ToLower(" " + m.descripcion.GetOr("")), Query(q));
    assert m.nombre + " " + m.descripcion.GetOr("") == m.nombre + (" " + m.descripcion.GetOr(""));
  }

  /** Searching a searched list again with the same query changes nothing. */
  lemma SearchIdempotent(list: seq<MedioPago>, q: string)
    ensures Search(Search(list, q), q) == Search(list, q)
  {
    if Query(q) != [] {
      FilterIdempotent(list, MatchesQuery(Query(q)));
    }
  }

  /** The composite list as shown: exactly the active composite methods whose text includes
      the query, in `orden` order. */
  lemma {:induction false} CompuestosFiltradosExact(ms: seq<MedioPago>, q: string)
    ensures Sorted(Search(Compuestos(ms), q), OrdenLe)
    ensures forall m :: m in Search(Compuestos(ms), q) <==>
      m in ms && IsCompuesto(m) && (Trim(q) == [] || Contains(SearchText(m), Query(q)))
  {
    SubseqSorted(Search(Compuestos(ms), q), Compuestos(ms), OrdenLe);
  }

  /** The catalogue has an entry with this id. */
  predicate HasId(ms: seq<MedioPago>, id: int) {
    exists i | 0 <= i < |ms| :: ms[i].id == id
  }

  /** `new Map(ms.map(s => [s.id, s])).get(id)`: with repeated ids the last entry wins. */
  function FindLast(ms: seq<MedioPago>, id: int): (r: Option<MedioPago>)
    ensures r.None? <==> !HasId(ms, id)
    ensures r.Some? ==> exists i :: 0 <= i < |ms| && ms[i] == r.value && r.value.id == id
                                    && forall j :: i < j < |ms| ==> ms[j].id != id
  {
    if ms == [] then None
    else if ms[|ms| - 1].id == id then Some(ms[|ms| - 1])
    else
      var r := FindLast(ms[..|ms| - 1], id);
      assert HasId(ms, id) ==> HasId(ms[..|ms| - 1], id) by {
        if HasId(ms, id) {
          var i :| 0 <= i < |ms| && ms[i].id == id;
          assert ms[..|ms| - 1][i].id == id;
        }
      }
      r
  }

  function IdsOf(ms: seq<MedioPago>): (r: seq<int>)
    ensures |r| == |ms|
    ensures forall k :: 0 <= k < |ms| ==> r[k] == ms[k].id
  {
    if ms == [] then [] else [ms[0].id] + IdsOf(ms[1..])
  }

  /** `selectedSimples`: each selected id resolved to its catalogue entry, ids the catalogue
      does not know dropped, selection order kept. */
  function SelectedSimples(ids: seq<int>, simples: seq<MedioPago>): (r: seq<MedioPago>)
    ensures IdsOf(r) == Filter(ids, id => HasId(simples, id))
    ensures forall k :: 0 <= k < |r| ==> FindLast(simples, r[k].id) == Some(r[k])
  {
    if ids == [] then []
    else
      var rest := SelectedSimples(ids[1..], simples);
      match FindLast(simples, ids[0])
      case None => rest
      case Some(m) =>
        assert IdsOf([m] + rest) == [m.id] + IdsOf(rest);
        [m] + rest
  }
}
