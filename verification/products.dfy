/** The product list of the stock screens: the filter pipeline behind the table (text
    search, estado, category, price range) and its ordering, the product form (seeding
    it from a product, the discount input, price validation on submit) and deleting a
    product that still has stock. */
module Products {
  import opened Wrappers
  import opened Seqs
  import opened Text
  import opened JsNumber
  import opened Crud

  datatype Categoria = Categoria(id: int, nombre: Option<string>)

  /** A product row as the server sends it. A text field is `None` when it is missing or
      not a string; `precio` is the text of the DECIMAL column. */
  datatype Producto = Producto(
    id: int,
    nombre: Option<string>,
    descripcion: Option<string>,
    categoriaId: Option<int>,
    categoria: Option<Categoria>,
    precio: Option<string>,
    descuento: Option<Num>,
    imagenUrl: Option<string>,
    estado: Option<string>)

  /** The controls above the table: search box, estado select ('todos' for all), the
      category dropdown (`None` for all, else the selected value's text), the two price
      boxes and the order select. */
  datatype Filtros = Filtros(
    search: string,
    estado: string,
    categoria: Option<string>,
    precioMin: string,
    precioMax: string,
    ordenCampo: string)

  const InitialFiltros := Filtros("", "todos", None, "", "", "nombre")

  // ---------------------------------------------------------------- the filters

  function CategoriaNombre(p: Producto): Option<string> {
    if p.categoria.Some? then p.categoria.value.nombre else None
  }

  /** One searched field: a string whose lower-cased form includes the lower-cased search. */
  predicate CampoMatches(campo: Option<string>, search: string) {
    campo.Some? && Contains(ToLower(campo.value), ToLower(search))
  }

  /** Some of `nombre`, `descripcion` and `categoria.nombre` matches the search. */
  predicate MatchesSearch(p: Producto, search: string) {
    || CampoMatches(p.nombre, search)
    || CampoMatches(p.descripcion, search)
    || CampoMatches(CategoriaNombre(p), search)
  }

  predicate HasTextField(p: Producto) {
    p.nombre.Some? || p.descripcion.Some? || CategoriaNombre(p).Some?
  }

  /** Even the empty search hides a product none of whose searched fields is a string. */
  lemma EmptySearchNeedsText(p: Producto)
    ensures MatchesSearch(p, "") <==> HasTextField(p)
  {
    if p.nombre.Some? {
      ContainsEmpty(ToLower(p.nombre.value));
    }
    if p.descripcion.Some? {
      ContainsEmpty(ToLower(p.descripcion.value));
    }
    if CategoriaNombre(p).Some? {
      ContainsEmpty(ToLower(CategoriaNombre(p).value));
    }
  }

  /** `estadoFiltro === 'todos' ? true : p.estado === estadoFiltro`. */
  predicate EstadoOk(p: Producto, filtro: string) {
    filtro == "todos" || p.estado == Some(filtro)
  }

  /** `categoriaFiltro === null ? true : p.categoria_id === parseInt(categoriaFiltro)`: a
      filter text that is not a number matches no product. */
  predicate CategoriaOk(p: Producto, filtro: Option<string>) {
    filtro.None? || (ParseInt(filtro.value).Some? && p.categoriaId == ParseInt(filtro.value))
  }

  /** A number `||` treats as false. */
  predicate Falsy(n: Num) {
    n.NaN? || n == Finite(0.0)
  }

  /** `parseFloat(precioMin) || 0`. */
  function MinBound(t: string): Num {
    if Falsy(ParseFloat(t)) then Finite(0.0) else ParseFloat(t)
  }

  /** `parseFloat(precioMax) || Infinity`. */
  function MaxBound(t: string): Num {
    if Falsy(ParseFloat(t)) then PosInf else ParseFloat(t)
  }

  /** `parseFloat(p.precio)`; a missing price reads as NaN, as `parseFloat(undefined)`. */
  function PrecioValue(p: Producto): Num {
    ParseFloat(p.precio.GetOr(""))
  }

  /** `precio >= min && precio <= max`, both ends inclusive. */
  predicate PrecioOk(p: Producto, min: string, max: string) {
    Le(MinBound(min), PrecioValue(p)) && Le(PrecioValue(p), MaxBound(max))
  }

  function Matching(search: string): Producto -> bool {
    p => MatchesSearch(p, search)
  }

  function EstadoIs(filtro: string): Producto -> bool {
    p => EstadoOk(p, filtro)
  }

  function CategoriaIs(filtro: Option<string>): Producto -> bool {
    p => CategoriaOk(p, filtro)
  }

  function PrecioEntre(min: string, max: string): Producto -> bool {
    p => PrecioOk(p, min, max)
  }

  /** A product the table shows: it passes all four filters. */
  function Passes(f: Filtros): Producto -> bool {
    Both(Both(Both(Matching(f.search), EstadoIs(f.estado)), CategoriaIs(f.categoria)),
         PrecioEntre(f.precioMin, f.precioMax))
  }

  /** The four `.filter` calls of the table, one after the other. */
  function Pipeline(ps: seq<Producto>, f: Filtros): seq<Producto> {
    Filter(Filter(Filter(Filter(ps, Matching(f.search)), EstadoIs(f.estado)), CategoriaIs(f.categoria)),
           PrecioEntre(f.precioMin, f.precioMax))
  }

  /** Filtering four times in a row is filtering once by all four conditions. */
  lemma {:induction false} PipelineIsOneFilter(ps: seq<Producto>, f: Filtros)
    ensures Pipeline(ps, f) == Filter(ps, Passes(f))
  {
    var a, b, c, d := Matching(f.search), EstadoIs(f.estado), CategoriaIs(f.categoria), PrecioEntre(f.precioMin, f.precioMax);
    FilterFilter(ps, a, b);
    FilterFilter(ps, Both(a, b), c);
    FilterFilter(ps, Both(Both(a, b), c), d);
  }

  // ---------------------------------------------------------------- the order

  /** The sort key of `a.precio - b.precio`: the price text read by `Number`. */
  function PrecioKey(p: Producto): Num {
    match p.precio
    case None => NaN
    case Some(t) => StringToNumber(t)
  }

  /** `a - b <= 0` for keys that are numbers; a NaN key sorts first. */
  predicate NumOrder(a: Num, b: Num) {
    a.NaN? || (!b.NaN? && Le(a, b))
  }

  lemma NumOrderTotalPreorder(a: Num, b: Num, c: Num)
    ensures NumOrder(a, b) || NumOrder(b, a)
    ensures NumOrder(a, b) && NumOrder(b, c) ==> NumOrder(a, c)
  {
  }

  /** `a.nombre.localeCompare(b.nombre)`, read as code-point order; a name that is not a
      string sorts as the empty name. */
  function NombreKey(p: Producto): string {
    p.nombre.GetOr("")
  }

  function PorPrecio(): (le: (Producto, Producto) -> bool)
    ensures TotalPreorder(le)
  {
    var le := (a: Producto, b: Producto) => NumOrder(PrecioKey(a), PrecioKey(b));
    assert TotalPreorder(le) by {
      forall a: Producto, b: Producto, c: Producto
        ensures (le(a, b) || le(b, a)) && (le(a, b) && le(b, c) ==> le(a, c))
      {
        NumOrderTotalPreorder(PrecioKey(a), PrecioKey(b), PrecioKey(c));
      }
    }
    le
  }

  function PorNombre(): (le: (Producto, Producto) -> bool)
    ensures TotalPreorder(le)
  {
    var le := (a: Producto, b: Producto) => LexLe(NombreKey(a), NombreKey(b));
    assert TotalPreorder(le) by {
      forall a: Producto, b: Producto, c: Producto
        ensures (le(a, b) || le(b, a)) && (le(a, b) && le(b, c) ==> le(a, c))
      {
        LexLeTotal(NombreKey(a), NombreKey(b));
        if le(a, b) && le(b, c) {
          LexLeTransitive(NombreKey(a), NombreKey(b), NombreKey(c));
        }
      }
    }
    le
  }

  /** `ordenCampo === 'precio'` sorts by price, anything else by name. */
  function OrderOf(campo: string): (le: (Producto, Producto) -> bool)
    ensures TotalPreorder(le)
  {
    if campo == "precio" then PorPrecio() else PorNombre()
  }

  /** `filtered`: the products that pass every filter, sorted by the chosen field. */
  function Filtered(ps: seq<Producto>, f: Filtros): (r: seq<Producto>)
    ensures multiset(r) == multiset(Filter(ps, Passes(f)))
    ensures forall i :: 0 <= i < |r| ==> r[i] in ps && Passes(f)(r[i])
    ensures Sorted(r, OrderOf(f.ordenCampo))
  {
    PipelineIsOneFilter(ps, f);
    var r := SortBy(Pipeline(ps, f), OrderOf(f.ordenCampo));
    PermutedFilterMembers(r, ps, Passes(f));
    r
  }

  /** Products the order cannot tell apart (same price, or same name) keep the order
      the server sent them in. */
  lemma {:induction false} FilteredKeepsServerOrderOnTies(ps: seq<Producto>, f: Filtros, k: Producto)
    ensures Filter(Filtered(ps, f), TiedWith(OrderOf(f.ordenCampo), k))
         == Filter(ps, Both(Passes(f), TiedWith(OrderOf(f.ordenCampo), k)))
  {
    var le := OrderOf(f.ordenCampo);
    PipelineIsOneFilter(ps, f);
    SortStable(Pipeline(ps, f), le, k);
    FilterFilter(ps, Passes(f), TiedWith(le, k));
  }

  /** With the controls untouched the table shows the products that have a text field
      and a price that reads as a number of at least 0 (or `Infinity`). */
  lemma {:induction false} InitialListing(p: Producto)
    ensures Passes(InitialFiltros)(p) <==>
      HasTextField(p) && (PrecioValue(p) == PosInf || (PrecioValue(p).Finite? && PrecioValue(p).v >= 0.0))
  {
    EmptySearchNeedsText(p);
    PassesInitial(p);
    EmptyBounds(PrecioValue(p));
  }

  lemma PassesInitial(p: Producto)
    ensures Passes(InitialFiltros)(p) <==> MatchesSearch(p, "") && PrecioOk(p, "", "")
  {
  }

  /** Two empty price boxes accept `Infinity` and every number from 0 up. */
  lemma EmptyBounds(v: Num)
    ensures Le(MinBound(""), v) && Le(v, MaxBound("")) <==> v == PosInf || (v.Finite? && v.v >= 0.0)
  {
    ParseFloatEmpty();
  }

  /** An empty or `0` upper bound is no upper bound at all. */
  lemma ZeroMaxIsUnbounded(p: Producto, min: string)
    ensures MaxBound("0") == PosInf && MaxBound("") == PosInf
    ensures PrecioOk(p, min, "0") <==> PrecioOk(p, min, "")
  {
    ZeroAndEmptyMax();
  }

  lemma ZeroAndEmptyMax()
    ensures MaxBound("0") == PosInf && MaxBound("") == PosInf
  {
    ParseFloatZero();
    ParseFloatEmpty();
  }

  /** With bounds that read as non-zero numbers and a price that reads as a number, the
      range is inclusive at both ends. */
  lemma PriceRangeInclusive(p: Producto, min: string, max: string)
    requires ParseFloat(min).Finite? && ParseFloat(min).v != 0.0
    requires ParseFloat(max).Finite? && ParseFloat(max).v != 0.0
    requires PrecioValue(p).Finite?
    ensures PrecioOk(p, min, max) <==> ParseFloat(min).v <= PrecioValue(p).v <= ParseFloat(max).v
  {
  }

  // ---------------------------------------------------------------- the form

  /** The discount field: absent from a new product's form, `''` when the product had
      none, or a number. */
  datatype Descuento = NoField | Blank | Percent(n: Num)

  datatype ProductForm = ProductForm(
    nombre: string,
    descripcion: string,
    categoriaId: Option<int>,
    precio: string,
    descuento: Descuento,
    imagenUrl: string,
    estado: string)

  /** The form a new product starts from. */
  const NewForm := ProductForm("", "", None, "0", NoField, "", "activo")

  datatype ProductModal = ProductModal(open: bool, editId: Option<int>, form: ProductForm)

  /** `x || d` for a text field. */
  function TextOr(x: Option<string>, d: string): (r: string)
    ensures x.Some? && x.value != "" ==> r == x.value
    ensures x.None? || x.value == "" ==> r == d
  {
    if x.Some? && x.value != "" then x.value else d
  }

  /** `producto.categoria_id || producto.categoria?.id || ''`. */
  function CategoriaIdOf(p: Producto): (r: Option<int>)
    ensures r.None? || Truthy(r)
    ensures Truthy(p.categoriaId) ==> r == p.categoriaId
    ensures !Truthy(p.categoriaId) && p.categoria.Some? ==>
      (r.Some? <==> p.categoria.value.id != 0) && (r.Some? ==> r.value == p.categoria.value.id)
  {
    if Truthy(p.categoriaId) then p.categoriaId
    else if p.categoria.Some? && p.categoria.value.id != 0 then Some(p.categoria.value.id)
    else None
  }

  /** `openModal(producto)`: editing seeds the form from the product, creating starts from
      `NewForm`; either way the dialog opens. */
  function OpenModal(producto: Option<Producto>): (m: ProductModal)
    ensures m.open
    ensures producto.None? ==> m.editId.None? && m.form == NewForm
    ensures producto.Some? ==> m.editId == Some(producto.value.id)
    ensures producto.Some? ==> m.form.nombre == producto.value.nombre.GetOr("")
    ensures producto.Some? ==> m.form.descripcion == producto.value.descripcion.GetOr("")
    ensures producto.Some? ==> m.form.imagenUrl == producto.value.imagenUrl.GetOr("")
    ensures producto.Some? ==> m.form.precio == producto.value.precio.GetOr("")
    ensures producto.Some? ==> m.form.categoriaId == CategoriaIdOf(producto.value)
    ensures producto.Some? ==> m.form.estado != ""
    ensures producto.Some? && TextOr(producto.value.estado, "") == "" ==> m.form.estado == "activo"
    ensures producto.Some? && producto.value.estado.Some? && producto.value.estado.value != "" ==>
      m.form.estado == producto.value.estado.value
    ensures producto.Some? ==> (m.form.descuento.Blank? <==> producto.value.descuento.None?)
    ensures producto.Some? && producto.value.descuento.Some? ==>
      m.form.descuento == Percent(producto.value.descuento.value)
  {
    match producto
    case None => ProductModal(true, None, NewForm)
    case Some(p) =>
      ProductModal(true, Some(p.id), ProductForm(
        TextOr(p.nombre, ""),
        TextOr(p.descripcion, ""),
        CategoriaIdOf(p),
        p.precio.GetOr(""),
        if p.descuento.Some? then Percent(p.descuento.value) else Blank,
        TextOr(p.imagenUrl, ""),
        TextOr(p.estado, "activo")))
  }

  /** The discount input: `Number(value)` clamped into [0, 100]; text that is not a number
      stays NaN. */
  function ClampPercent(n: Num): (r: Num)
    ensures r.NaN? <==> n.NaN?
    ensures !r.NaN? ==> Le(Finite(0.0), r) && Le(r, Finite(100.0))
    ensures Le(Finite(0.0), n) && Le(n, Finite(100.0)) ==> r == n
    ensures Lt(n, Finite(0.0)) ==> r == Finite(0.0)
    ensures Lt(Finite(100.0), n) ==> r == Finite(100.0)
  {
    var v := if Lt(n, Finite(0.0)) then Finite(0.0) else n;
    if Lt(Finite(100.0), v) then Finite(100.0) else v
  }

  /** Clamping a clamped value changes nothing. */
  lemma ClampIdempotent(n: Num)
    ensures ClampPercent(ClampPercent(n)) == ClampPercent(n)
  {
  }

  /** Clamping keeps the order of two readings. */
  lemma ClampMonotone(a: Num, b: Num)
    requires Le(a, b)
    ensures Le(ClampPercent(a), ClampPercent(b))
  {
  }

  /** Typing into the discount box changes only the discount. */
  function OnDescuentoInput(form: ProductForm, text: string): (r: ProductForm)
    ensures r == form.(descuento := r.descuento)
    ensures r.descuento.Percent?
    ensures r.descuento.n.NaN? || (Le(Finite(0.0), r.descuento.n) && Le(r.descuento.n, Finite(100.0)))
  {
    form.(descuento := Percent(ClampPercent(StringToNumber(text))))
  }

  // ---------------------------------------------------------------- the sent price

  /** The price text submit sends, `parseFloat(precio).toFixed(2)`, or `None` when the price
      is rejected: NaN and anything below 0 (including `-Infinity`). */
  function SentPrecio(t: string): (r: Option<string>)
    ensures r.None? <==> ParseFloat(t).NaN? || Lt(ParseFloat(t), Finite(0.0))
    ensures ParseFloat(t) == PosInf ==> r == Some("Infinity")
  {
    match ParseFloat(t)
    case NaN => None
    case NegInf => None
    case PosInf => Some("Infinity")
    case Finite(x) => if x < 0.0 then None else Some(FixedCents(RoundCents(x)))
  }

  /** An accepted finite price is sent as text that reads back as the price rounded to
      cents. */
  lemma SentPrecioReadsBack(t: string)
    requires ParseFloat(t).Finite? && SentPrecio(t).Some?
    ensures ParseFloat(SentPrecio(t).value) == Finite(Round2(ParseFloat(t).v))
  {
    var x := ParseFloat(t).v;
    SentPrecioOfValue(t, x);
    ParseFloatToFixed(x);
    SentReadsAs(t, FixedCents(RoundCents(x)), Round2(x));
  }

  lemma SentReadsAs(t: string, u: string, v: real)
    requires SentPrecio(t) == Some(u) && ParseFloat(u) == Finite(v)
    ensures ParseFloat(SentPrecio(t).value) == Finite(v)
  {
  }

  /** A price already in the sent form is sent unchanged. */
  lemma {:induction false} SentPrecioIdempotent(t: string)
    requires SentPrecio(t).Some?
    ensures SentPrecio(SentPrecio(t).value) == SentPrecio(t)
  {
    match ParseFloat(t)
    case PosInf => SentPrecioInfinity();
    case Finite(x) => SentPrecioFixed(RoundCents(x));
  }

  lemma SentPrecioInfinity()
    ensures SentPrecio("Infinity") == Some("Infinity")
  {
    ParseFloatInfinity();
  }

  /** `toFixed(2)` text of a whole number of cents is sent as it is. */
  lemma SentPrecioFixed(m: nat)
    ensures SentPrecio(FixedCents(m)) == Some(FixedCents(m))
  {
    ParseFloatFixedRoundTrip(m);
    SentOfCents(FixedCents(m), m);
  }

  /** A price that reads as whole cents is sent as the `toFixed(2)` text of those cents. */
  lemma SentOfCents(t: string, m: nat)
    requires ParseFloat(t) == Finite(m as real / 100.0)
    ensures SentPrecio(t) == Some(FixedCents(m))
  {
    RoundCentsOfCents(m);
    SentPrecioOfValue(t, m as real / 100.0);
    SentSameCents(t, RoundCents(m as real / 100.0), m);
  }

  lemma SentSameCents(t: string, k: nat, m: nat)
    requires SentPrecio(t) == Some(FixedCents(k)) && k == m
    ensures SentPrecio(t) == Some(FixedCents(m))
  {
  }

  lemma SentPrecioOfValue(t: string, x: real)
    requires ParseFloat(t) == Finite(x) && x >= 0.0
    ensures SentPrecio(t) == Some(FixedCents(RoundCents(x)))
  {
  }

  /** A sent price is within half a cent of the typed one. */
  lemma SentPrecioWithinHalfCent(t: string)
    requires ParseFloat(t).Finite? && SentPrecio(t).Some?
    ensures ParseFloat(SentPrecio(t).value).Finite?
    ensures -0.005 <= ParseFloat(SentPrecio(t).value).v - ParseFloat(t).v <= 0.005
  {
    SentPrecioReadsBack(t);
    Round2Error(ParseFloat(t).v);
  }

  // ---------------------------------------------------------------- the browser's check

  /** The optional exponent of an HTML floating-point number: `e` or `E`, an optional sign
      and at least one digit. */
  predicate PlainExponent(w: string) {
    w == [] ||
    ((w[0] == 'e' || w[0] == 'E') &&
     var v := if |w| > 1 && (w[1] == '+' || w[1] == '-') then w[2..] else w[1..];
     v != [] && AllDigits(v))
  }

  /** A valid floating-point number of the HTML standard: an optional `-`, then digits, or
      digits, a `.` and digits, or a `.` and digits, then an optional exponent. A number
      input blanks any other text. */
  predicate PlainNumber(t: string) {
    var u := if t != [] && t[0] == '-' then t[1..] else t;
    var a := DigitRun(u);
    var w := u[a..];
    if w != [] && w[0] == '.' then
      var b := DigitRun(w[1..]);
      b > 0 && PlainExponent(w[1 + b..])
    else
      a > 0 && PlainExponent(w)
  }

  /** The price input, `type="number" min="0" step="0.01"`, lets the form submit when its
      text is blanked (an optional blank field passes) or when the number is at least 0
      and a whole number of cents. */
  predicate PriceAllowed(t: string) {
    !PlainNumber(t) || (ParseFloat(t).Finite? && ParseFloat(t).v >= 0.0 && IsCents(ParseFloat(t).v))
  }

  /** The discount input, `type="number" min="0" max="100" step="0.01"`, shows
      `descuento_porcentaje || ''`: a missing, blank, NaN or 0 discount shows as blank and
      infinite ones are blanked, so only a finite non-zero discount is checked, and it
      must lie in [0, 100] and be a whole number of hundredths. */
  predicate DiscountAllowed(d: Descuento) {
    !(d.Percent? && d.n.Finite? && d.n.v != 0.0) ||
    (0.0 <= d.n.v <= 100.0 && IsCents(d.n.v))
  }

  /** What the browser checks before it fires `onSubmit`: the name input is `required`, so
      the name must not be empty, and the price and discount inputs must allow their
      values. */
  predicate Submittable(f: ProductForm) {
    f.nombre != "" && PriceAllowed(f.precio) && DiscountAllowed(f.descuento)
  }

  /** After typing into the discount box the range never blocks the form, since the value
      is clamped into [0, 100]; only a value finer than hundredths does. */
  lemma TypedDiscountAllowed(form: ProductForm, text: string)
    ensures var d := OnDescuentoInput(form, text).descuento;
      DiscountAllowed(d) <==> !(d.n.Finite? && !IsCents(d.n.v))
  {
  }

  /** A price the number input accepts is sent with its value unchanged: `toFixed(2)`
      only rewrites the text. */
  lemma AllowedPriceSentExactly(t: string)
    requires PlainNumber(t) && PriceAllowed(t)
    ensures SentPrecio(t).Some?
    ensures ParseFloat(SentPrecio(t).value) == ParseFloat(t)
  {
    var x := ParseFloat(t).v;
    SentPrecioReadsBack(t);
    Round2OfCents(x);
  }

  /** The normalised price text the form sends would pass the number input again. */
  lemma SentPrecioAllowed(t: string)
    requires ParseFloat(t).Finite? && SentPrecio(t).Some?
    ensures PriceAllowed(SentPrecio(t).value)
  {
    SentPrecioReadsBack(t);
    Round2Error(ParseFloat(t).v);
  }

  // ---------------------------------------------------------------- submitting

  const InvalidPriceText := "Por favor ingrese un precio válido"

  /** A form the browser refuses never reaches `handleSubmit`; there a rejected price
      raises an alert and sends nothing, an accepted one sends the form with the
      normalised price, then reacts to the reply. */
  datatype SubmitOutcome =
    | Blocked
    | Rejected(alert: string)
    | Sent(request: Save<ProductForm>, after: AfterSave)

  /** Submitting the form: the browser's check, then `handleSubmit`. */
  function Submit(m: ProductModal, reply: Reply<()>): (o: SubmitOutcome)
    ensures o.Blocked? <==> !Submittable(m.form)
    ensures o.Rejected? <==> Submittable(m.form) && SentPrecio(m.form.precio).None?
    ensures o.Rejected? ==> o.alert == InvalidPriceText
    ensures o.Sent? ==> o.request.body == m.form.(precio := SentPrecio(m.form.precio).value)
    ensures o.Sent? ==> (o.request.Update? <==> Truthy(m.editId))
    ensures o.Sent? && o.request.Update? ==> o.request.id == m.editId.value
    ensures o.Sent? ==> (o.after.modalOpen <==> reply.Failed?) && (o.after.refetch <==> reply.Done?)
  {
    if !Submittable(m.form) then Blocked
    else match SentPrecio(m.form.precio)
      case None => Rejected(InvalidPriceText)
      case Some(text) => Sent(SaveRequest(m.editId, m.form.(precio := text)), OnSaveReply(reply))
  }

  /** An untouched new form cannot be submitted, since its name is empty; once a name is
      typed, saving creates the product with the price "0.00". */
  lemma NewProductSavesZeroPrice(nombre: string, reply: Reply<()>)
    ensures Submit(OpenModal(None), reply) == Blocked
    ensures var m := OpenModal(None);
      nombre != "" ==>
      Submit(m.(form := m.form.(nombre := nombre)), reply) ==
      Sent(Create(NewForm.(nombre := nombre, precio := "0.00")), OnSaveReply(reply))
  {
    ParseFloatZero();
    assert DigitRun("0") == 1;
    assert PlainNumber("0");
    assert IsCents(0.0);
    assert RoundCents(0.0) == 0;
    assert NatToString(0) == "0";
    assert FixedCents(0) == "0.00";
  }

  /** Saving an existing product without touching the form updates that product, with
      its price normalised to two decimals, as long as its id is truthy, it has a name,
      its price reads as a number of at least 0 that the price input allows, and its
      discount passes the discount input; a price written as a plain number is sent with
      its value unchanged. */
  lemma EditedProductUpdatesItself(p: Producto, reply: Reply<()>)
    requires p.id != 0
    requires p.nombre.Some? && p.nombre.value != ""
    requires ParseFloat(p.precio.GetOr("")).Finite? && ParseFloat(p.precio.GetOr("")).v >= 0.0
    requires PriceAllowed(p.precio.GetOr(""))
    requires p.descuento.Some? ==> DiscountAllowed(Percent(p.descuento.value))
    ensures Submit(OpenModal(Some(p)), reply).Sent?
    ensures Submit(OpenModal(Some(p)), reply).request.Update?
    ensures Submit(OpenModal(Some(p)), reply).request.id == p.id
    ensures ParseFloat(Submit(OpenModal(Some(p)), reply).request.body.precio)
         == Finite(Round2(ParseFloat(p.precio.GetOr("")).v))
    ensures PlainNumber(p.precio.GetOr("")) ==>
      ParseFloat(Submit(OpenModal(Some(p)), reply).request.body.precio) == ParseFloat(p.precio.GetOr(""))
  {
    SentPrecioReadsBack(p.precio.GetOr(""));
    if PlainNumber(p.precio.GetOr("")) {
      AllowedPriceSentExactly(p.precio.GetOr(""));
    }
  }

  // ---------------------------------------------------------------- deleting

  /** The requests of a forced delete: the product's stock first, then the product. */
  datatype DeleteRequest = DeleteStock(productoId: int) | DeleteProducto(productoId: int)

  /** The Eliminar button of the warning dialog for the pending product. */
  function ConfirmForcedDelete(s: DeleteState, replies: seq<Reply<()>>): (r: ForceOutcome<DeleteRequest>)
    requires DialogOpen(s)
    requires |replies| == 2
    ensures r.issued != [] && r.issued[0] == DeleteStock(s.confirmDelete.value)
    ensures DeleteProducto(s.confirmDelete.value) in r.issued <==> replies[0].Done?
    ensures r.refetch <==> replies[0].Done? && replies[1].Done?
    ensures r.refetch ==> !DialogOpen(r.state)
    ensures !r.refetch ==> r.state == s
  {
    var id := s.confirmDelete.value;
    var plan := [DeleteStock(id), DeleteProducto(id)];
    var r := ForceDelete(s, plan, replies);
    assert replies[0].Failed? ==> r.issued == [DeleteStock(id)] by {
      if replies[0].Failed? {
        ForceDeleteStopsAtFailure(s, plan, replies, 0);
      }
    }
    assert replies[0].Done? && replies[1].Failed? ==> r.issued == plan by {
      if replies[0].Done? && replies[1].Failed? {
        ForceDeleteStopsAtFailure(s, plan, replies, 1);
      }
    }
    r
  }
}
