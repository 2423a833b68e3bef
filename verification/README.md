# Point-of-sale admin console: payment methods, split payments and catalogue screens

This project models, in Dafny, the logic behind several screens of a point-of-sale admin
console.

- **The composite payment-method editor** (`ModalCombinarMediosPago`). It lists the active
  composite and simple payment methods, sorted by `orden`, with a text search. It builds an
  ordered list of component ids using a checkbox, remove and up/down arrows. It validates
  the form, then saves in sequence: create/update the method, replace its component list,
  refresh the catalogue. It can load an existing composite back into the form.
- **The split-payment dialog** (`ModalPagoCompuesto`). It reads the sale total and the
  amounts with `toNum`, which accepts a decimal comma or point, and keeps one amount per
  component. It computes the rounded
  difference with the sale total and the "balanced" flag, auto-fills the last component
  so that the split balances, and builds the allocation sent on confirm.
- **The cash-collection report** (`RecaudacionesCaja`). It builds the query string from the
  filters and the user's role. It reads either response shape, filters the rows by free
  text, pages them 20 at a time and totals the period.
- **The product list** (`ProductosGet`). It has a search/estado/category/price filter
  pipeline and sorting by price or name. It seeds the product form and clamps the discount
  input. The browser blocks a form without a name, or with a price or discount its input
  refuses. Past that, it validates the price on submit and sends it as two-decimal text,
  and deletes via the conflict dialog.
- **The estados list** (`Estados`). It has a case-insensitive, untrimmed name filter, a
  create-or-rename form whose name is required, and the same conflict dialog.
- **The staff navigation bar** (`NavbarStaff`). It derives the greeting name from `nomyape`
  or `userName`, falling back to 'Invitado', and filters the links by role.

**How the model is built.** Every screen action is a pure function from the screen's
state, plus the replies of the calls it makes, to the new state, the requests issued and
the notice shown. The replies are `Reply` values given as inputs, because HTTP, timers
and React scheduling are not modelled.

**JavaScript semantics** are written out in shared modules:

| Module | What it covers |
|---|---|
| `Text` | `trim`, `toLowerCase`/`toUpperCase`, `includes`, `indexOf`, `split(c)[0]`, `replace` of a one-character pattern |
| `JsNumber` | `parseFloat`, `parseInt`, `Number(text)`, NaN and the infinities, `toFixed(2)`, `String(x)` for amounts in cents |
| `UrlQuery` | `URLSearchParams` serialisation |
| `Seqs` | `filter` and the stable `sort` |

**Two behaviours of the code worth knowing:**

- **Component round trip.** Reloading a saved composite reproduces its member list only
  when no member id is 0. Load drops falsy ids: `CompositeEditor.SaveThenLoadIds`.
- **Balance check.** The dialog is "balanced" when the total minus the sum, rounded to
  cents, is within one cent. This is the same as the raw difference being strictly within
  1.5 cents, so a raw difference of 1.2 cents still counts as balanced: `SplitPayment.OkIff`.

## Model

| member | source | states |
|---|---|---|
| PaymentMethods.Compuestos | src/Components/Ventas/ModalCombinarMediosPago.jsx:24-37 | exactly the active methods whose upper-cased `tipo` is COMPUESTO, each with its catalogue multiplicity, sorted ascending by `orden` (missing = 0) |
| PaymentMethods.Simples | src/Components/Ventas/ModalCombinarMediosPago.jsx:39-44 | exactly the active methods whose `tipo` (missing or empty = SIMPLE) upper-cases to SIMPLE, with multiplicity, sorted by `orden` |
| PaymentMethods.KindsDisjoint | src/Components/Ventas/ModalCombinarMediosPago.jsx:32-44 | no method is both composite and simple; an active method without a type is simple |
| PaymentMethods.ViewKeepsCatalogueOrderOnTies | src/Components/Ventas/ModalCombinarMediosPago.jsx:36 | methods with equal `orden` keep their catalogue order (the sort is stable) |
| PaymentMethods.Search | src/Components/Ventas/ModalCombinarMediosPago.jsx:80-94 | a blank query returns the list unchanged; otherwise an order-preserving sublist holding every occurrence of each entry whose lower-cased `nombre + ' ' + descripcion` includes the trimmed lower-cased query, and no other entry |
| PaymentMethods.SearchIdempotent | src/Components/Ventas/ModalCombinarMediosPago.jsx:80-94 | searching the search result again changes nothing |
| PaymentMethods.FindsByName | src/Components/Ventas/ModalCombinarMediosPago.jsx:83-85 | a method whose name includes the query is always found |
| PaymentMethods.CompuestosFiltradosExact | src/Components/Ventas/ModalCombinarMediosPago.jsx:32-37 | the filtered composite list is sorted and holds exactly the active composites matching the query |
| PaymentMethods.FindLast | src/Components/Ventas/ModalCombinarMediosPago.jsx:97 | `Map` built from the list: an id is found iff present, and the last entry with that id wins |
| PaymentMethods.SelectedSimples | src/Components/Ventas/ModalCombinarMediosPago.jsx:96-99 | the ids of the result are the member ids that are in the simples catalogue, in list order, and each entry is the catalogue's entry for its id |
| ComponentList.Toggle | src/Components/Ventas/ModalCombinarMediosPago.jsx:130-138 | the id ends up present iff it was absent; a new id is appended at the end; other ids' counts are unchanged |
| ComponentList.ToggleTwiceRestores | src/Components/Ventas/ModalCombinarMediosPago.jsx:130-138 | checking then unchecking an absent id restores the list |
| ComponentList.ToggleTwiceMovesToEnd | src/Components/Ventas/ModalCombinarMediosPago.jsx:130-138 | unchecking then re-checking a present id moves it to the end |
| ComponentList.ToggleKeepsNoDup | src/Components/Ventas/ModalCombinarMediosPago.jsx:130-138 | toggling preserves "no repeated ids" |
| ComponentList.Remove | src/Components/Ventas/ModalCombinarMediosPago.jsx:140-145 | every occurrence of the id goes, the rest keep their counts and relative order; an absent id changes nothing |
| ComponentList.Move | src/Components/Ventas/ModalCombinarMediosPago.jsx:147-159 | a permutation: the first occurrence trades places with its neighbour; an absent id or one at the boundary leaves the list unchanged |
| ComponentList.MoveRoundTrip | src/Components/Ventas/ModalCombinarMediosPago.jsx:147-159 | with distinct ids, the opposite arrow undoes a move |
| ComponentList.MoveKeepsNoDup | src/Components/Ventas/ModalCombinarMediosPago.jsx:147-159 | moving preserves "no repeated ids" |
| CompositeEditor.ResetForm | src/Components/Ventas/ModalCombinarMediosPago.jsx:62-74 | back to the initial editor (mode NUEVO, nothing selected, empty searches and form), `saving` untouched |
| CompositeEditor.OnShowChange | src/Components/Ventas/ModalCombinarMediosPago.jsx:76-78 | closing the dialog resets it to mode NUEVO, nothing selected, empty searches and an empty form, `saving` untouched; opening it changes nothing |
| CompositeEditor.Validate | src/Components/Ventas/ModalCombinarMediosPago.jsx:161-166 | no error iff the trimmed name is non-empty and there are at least 2 ids; the name error takes precedence |
| CompositeEditor.ComponentesPayload | src/Components/Ventas/ModalCombinarMediosPago.jsx:203-209 | one entry per selected id, in selection order: entry i carries id i, `orden` i+1 and `activo` 1 |
| CompositeEditor.Guardar | src/Components/Ventas/ModalCombinarMediosPago.jsx:172-220 | a validation failure sends nothing and only warns; otherwise the save sequence runs |
| CompositeEditor.Persist | src/Components/Ventas/ModalCombinarMediosPago.jsx:176-219 | the first request is the POST/PUT; the success toast comes iff every call succeeds with a truthy id, and then the component list goes to that id and the form resets; otherwise an error alert keeps the form; `saving` ends false |
| CompositeEditor.SendComponents | src/Components/Ventas/ModalCombinarMediosPago.jsx:203-214 | the component replacement is the second request and the refresh the third; toast iff both succeed |
| CompositeEditor.GuardarSendsValidComponents | src/Components/Ventas/ModalCombinarMediosPago.jsx:200-209 | a component list is only sent after validation, to a non-zero id, with at least 2 entries, entry i being (id i, orden i+1, activo 1) |
| CompositeEditor.FirstCallBody | src/Components/Ventas/ModalCombinarMediosPago.jsx:180-197 | POST iff mode NUEVO; the trimmed name and tipo COMPUESTO are sent; `ajuste_porcentual` 0 only on create |
| CompositeEditor.SaveButton | src/Components/Ventas/ModalCombinarMediosPago.jsx:337-338 | while saving, pressing the button does nothing |
| CompositeEditor.LoadComposite | src/Components/Ventas/ModalCombinarMediosPago.jsx:101-128 | mode and selection switch at once; on success the fields come from the method and the ids are those loaded from a list body (none from any other body); on failure the old form stays and the error is shown |
| CompositeEditor.OrderedRows | src/Components/Ventas/ModalCombinarMediosPago.jsx:112 | the rows rearranged into ascending `orden` (missing = 0), rows with equal `orden` in the server's order |
| CompositeEditor.RowIds | src/Components/Ventas/ModalCombinarMediosPago.jsx:114-116 | each row contributes its truthy id or nothing: rows that all have one give exactly their ids in row order, rows that have none give none |
| CompositeEditor.RowIdsAppend | src/Components/Ventas/ModalCombinarMediosPago.jsx:114-116 | the ids of two runs of rows are the ids of the first run followed by those of the second |
| CompositeEditor.LoadIdsOfSortedPermutation | src/Components/Ventas/ModalCombinarMediosPago.jsx:112-116 | when no two rows share an `orden`, the loaded ids are those of the rows' unique arrangement by ascending `orden`, whatever order the server listed them in |
| Seqs.SortedPermutationUnique | src/Components/Ventas/ModalCombinarMediosPago.jsx:112 | with no ties, two sorted arrangements of the same rows are identical |
| CompositeEditor.SaveThenLoadIds | src/Components/Ventas/ModalCombinarMediosPago.jsx:112-116 | loading the rows a save stored, listed by the server in any order, gives back the saved ids without the 0s, in the saved order; a list without a 0 id comes back unchanged |
| CompositeEditor.SaveThenReload | src/Components/Ventas/ModalCombinarMediosPago.jsx:101-214 | after a successful save, loading the stored components, in any order, restores the form's ids |
| SplitPayment.ToNum | src/Pages/Ventas/Components/ModalPagoCompuesto.jsx:5-8 | missing gives 0; a number is kept unless it is not finite; typed text gives the value its comma-replaced form parses to when that is finite, and 0 when it is NaN or infinite |
| SplitPayment.ToNumDecimalComma | src/Pages/Ventas/Components/ModalPagoCompuesto.jsx:5-8 | an amount written with a decimal comma reads back as that amount |
| SplitPayment.ToNumTwoDecimalsComma | src/Pages/Ventas/Components/ModalPagoCompuesto.jsx:5-8 | an amount typed with two decimals and a decimal comma, such as "1,50", reads as that amount |
| SplitPayment.ToNumDecimalPoint | src/Pages/Ventas/Components/ModalPagoCompuesto.jsx:5-8 | an amount written with a decimal point reads back as that amount |
| SplitPayment.Open | src/Pages/Ventas/Components/ModalPagoCompuesto.jsx:18-28 | on opening every component's amount is 0, nothing else has an amount, the sum is 0 |
| SplitPayment.SetAmount | src/Pages/Ventas/Components/ModalPagoCompuesto.jsx:137-143 | only the edited component's amount changes, to the parsed input |
| SplitPayment.SumaPut | src/Pages/Ventas/Components/ModalPagoCompuesto.jsx:30-32 | replacing one amount changes the sum by exactly the difference |
| SplitPayment.OkIff | src/Pages/Ventas/Components/ModalPagoCompuesto.jsx:34-35 | balanced iff total minus sum is strictly between -0.015 and 0.015 |
| SplitPayment.OkInCents | src/Pages/Ventas/Components/ModalPagoCompuesto.jsx:34-35 | for whole-cent totals and sums, balanced iff they differ by at most one cent |
| SplitPayment.Autocompletar | src/Pages/Ventas/Components/ModalPagoCompuesto.jsx:37-50 | no components: nothing changes; otherwise only the last component's amount changes, and the dialog is then balanced |
| SplitPayment.AutocompletarBalances | src/Pages/Ventas/Components/ModalPagoCompuesto.jsx:43-47 | filling the last component with the rounded remainder always balances |
| SplitPayment.Detalle | src/Pages/Ventas/Components/ModalPagoCompuesto.jsx:63-67 | one allocation per component in order, `orden` 0-based, each amount whole cents within half a cent of the entered amount, a tie going away from zero, which pins it to `+x.toFixed(2)` (see `JsNumber.Round2Unique`) |
| SplitPayment.AllocationAddsUp | src/Pages/Ventas/Components/ModalPagoCompuesto.jsx:63-67 | with whole-cent amounts the allocation totals exactly the dialog's sum |
| SplitPayment.Confirmar | src/Pages/Ventas/Components/ModalPagoCompuesto.jsx:52-73 | unbalanced: a warning and no call; balanced: the allocation is sent, the dialog closes iff the call succeeds, and loading is cleared either way |
| SplitPayment.ConfirmButton | src/Pages/Ventas/Components/ModalPagoCompuesto.jsx:186 | disabled (no call, no change) while unbalanced or loading |
| UrlQuery.Encode | src/Pages/Ventas/RecaudacionesCaja.jsx:52-62 | the form-encoded text contains only `%`, `+` and unreserved characters; unreserved text is unchanged |
| UrlQuery.WithQuery | src/Pages/Ventas/RecaudacionesCaja.jsx:62-64 | a `?` and the query follow the path iff there are parameters; none gives the bare path |
| Recaudaciones.LocalIdFinal | src/Pages/Ventas/RecaudacionesCaja.jsx:54-55 | non-admins always query their own local; an admin's 'auto' or empty choice means no local filter |
| Recaudaciones.Params | src/Pages/Ventas/RecaudacionesCaja.jsx:57-60 | at most four parameters; `local_id` is sent, with that value, iff there is a final local id; `usuario_id` iff the user filter is not 'todos', with its value; `desde` and `hasta` iff their text is not empty, with that text; empty values are never sent except the user id |
| Recaudaciones.Url | src/Pages/Ventas/RecaudacionesCaja.jsx:62-64 | the URL carries a `?` iff some parameter is set |
| Recaudaciones.AdminStartsUnfiltered | src/Pages/Ventas/RecaudacionesCaja.jsx:36-37 | with the initial filters an admin requests the bare path |
| Recaudaciones.Filas | src/Pages/Ventas/RecaudacionesCaja.jsx:70-74 | a plain array or the `data` array of a wrapper is used, anything else gives no rows |
| Recaudaciones.Reload | src/Pages/Ventas/RecaudacionesCaja.jsx:49-87 | success replaces the rows and returns to page 1; a failure (or a null body) empties the rows and keeps the page |
| Recaudaciones.Filtradas | src/Pages/Ventas/RecaudacionesCaja.jsx:103-119 | a blank search shows all rows; otherwise an order-preserving sublist holding every occurrence of each row whose observations, caja id or amount text include the trimmed lower-cased search, and no other row |
| Recaudaciones.FindsByAmount | src/Pages/Ventas/RecaudacionesCaja.jsx:113 | searching an amount's own text finds the row |
| Recaudaciones.TotalPaginas | src/Pages/Ventas/RecaudacionesCaja.jsx:121-123 | the number of 20-row pages needed, 0 for no rows |
| Recaudaciones.Pagina | src/Pages/Ventas/RecaudacionesCaja.jsx:125-128 | at most 20 rows; a page in range is the matching slice; a page past the end is empty |
| Recaudaciones.PagesCover | src/Pages/Ventas/RecaudacionesCaja.jsx:121-128 | the pages in order put back together are exactly the filtered rows |
| Recaudaciones.PeriodTotalByPages | src/Pages/Ventas/RecaudacionesCaja.jsx:130-134 | the period total equals the sum of the page totals |
| Recaudaciones.CambiarPagina | src/Pages/Ventas/RecaudacionesCaja.jsx:136-140 | the page changes only to a target between 1 and the page count |
| Recaudaciones.ArrowsStayInRange | src/Pages/Ventas/RecaudacionesCaja.jsx:333-343 | from a page in range, the arrows keep the page in range |
| Recaudaciones.NameOr | src/Pages/Ventas/RecaudacionesCaja.jsx:44-47 | the first entry with the id gives its name when that is non-empty; a missing entry, or one with an empty or missing name, gives the prefix followed by the id; never empty |
| Recaudaciones.NombreLocal | src/Pages/Ventas/RecaudacionesCaja.jsx:44-45 | never empty; an unknown local shows as "Local #" and its id |
| Recaudaciones.NombreUsuario | src/Pages/Ventas/RecaudacionesCaja.jsx:46-47 | never empty; an unknown user shows as "Usuario #" and its id |
| Recaudaciones.FirstEntryNames | src/Pages/Ventas/RecaudacionesCaja.jsx:44-47 | the first entry with the id names it, whatever later entries with the same id say |
| Products.Filtered | src/Pages/Stock/ProductosGet.jsx:60-93 | exactly the products passing all four filters, with multiplicity, each from the input, sorted by the chosen field |
| Products.PipelineIsOneFilter | src/Pages/Stock/ProductosGet.jsx:60-89 | the four chained filters equal one filter by the conjunction of their conditions |
| Products.FilteredKeepsServerOrderOnTies | src/Pages/Stock/ProductosGet.jsx:90-93 | products the order cannot tell apart keep the server's order |
| Products.EmptySearchNeedsText | src/Pages/Stock/ProductosGet.jsx:62-74 | with an empty search a product shows iff one of its searched fields is a string |
| Products.InitialListing | src/Pages/Stock/ProductosGet.jsx:33-40 | with the controls untouched a product shows iff it has a text field and its price reads as a number of at least 0 |
| Products.ZeroMaxIsUnbounded | src/Pages/Stock/ProductosGet.jsx:84-89 | an empty or 0 maximum means no upper bound |
| Products.PriceRangeInclusive | src/Pages/Stock/ProductosGet.jsx:84-89 | with numeric non-zero bounds the price filter is min <= price <= max, inclusive |
| Products.OpenModal | src/Pages/Stock/ProductosGet.jsx:95-119 | editing seeds from the product: name, description and image URL copied (missing = empty), category id falling back to `categoria.id`, the price text, a present discount as that number and a missing one as a blank field, a non-empty estado kept and an empty one replaced by 'activo'; creating starts with price '0' and no discount field |
| Products.ClampPercent | src/Pages/Stock/ProductosGet.jsx:436-440 | NaN stays NaN; any other value lands in [0, 100]; values already there are kept |
| Products.ClampIdempotent | src/Pages/Stock/ProductosGet.jsx:436-440 | clamping twice is clamping once |
| Products.ClampMonotone | src/Pages/Stock/ProductosGet.jsx:436-440 | clamping preserves order |
| Products.OnDescuentoInput | src/Pages/Stock/ProductosGet.jsx:436-440 | typing in the discount box changes only the discount, to NaN or a value in [0, 100] |
| Products.SentPrecio | src/Pages/Stock/ProductosGet.jsx:124-134 | rejected iff the price is NaN or below 0; an infinite price is sent as "Infinity" |
| Products.SentPrecioReadsBack | src/Pages/Stock/ProductosGet.jsx:124-134 | an accepted finite price is sent as text that reads back as the price rounded to cents |
| Products.SentPrecioIdempotent | src/Pages/Stock/ProductosGet.jsx:124-134 | a price already in sent form is sent unchanged |
| Products.SentPrecioWithinHalfCent | src/Pages/Stock/ProductosGet.jsx:133 | the sent price is within half a cent of the typed one |
| Products.Submit | src/Pages/Stock/ProductosGet.jsx:121-152 | the browser blocks the form iff the `required` name is empty or the price or discount input refuses its value; past that, an invalid price alerts and sends nothing; otherwise PUT iff `editId` is truthy, with the normalised price; the dialog closes iff the call succeeds |
| Products.AllowedPriceSentExactly | src/Pages/Stock/ProductosGet.jsx:420-430 | a plain-number price the input (`min="0" step="0.01"`) accepts is sent with its value unchanged |
| Products.SentPrecioAllowed | src/Pages/Stock/ProductosGet.jsx:133 | the normalised price text would pass the price input again |
| Products.TypedDiscountAllowed | src/Pages/Stock/ProductosGet.jsx:432-446 | after typing, the discount's range never blocks the form (it is clamped into [0, 100]); only a value finer than hundredths does |
| Products.NewProductSavesZeroPrice | src/Pages/Stock/ProductosGet.jsx:107-116 | an untouched new form is blocked by its empty `required` name; with a name typed, saving creates the product with price "0.00" |
| Products.EditedProductUpdatesItself | src/Pages/Stock/ProductosGet.jsx:95-145 | an untouched edit form with a name, and a price and discount its inputs allow, updates that product with its price rounded to cents; a plain-number price keeps its value |
| Products.ConfirmForcedDelete | src/Pages/Stock/ProductosGet.jsx:493-513 | the stock is deleted first; the product delete is sent iff that succeeded; the dialog closes iff both succeed |
| Crud.HandleDelete | src/Pages/Stock/ProductosGet.jsx:153-165 | success re-fetches; a 409 records the id and the server message; any other failure changes nothing |
| Crud.ConflictOpensDialog | src/Pages/Stock/Estados.jsx:64-76 | a 409 opens the warning dialog iff the id is non-zero; other outcomes leave the dialog as it was |
| Crud.CancelDelete | src/Pages/Stock/Estados.jsx:152-165 | cancelling closes the dialog |
| Crud.ForceDelete | src/Pages/Stock/ProductosGet.jsx:493-513 | the requests run in order up to the first failure, which stops the rest and keeps the dialog; all succeeding closes it and re-fetches |
| Crud.ForceDeleteStopsAtFailure | src/Pages/Stock/ProductosGet.jsx:496-510 | exactly the requests up to and including the first failing one are issued |
| Crud.SaveRequest | src/Pages/Stock/Estados.jsx:48-56 | PUT to the edited id iff `editId` is truthy, POST otherwise, with the same body |
| Estados.Filtrados | src/Pages/Stock/Estados.jsx:35-37 | an order-preserving sublist holding every occurrence of each estado whose lower-cased name includes the lower-cased search, and no other; an empty search keeps all |
| Estados.FiltradosIgnoresCase | src/Pages/Stock/Estados.jsx:35-37 | a search and its lower-cased form give the same list |
| Estados.FiltradosIdempotent | src/Pages/Stock/Estados.jsx:35-37 | filtering twice by the same search is filtering once |
| Estados.SearchIsNotTrimmed | src/Pages/Stock/Estados.jsx:35-37 | a trailing space in the search is matched literally |
| Estados.OpenModal | src/Pages/Stock/Estados.jsx:39-43 | editing starts from the estado's id and name, creating from no id and an empty name |
| Estados.Submit | src/Pages/Stock/Estados.jsx:45-62 | the browser blocks the form iff the `required` name is empty; otherwise PUT iff `editId` is truthy, with the form's name; the dialog closes and the list reloads iff the call succeeds |
| Estados.OpenThenSubmit | src/Pages/Stock/Estados.jsx:39-56 | an untouched edit form renames the estado to its own name; an estado with id 0 is created anew instead; one without a name is blocked |
| Estados.NewEstadoPostsFormName | src/Pages/Stock/Estados.jsx:39-56 | an empty name is never posted: a fresh form is blocked until a name is typed, then posts exactly that name |
| Estados.ConfirmForcedDelete | src/Pages/Stock/Estados.jsx:166-180 | one forced delete of the pending id; the dialog closes iff it succeeds |
| Navbar.DisplayUserName | src/Pages/Dash/NavbarStaff.jsx:20-42 | `nomyape` wins and shows its first word; without it and without `userName`, nothing; an e-mail-like `userName` shows the untrimmed part before its first `@`; any other shows its first word |
| Navbar.FirstWord | src/Pages/Dash/NavbarStaff.jsx:23 | the result has no space and is the trimmed text up to its first space |
| Navbar.EmailShowsLocalPart | src/Pages/Dash/NavbarStaff.jsx:34-38 | an address `local@domain` shows `local` |
| Navbar.FullNameShowsFirstWord | src/Pages/Dash/NavbarStaff.jsx:22-26 | a full name starting with a word shows that word, whatever the user name |
| Navbar.BlankNameHidesUserName | src/Pages/Dash/NavbarStaff.jsx:22-26 | a blank `nomyape` still wins and shows nothing |
| Navbar.Greeting | src/Pages/Dash/NavbarStaff.jsx:146 | never empty; an empty display name becomes 'Invitado' |
| Navbar.GuestGreeting | src/Pages/Dash/NavbarStaff.jsx:183 | nobody signed in, or a blank full name, is greeted as 'Invitado' |
| Navbar.FilteredLinks | src/Pages/Dash/NavbarStaff.jsx:49-70 | an order-preserving sublist of the links holding exactly those whose roles include the user's level |
| Navbar.LinksByRole | src/Pages/Dash/NavbarStaff.jsx:49-70 | 'admin' sees all three links, 'empleado' only Dashboard, 'administrador' Usuarios and Locales, anyone else none |
| JsNumber.ParseFloatCentsRoundTrip | src/Pages/Ventas/RecaudacionesCaja.jsx:113 | the text `String` gives an amount in cents reads back as that amount |
| JsNumber.ParseFloatFixedRoundTrip | src/Pages/Stock/ProductosGet.jsx:133 | `toFixed(2)` text reads back as the amount |
| JsNumber.ParseFloatToFixed | src/Pages/Stock/ProductosGet.jsx:133 | `toFixed(2)` of an amount of at least 0 reads back as the amount rounded to cents |
| JsNumber.ParseFloatInfinity | src/Pages/Ventas/Components/ModalPagoCompuesto.jsx:5-8 | `parseFloat` reads "Infinity" as infinity and "-Infinity" as minus infinity |
| JsNumber.Round2WithinCent | src/Pages/Ventas/Components/ModalPagoCompuesto.jsx:34-35 | a rounded difference is within a cent iff the raw one is strictly within a cent and a half |
| JsNumber.Round2Ties | src/Pages/Ventas/Components/ModalPagoCompuesto.jsx:66 | rounding to cents moves a value by at most half a cent, a tie going to the neighbour farther from zero |
| JsNumber.Round2Unique | src/Pages/Ventas/Components/ModalPagoCompuesto.jsx:66 | the only whole-cent value in that half-open band is the rounded one |
| JsNumber.Round2Idempotent | src/Pages/Ventas/Components/ModalPagoCompuesto.jsx:47 | rounding to cents twice is rounding once |

## Left out

- HTTP calls. Each call's outcome is an input (`Reply`), so endpoints, headers, JSON
  decoding and the re-fetch calls themselves are not modelled. Only the fact that a
  re-fetch is requested is.
- Notifications (Swal, toasts, `alert`, `console`), JSX and CSS are left out. They appear
  only as the notice and alert text a step produces.
- React hook timing and asynchronous interleaving are left out: `useEffect` and `useMemo`
  scheduling, a `loading` or `saving` flag racing a close, and the report screen's
  `loading` flag.
- Numbers are exact rationals (`real`), not IEEE-754 doubles.
  - `toFixed(2)` is modelled as rounding halves away from zero. The binary representation
    can round some halves down; those cases are left out.
  - Overflow, the sign of zero, and the exponent form that both `toFixed` and `String(x)`
    (`CentsToString`) switch to at 1e21 and above are not modelled.
  - The split dialog works on these rationals rather than whole cents, because `parseFloat`
    of typed text is not whole cents.
- Hexadecimal, octal and binary literals in `Number(text)` are left out, and so are
  `parseInt` of non-decimal text.
- Case mapping covers ASCII and the Latin-1 letters whose other case is one Latin-1
  character 32 code points away. `toUpperCase` in JavaScript turns ß into "SS", ÿ into Ÿ
  and µ into Greek Μ; the model leaves these three unchanged. Other scripts are left
  unchanged too.
- `localeCompare` is replaced by code-point order.
- Products.OrderOf: sorting by name calls `a.nombre.localeCompare(b.nombre)`. When a
  product has no `nombre` and the sort passes it as `a`, this throws a TypeError and the
  list fails to render; as `b`, the missing name is compared as the text "undefined". The
  model instead sorts a missing name as the empty name. Sorting by price computes
  `a.precio - b.precio`, which is NaN for a price that is not a number; ECMAScript leaves
  the order unspecified for such an inconsistent comparator, and the model places NaN
  prices first.
- Fields the server sends with a type other than the one modelled are left out. For
  example, a numeric `nombre`, or `categoria_id` as text compared by `===`. A text field is
  modelled as either a string or absent.
- `categoriaFiltro` is modelled as the text of the dropdown's value.
- Date and currency formatting (`toLocaleString`, `Intl.NumberFormat`), the XLSX export
  and its file name, and the date inputs' own validation are left out. Dates are opaque
  text.
- The browser's check of the product and estado forms is modelled on exact values. A
  browser parses a number input as a double and allows some rounding slack in its step
  check; neither is modelled. A number input's bad-input state is left out as well: the
  form state only ever receives such text as `''`.
- The split dialog's amount fields are number inputs as well. A browser hands their
  `onChange` a plain decimal number or `''`, so the comma handling of `toNum` only matters
  for text passed in as the sale `total`; the model states `toNum` for any text.
- Form field setters that copy an input's value into state unchanged are left out (name,
  description, icon, URL, estado, category), since they have no logic.
- Recaudaciones `monto` is modelled as whole cents. The screen's `Number(r.monto || 0)` of
  a text amount, and amounts with more than two decimals, are not modelled.
- `AdminPage` (a static list of quick links) and `ConfiguracionPage` (modal wiring and a
  fetch) are left out, since neither has logic to state.
