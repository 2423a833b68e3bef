/** The split-payment dialog: the operator spreads a sale total over the components of a
    composite payment method, the dialog shows whether the amounts balance (within one cent
    after rounding), can fill in the last component with the rest, and hands an ordered
    allocation to the caller. Amounts are exact rationals; `+x.toFixed(2)` is `Round2`. */
module SplitPayment {
  import opened Wrappers
  import opened Text
  import opened JsNumber

  /** What `toNum` may be handed: nothing, a JavaScript number, or text. */
  datatype Input = Missing | Number(n: Num) | Typed(s: string)

  /** `toNum`: text with its first ',' read as '.', then `parseFloat`; a number is read back
      through `String`; anything not finite is 0. */
  function ToNum(v: Input): (x: real)
    ensures v.Missing? ==> x == 0.0
    ensures v.Number? ==> x == (if v.n.Finite? then v.n.v else 0.0)
    ensures v.Typed? && ParseFloat(ReplaceFirst(v.s, ',', '.')).Finite? ==>
      x == ParseFloat(ReplaceFirst(v.s, ',', '.')).v
    ensures v.Typed? && !ParseFloat(ReplaceFirst(v.s, ',', '.')).Finite? ==> x == 0.0
  {
    var n := match v
      case Missing => NaN
      case Number(n) => n
      case Typed(s) => ParseFloat(ReplaceFirst(s, ',', '.'));
    if n.Finite? then n.v else 0.0
  }

  /** An amount typed with a decimal comma reads as the amount. */
  lemma ToNumDecimalComma(c: int)
    ensures ToNum(Typed(ReplaceFirst(CentsToString(c), '.', ','))) == c as real / 100.0
  {
    var t := CentsToString(c);
    CentsTextChars(c);
    assert ',' !in t;
    ReplaceFirstBack(t, '.', ',');
    ParseFloatCentsRoundTrip(c);
  }

  /** An amount typed with two decimals and a decimal comma, as in "1,50", reads as the
      amount. */
  lemma ToNumTwoDecimalsComma(m: nat)
    ensures ToNum(Typed(ReplaceFirst(FixedCents(m), '.', ','))) == m as real / 100.0
  {
    var t := FixedCents(m);
    FixedCentsChars(m);
    assert ',' !in t;
    ReplaceFirstBack(t, '.', ',');
    ParseFloatFixedRoundTrip(m);
  }

  /** An amount typed with a decimal point reads as the amount. */
  lemma ToNumDecimalPoint(c: int)
    ensures ToNum(Typed(CentsToString(c))) == c as real / 100.0
  {
    var t := CentsToString(c);
    CentsTextChars(c);
    assert ',' !in t;
    assert ReplaceFirst(t, ',', '.') == t;
    ParseFloatCentsRoundTrip(c);
  }

  /** One component of the composite method being paid with. */
  datatype Componente = Componente(id: int, nombre: string, descripcion: Option<string>)

  /** One property of the `montos` object: a component id and its amount. */
  datatype Entry = Entry(id: int, monto: real)

  /** An object's properties: no key appears twice. */
  predicate UniqueKeys(ms: seq<Entry>) {
    forall i, j :: 0 <= i < j < |ms| ==> ms[i].id != ms[j].id
  }

  /** `montos[id]`. */
  function Lookup(ms: seq<Entry>, id: int): (r: Option<real>)
    ensures r.None? <==> forall i :: 0 <= i < |ms| ==> ms[i].id != id
    ensures r.Some? ==> exists i :: 0 <= i < |ms| && ms[i] == Entry(id, r.value)
  {
    if ms == [] then None
    else if ms[0].id == id then Some(ms[0].monto)
    else
      var r := Lookup(ms[1..], id);
      assert r.Some? ==> exists i :: 0 <= i < |ms| && ms[i] == Entry(id, r.value) by {
        if r.Some? {
          var i :| 0 <= i < |ms[1..]| && ms[1..][i] == Entry(id, r.value);
          assert ms[i + 1] == Entry(id, r.value);
        }
      }
      r
  }

  /** `{ ...montos, [id]: x }`: the property is overwritten in place or added. */
  function Put(ms: seq<Entry>, id: int, x: real): (r: seq<Entry>)
    ensures Lookup(r, id) == Some(x)
    ensures forall k :: k != id ==> Lookup(r, k) == Lookup(ms, k)
    ensures UniqueKeys(ms) ==> UniqueKeys(r)
  {
    if ms == [] then [Entry(id, x)]
    else
      var e, t := ms[0], ms[1..];
      assert ms == [e] + t;
      UniqueCons(e, t);
      UniqueCons(Entry(id, x), t);
      if e.id == id then
        assert forall k :: Lookup([Entry(id, x)] + t, k) == LookupCons(Entry(id, x), t, k);
        assert forall k :: Lookup([e] + t, k) == LookupCons(e, t, k);
        [Entry(id, x)] + t
      else
        var rest := Put(t, id, x);
        UniqueCons(e, rest);
        assert forall k :: Lookup([e] + rest, k) == LookupCons(e, rest, k);
        assert forall k :: Lookup([e] + t, k) == LookupCons(e, t, k);
        [e] + rest
  }

  /** The lookup of a property in an object given by its first property and the rest. */
  function LookupCons(e: Entry, t: seq<Entry>, k: int): (r: Option<real>)
    ensures r == Lookup([e] + t, k)
  {
    assert ([e] + t)[1..] == t;
    if e.id == k then Some(e.monto) else Lookup(t, k)
  }

  /** An object given by its first property and the rest has unique keys exactly when
      the rest does and does not have the first key. */
  lemma UniqueCons(e: Entry, t: seq<Entry>)
    ensures UniqueKeys([e] + t) <==> UniqueKeys(t) && Lookup(t, e.id).None?
  {
    var s := [e] + t;
    if UniqueKeys(s) {
      forall i, j | 0 <= i < j < |t| ensures t[i].id != t[j].id {
        assert s[i + 1] == t[i] && s[j + 1] == t[j];
      }
      forall i | 0 <= i < |t| ensures t[i].id != e.id {
        assert s[0] == e && s[i + 1] == t[i];
        assert s[0].id != s[i + 1].id;
      }
    }
    if UniqueKeys(t) && Lookup(t, e.id).None? {
      forall i, j | 0 <= i < j < |s| ensures s[i].id != s[j].id {
        if i > 0 {
          assert s[i] == t[i - 1];
        }
        assert s[j] == t[j - 1];
      }
    }
  }

  /** The composite has a component with this id. */
  predicate HasComponent(comps: seq<Componente>, id: int) {
    exists i | 0 <= i < |comps| :: comps[i].id == id
  }

  /** The amounts set when the dialog opens: every component at 0. */
  function InitMontos(comps: seq<Componente>): (r: seq<Entry>)
    ensures UniqueKeys(r)
    ensures forall k :: Lookup(r, k) == if HasComponent(comps, k) then Some(0.0) else None
    ensures Suma(r) == 0.0
  {
    if comps == [] then []
    else
      var front := comps[..|comps| - 1];
      var last := comps[|comps| - 1].id;
      var init := InitMontos(front);
      forall k ensures HasComponent(comps, k) <==> HasComponent(front, k) || k == last {
        HasComponentSnoc(comps, k);
      }
      SumaPut(init, last, 0.0);
      Put(init, last, 0.0)
  }

  /** A component list has `k` exactly when its front does or its last component is `k`. */
  lemma HasComponentSnoc(comps: seq<Componente>, k: int)
    requires comps != []
    ensures HasComponent(comps, k) <==> HasComponent(comps[..|comps| - 1], k) || k == comps[|comps| - 1].id
  {
    var front := comps[..|comps| - 1];
    if HasComponent(front, k) {
      var i :| 0 <= i < |front| && front[i].id == k;
      assert comps[i].id == k;
    }
    if HasComponent(comps, k) && k != comps[|comps| - 1].id {
      var i :| 0 <= i < |comps| && comps[i].id == k;
      assert front[i].id == k;
    }
  }

  /** `suma`: the sum of all amounts. */
  function Suma(ms: seq<Entry>): real {
    if ms == [] then 0.0 else ms[0].monto + Suma(ms[1..])
  }

  /** The sum of the amounts of every key except `id`, as `autocompletar` computes it. */
  function SumExcept(ms: seq<Entry>, id: int): real {
    if ms == [] then 0.0
    else (if ms[0].id == id then 0.0 else ms[0].monto) + SumExcept(ms[1..], id)
  }

  /** With unique keys, the sum is the amount under `id` plus the sum of the others. */
  lemma {:induction false} SumaSplit(ms: seq<Entry>, id: int)
    requires UniqueKeys(ms)
    ensures Suma(ms) == SumExcept(ms, id) + Lookup(ms, id).GetOr(0.0)
  {
    if ms != [] {
      SumaSplit(ms[1..], id);
      if ms[0].id == id {
        assert Lookup(ms[1..], id).None?;
        SumExceptAbsent(ms[1..], id);
      }
    }
  }

  lemma {:induction false} SumExceptAbsent(ms: seq<Entry>, id: int)
    requires forall i :: 0 <= i < |ms| ==> ms[i].id != id
    ensures SumExcept(ms, id) == Suma(ms)
  {
    if ms != [] {
      SumExceptAbsent(ms[1..], id);
    }
  }

  /** Overwriting or adding `id` does not change the sum of the others. */
  lemma {:induction false} SumExceptPut(ms: seq<Entry>, id: int, x: real)
    ensures SumExcept(Put(ms, id, x), id) == SumExcept(ms, id)
  {
    if ms != [] && ms[0].id != id {
      SumExceptPut(ms[1..], id, x);
    }
  }

  /** Setting one amount changes the sum by the difference. */
  lemma SumaPut(ms: seq<Entry>, id: int, x: real)
    requires UniqueKeys(ms)
    ensures Suma(Put(ms, id, x)) == Suma(ms) - Lookup(ms, id).GetOr(0.0) + x
  {
    SumaSplit(ms, id);
    SumaSplit(Put(ms, id, x), id);
    SumExceptPut(ms, id, x);
  }

  /** The dialog: the total (`toNum(total)`), the components in order, the amounts, and
      whether a confirmation is in flight. */
  datatype Dialog = Dialog(total: real, componentes: seq<Componente>, montos: seq<Entry>, loading: bool)

  /** `diff`: total minus sum, rounded to cents. */
  function Diff(d: Dialog): real {
    Round2(d.total - Suma(d.montos))
  }

  /** `ok`: the rounded difference is at most one cent either way. */
  predicate Ok(d: Dialog) {
    -0.01 <= Diff(d) <= 0.01
  }

  /** The amounts balance exactly when the unrounded difference is under a cent and a half. */
  lemma OkIff(d: Dialog)
    ensures Ok(d) <==> -0.015 < d.total - Suma(d.montos) < 0.015
  {
    Round2WithinCent(d.total - Suma(d.montos));
  }

  /** Whole-cent amounts balance a whole-cent total within one cent exactly when they are
      at most one cent apart. */
  lemma OkInCents(d: Dialog, total: int, suma: int)
    requires d.total == total as real / 100.0 && Suma(d.montos) == suma as real / 100.0
    ensures Ok(d) <==> -1 <= total - suma <= 1
  {
    OkIff(d);
  }

  /** Opening the dialog (or changing its components) puts every component at 0. */
  function Open(total: Input, comps: seq<Componente>, loading: bool): (d: Dialog)
    ensures d.total == ToNum(total) && d.componentes == comps && d.loading == loading
    ensures UniqueKeys(d.montos) && Suma(d.montos) == 0.0
    ensures forall c :: c in comps ==> Lookup(d.montos, c.id) == Some(0.0)
    ensures forall k :: !HasComponent(comps, k) ==> Lookup(d.montos, k).None?
  {
    var r := InitMontos(comps);
    assert forall c :: c in comps ==> HasComponent(comps, c.id) by {
      forall c | c in comps ensures HasComponent(comps, c.id) {
        var i :| 0 <= i < |comps| && comps[i] == c;
      }
    }
    Dialog(ToNum(total), comps, r, loading)
  }

  /** Typing into a component's amount box stores `toNum` of the text. */
  function SetAmount(d: Dialog, id: int, text: string): (r: Dialog)
    ensures Lookup(r.montos, id) == Some(ToNum(Typed(text)))
    ensures forall k :: k != id ==> Lookup(r.montos, k) == Lookup(d.montos, k)
    ensures r.total == d.total && r.componentes == d.componentes && r.loading == d.loading
    ensures UniqueKeys(d.montos) ==> UniqueKeys(r.montos)
  {
    d.(montos := Put(d.montos, id, ToNum(Typed(text))))
  }

  /** `autocompletar`: the last component gets the rest of the total, rounded to cents;
      with no components nothing happens. */
  function Autocompletar(d: Dialog): (r: Dialog)
    ensures d.componentes == [] ==> r == d
    ensures r.total == d.total && r.componentes == d.componentes && r.loading == d.loading
    ensures d.componentes != [] ==>
      var last := d.componentes[|d.componentes| - 1].id;
      && Lookup(r.montos, last) == Some(Round2(d.total - SumExcept(d.montos, last)))
      && (forall k :: k != last ==> Lookup(r.montos, k) == Lookup(d.montos, k))
    ensures d.componentes != [] && UniqueKeys(d.montos) ==> UniqueKeys(r.montos) && Ok(r)
  {
    if d.componentes == [] then d
    else
      var last := d.componentes[|d.componentes| - 1].id;
      AutocompletarBalances(d, last);
      d.(montos := Put(d.montos, last, Round2(d.total - SumExcept(d.montos, last))))
  }

  /** After filling `last` with the rounded rest, the unrounded difference is at most half a
      cent, so the rounded one is within a cent. */
  lemma AutocompletarBalances(d: Dialog, last: int)
    ensures UniqueKeys(d.montos) ==> Ok(d.(montos := Put(d.montos, last, Round2(d.total - SumExcept(d.montos, last)))))
  {
    if UniqueKeys(d.montos) {
      var x := Round2(d.total - SumExcept(d.montos, last));
      Round2Error(d.total - SumExcept(d.montos, last));
      FillWithinHalfCent(d, last, x);
    }
  }

  /** Any fill within half a cent of the rest balances the dialog. */
  lemma FillWithinHalfCent(d: Dialog, last: int, x: real)
    requires UniqueKeys(d.montos)
    requires -0.005 <= x - (d.total - SumExcept(d.montos, last)) <= 0.005
    ensures Ok(d.(montos := Put(d.montos, last, x)))
  {
    var filled := Put(d.montos, last, x);
    SumaSplit(filled, last);
    SumExceptPut(d.montos, last, x);
    var d2 := d.(montos := filled);
    assert -0.015 < d2.total - Suma(d2.montos) < 0.015;
    OkIff(d2);
  }

  /** One line of the allocation handed to `onConfirm`. */
  datatype Allocation = Allocation(medioPagoId: int, orden: int, monto: real)

  /** `detalle`: one line per component in component order, numbered from 0, with the
      amount `toNum(montos[id])` rounded to cents. */
  function Detalle(comps: seq<Componente>, ms: seq<Entry>): (r: seq<Allocation>)
    ensures |r| == |comps|
    ensures forall k :: 0 <= k < |r| ==> r[k].medioPagoId == comps[k].id && r[k].orden == k
    ensures forall k :: 0 <= k < |r| ==> IsCents(r[k].monto)
    ensures forall k :: 0 <= k < |r| ==> -0.005 <= r[k].monto - Lookup(ms, comps[k].id).GetOr(0.0) <= 0.005
    ensures forall k :: 0 <= k < |r| && Lookup(ms, comps[k].id).GetOr(0.0) >= 0.0 ==>
      -0.005 < r[k].monto - Lookup(ms, comps[k].id).GetOr(0.0)
    ensures forall k :: 0 <= k < |r| && Lookup(ms, comps[k].id).GetOr(0.0) < 0.0 ==>
      r[k].monto - Lookup(ms, comps[k].id).GetOr(0.0) < 0.005
  {
    var r := seq(|comps|, k requires 0 <= k < |comps| =>
      Allocation(comps[k].id, k, Round2(Lookup(ms, comps[k].id).GetOr(0.0))));
    assert forall k :: 0 <= k < |r| ==> RoundedFrom(r[k].monto, Lookup(ms, comps[k].id).GetOr(0.0)) by {
      forall k | 0 <= k < |r|
        ensures RoundedFrom(r[k].monto, Lookup(ms, comps[k].id).GetOr(0.0)) {
        Round2Error(Lookup(ms, comps[k].id).GetOr(0.0));
        Round2Ties(Lookup(ms, comps[k].id).GetOr(0.0));
      }
    }
    r
  }

  /** `y` is whole cents in the half-open band around `x` that `Round2` lands in. */
  predicate RoundedFrom(y: real, x: real) {
    IsCents(y) && -0.005 <= y - x <= 0.005 &&
    (x >= 0.0 ==> -0.005 < y - x) && (x < 0.0 ==> y - x < 0.005)
  }

  function AllocationTotal(a: seq<Allocation>): real {
    if a == [] then 0.0 else a[0].monto + AllocationTotal(a[1..])
  }

  /** The amounts hold exactly one entry per component, in component order. */
  predicate MatchesComponents(comps: seq<Componente>, ms: seq<Entry>) {
    |ms| == |comps| && forall k :: 0 <= k < |ms| ==> ms[k].id == comps[k].id
  }

  /** When the amounts are whole cents and keyed by the components, the allocation adds up
      to the amounts entered, so a balanced dialog hands over a balanced allocation. */
  lemma {:induction false} AllocationAddsUp(comps: seq<Componente>, ms: seq<Entry>)
    requires UniqueKeys(ms) && MatchesComponents(comps, ms)
    requires forall k :: 0 <= k < |ms| ==> IsCents(ms[k].monto)
    ensures AllocationTotal(Detalle(comps, ms)) == Suma(ms)
  {
    if comps != [] {
      var a := Detalle(comps, ms);
      assert Lookup(ms, comps[0].id) == Some(ms[0].monto);
      Round2OfCents(ms[0].monto);
      AllocationTail(comps, ms);
      AllocationAddsUp(comps[1..], ms[1..]);
    }
  }

  /** Dropping the first component drops the first line (renumbered). */
  lemma AllocationTail(comps: seq<Componente>, ms: seq<Entry>)
    requires comps != [] && UniqueKeys(ms) && MatchesComponents(comps, ms)
    ensures AllocationTotal(Detalle(comps, ms)) == Detalle(comps, ms)[0].monto + AllocationTotal(Detalle(comps[1..], ms[1..]))
  {
    var a := Detalle(comps, ms);
    var b := Detalle(comps[1..], ms[1..]);
    forall k | 0 <= k < |b| ensures a[k + 1].monto == b[k].monto {
      assert Lookup(ms, comps[k + 1].id) == Lookup(ms[1..], comps[k + 1].id);
    }
    AllocationTotalShift(a, b);
  }

  lemma {:induction false} AllocationTotalShift(a: seq<Allocation>, b: seq<Allocation>)
    requires |a| == |b| + 1
    requires forall k :: 0 <= k < |b| ==> a[k + 1].monto == b[k].monto
    ensures AllocationTotal(a) == a[0].monto + AllocationTotal(b)
  {
    if b != [] {
      AllocationTotalShift(a[1..], b[1..]);
    }
  }

  /** What the dialog asks of its caller, in order. */
  datatype Call = OnConfirm(detalle: seq<Allocation>) | OnClose

  datatype Notice = Silent | Warning(text: string)

  datatype ConfirmOutcome = ConfirmOutcome(calls: seq<Call>, dialog: Dialog, notice: Notice)

  const BalanceText := "La suma de componentes debe coincidir con el total."

  /** `confirmar`: an unbalanced dialog only warns; a balanced one hands the allocation to
      `onConfirm`, closes only once that resolves, and always clears `loading`. */
  function Confirmar(d: Dialog, reply: Reply<()>): (o: ConfirmOutcome)
    ensures !Ok(d) ==> o == ConfirmOutcome([], d, Warning(BalanceText))
    ensures Ok(d) ==>
      && o.notice == Silent
      && o.dialog == d.(loading := false)
      && o.calls != [] && o.calls[0] == OnConfirm(Detalle(d.componentes, d.montos))
      && (OnClose in o.calls <==> reply.Done?)
  {
    if !Ok(d) then ConfirmOutcome([], d, Warning(BalanceText))
    else
      var calls := [OnConfirm(Detalle(d.componentes, d.montos))] + (if reply.Done? then [OnClose] else []);
      ConfirmOutcome(calls, d.(loading := false), Silent)
  }

  /** The confirm button: disabled while unbalanced or loading. */
  function ConfirmButton(d: Dialog, reply: Reply<()>): (o: ConfirmOutcome)
    ensures !Ok(d) || d.loading ==> o.calls == [] && o.dialog == d
    ensures Ok(d) && !d.loading ==> o == Confirmar(d, reply)
  {
    if !Ok(d) || d.loading then ConfirmOutcome([], d, Silent) else Confirmar(d, reply)
  }

  /** A sale of 100.00 split 60.00 + 39.99 is accepted (one cent off); 60.00 + 39.00 is
      refused and the caller is never called. */
  lemma BalanceGateExample(reply: Reply<()>)
    ensures var comps := [Componente(1, "X", None), Componente(2, "Y", None)];
      var near := Dialog(100.0, comps, [Entry(1, 60.0), Entry(2, 39.99)], false);
      var far := Dialog(100.0, comps, [Entry(1, 60.0), Entry(2, 39.0)], false);
      && Confirmar(near, reply).calls != []
      && Confirmar(far, reply).calls == []
      && Confirmar(far, reply).notice == Warning(BalanceText)
  {
    var comps := [Componente(1, "X", None), Componente(2, "Y", None)];
    var near := Dialog(100.0, comps, [Entry(1, 60.0), Entry(2, 39.99)], false);
    var far := Dialog(100.0, comps, [Entry(1, 60.0), Entry(2, 39.0)], false);
    OkIff(near);
    OkIff(far);
  }

  /** A sale of 250.00 with 100.00, 100.00 and 999.00 entered: filling in sets the last
      component to 50.00, leaves the others alone and balances the dialog. */
  lemma AutocompletarExample()
    ensures var comps := [Componente(1, "X", None), Componente(2, "Y", None), Componente(3, "Z", None)];
      var d := Dialog(250.0, comps, [Entry(1, 100.0), Entry(2, 100.0), Entry(3, 999.0)], false);
      var r := Autocompletar(d);
      && Lookup(r.montos, 3) == Some(50.0)
      && Lookup(r.montos, 1) == Some(100.0)
      && Lookup(r.montos, 2) == Some(100.0)
      && Ok(r)
  {
    var comps := [Componente(1, "X", None), Componente(2, "Y", None), Componente(3, "Z", None)];
    var ms := [Entry(1, 100.0), Entry(2, 100.0), Entry(3, 999.0)];
    var d := Dialog(250.0, comps, ms, false);
    assert SumExcept(ms, 3) == 200.0;
    assert IsCents(50.0);
    Round2OfCents(50.0);
    assert UniqueKeys(ms);
    assert Autocompletar(d).montos == Put(ms, 3, 50.0);
  }
}
