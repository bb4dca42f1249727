/**
  The `totais` aggregation: one pass over the records accumulates the
  income total, the expense total, the expenses per subgroup and per
  payment method, and the income and expenses per month; the balance is
  the fixed opening amount plus income minus expenses, and the month list
  ends with a "Total Geral" entry holding the grand totals.

  JavaScript plain objects used as dictionaries are modelled as lists of
  entries with distinct keys in insertion order.
 */
module Agregacao {
  import opened Wrappers
  import opened JsString
  import Valor
  import Mes
  import Ingestao

  type Row = Ingestao.Row

  /** The opening balance `saldoInicial`. */
  const SaldoInicial: real := 645.81

  // ---------------------------------------------------------------------
  // reading one record

  /** `linha[8]` and `linha[2]` must exist, or `parseValor` / `formatMes` would throw. */
  predicate Readable(r: Row) {
    |r| >= 9
  }

  predicate AllReadable(rows: seq<Row>) {
    forall k :: 0 <= k < |rows| ==> Readable(rows[k])
  }

  /** What the `forEach` callback reads from one record before it updates anything. */
  datatype Lancamento = Lancamento(
    tipo: string,
    subgrupo: string,
    banco: string,
    valor: real,
    mes: Option<string>)

  /** `tipo`, `subgrupo`, `banco`, `valor` and `mes` of one record. */
  function Read(r: Row): Lancamento
    requires Readable(r)
  {
    Lancamento(Trim(r[4]), Trim(r[5]), Trim(r[7]), Valor.ParseValor(r[8]), Mes.FormatMes(r[2]))
  }

  function ReadAll(rows: seq<Row>): (ls: seq<Lancamento>)
    requires AllReadable(rows)
    ensures |ls| == |rows|
  {
    seq(|rows|, k requires 0 <= k < |rows| => Read(rows[k]))
  }

  /** A prefix one longer is the prefix followed by the next element. */
  lemma PrefixSnoc<T>(s: seq<T>, i: nat)
    requires i < |s|
    ensures s[..i + 1] == s[..i] + [s[i]]
  {
  }

  /** The two kinds of record that are counted; every other type is ignored by the sums. */
  datatype Kind = Income | Expense

  /** `tipo === "Renda"` and `tipo === "Despesas" || tipo === "Despesa"`. */
  predicate IsKind(tipo: string, kind: Kind) {
    match kind
    case Income => tipo == "Renda"
    case Expense => tipo == "Despesas" || tipo == "Despesa"
  }

  /** What one record adds to the sum of the given kind. */
  function Share(l: Lancamento, kind: Kind): real
  {
    if IsKind(l.tipo, kind) then l.valor else 0.0
  }

  /** The two expense breakdowns: by subgroup (`porSubgrupo`) and by payment method (`porBanco`). */
  datatype By = Subgrupo | FormaPagamento

  function Key(l: Lancamento, g: By): string
  {
    match g
    case Subgrupo => l.subgrupo
    case FormaPagamento => l.banco
  }

  // ---------------------------------------------------------------------
  // reference sums over the records

  /** The sum of the amounts of the records of one kind. */
  function Total(ls: seq<Lancamento>, kind: Kind): real
  {
    if ls == [] then 0.0 else Total(ls[..|ls| - 1], kind) + Share(ls[|ls| - 1], kind)
  }

  /** The total of two runs of records is the sum of their totals. */
  lemma {:induction false} TotalAppend(a: seq<Lancamento>, b: seq<Lancamento>, kind: Kind)
    ensures Total(a + b, kind) == Total(a, kind) + Total(b, kind)
    decreases |b|
  {
    if b != [] {
      var n := |b| - 1;
      assert (a + b)[..|a + b| - 1] == a + b[..n];
      TotalAppend(a, b[..n], kind);
    } else {
      assert a + b == a;
    }
  }

  /** Removing the element at `j` removes one occurrence of it from the multiset. */
  lemma MultisetRemove<T>(s: seq<T>, j: nat)
    requires j < |s|
    ensures multiset(s[..j] + s[j + 1..]) == multiset(s) - multiset{s[j]}
  {
    assert s == s[..j] + [s[j]] + s[j + 1..];
    assert multiset(s) == multiset(s[..j]) + multiset{s[j]} + multiset(s[j + 1..]);
  }

  /** Removing the record at `j` removes its share from the total. */
  lemma TotalRemove(b: seq<Lancamento>, j: nat, kind: Kind)
    requires j < |b|
    ensures Total(b, kind) == Total(b[..j] + b[j + 1..], kind) + Share(b[j], kind)
  {
    var lo, x, hi := b[..j], b[j], b[j + 1..];
    assert b == lo + [x] + hi;
    TotalAppend(lo + [x], hi, kind);
    TotalAppend(lo, [x], kind);
    TotalAppend(lo, hi, kind);
    assert Total([x], kind) == Share(x, kind) by {
      assert [x][..0] == [];
    }
  }

  /** Removing one matching element from each of two permutations leaves two permutations. */
  lemma MultisetRemoveBoth<T>(a: seq<T>, b: seq<T>, j: nat)
    requires a != [] && j < |b| && b[j] == a[|a| - 1]
    requires multiset(a) == multiset(b)
    ensures multiset(a[..|a| - 1]) == multiset(b[..j] + b[j + 1..])
  {
    var n := |a| - 1;
    MultisetRemove(a, n);
    MultisetRemove(b, j);
    assert a[..n] + a[n + 1..] == a[..n];
  }

  /** The order of the records does not matter to the totals: any permutation has the same totals. */
  lemma {:induction false} TotalPermutation(a: seq<Lancamento>, b: seq<Lancamento>, kind: Kind)
    requires multiset(a) == multiset(b)
    ensures Total(a, kind) == Total(b, kind)
    decreases |a|
  {
    if a != [] {
      var n := |a| - 1;
      assert a[n] in multiset(b) by {
        assert a[n] in multiset(a);
      }
      var j :| 0 <= j < |b| && b[j] == a[n];
      MultisetRemoveBoth(a, b, j);
      TotalPermutation(a[..n], b[..j] + b[j + 1..], kind);
      TotalRemove(b, j, kind);
    } else {
      assert |b| == |multiset(b)| == 0;
    }
  }

  /** The sum of the expense amounts of the records whose key is `k`. */
  function ExpenseFor(ls: seq<Lancamento>, g: By, k: string): real
  {
    if ls == [] then 0.0
    else
      var l := ls[|ls| - 1];
      ExpenseFor(ls[..|ls| - 1], g, k) + (if Key(l, g) == k then Share(l, Expense) else 0.0)
  }

  /** The sum of the amounts of one kind of the records dated in month `m`. */
  function TotalIn(ls: seq<Lancamento>, kind: Kind, m: string): real
  {
    if ls == [] then 0.0
    else
      var l := ls[|ls| - 1];
      TotalIn(ls[..|ls| - 1], kind, m) + (if l.mes == Some(m) then Share(l, kind) else 0.0)
  }

  /** The sum of the amounts of one kind of the records that carry no date. */
  function TotalUndated(ls: seq<Lancamento>, kind: Kind): real
  {
    if ls == [] then 0.0
    else
      var l := ls[|ls| - 1];
      TotalUndated(ls[..|ls| - 1], kind) + (if l.mes.None? then Share(l, kind) else 0.0)
  }

  // ---------------------------------------------------------------------
  // dictionaries of sums

  /** One `{ name, value }` entry of a breakdown. */
  datatype Entry = Entry(name: string, value: real)

  function Names(es: seq<Entry>): (ns: seq<string>)
    ensures |ns| == |es|
  {
    if es == [] then [] else [es[0].name] + Names(es[1..])
  }

  predicate Distinct(ns: seq<string>) {
    forall i, j :: 0 <= i < j < |ns| ==> ns[i] != ns[j]
  }

  /** `dict[k] || 0`: the sum stored under `k`, 0 when `k` is absent. */
  function Lookup(es: seq<Entry>, k: string): real
  {
    if es == [] then 0.0
    else if es[0].name == k then es[0].value
    else Lookup(es[1..], k)
  }

  /** The sum of all values, as a chart of the breakdown adds them up. */
  function SumValues(es: seq<Entry>): real
  {
    if es == [] then 0.0 else es[0].value + SumValues(es[1..])
  }

  /** `dict[k] = (dict[k] || 0) + v`: a new key goes to the end. */
  function Bump(es: seq<Entry>, k: string, v: real): seq<Entry>
  {
    if es == [] then [Entry(k, v)]
    else if es[0].name == k then [Entry(k, es[0].value + v)] + es[1..]
    else [es[0]] + Bump(es[1..], k, v)
  }

  /** Bumping keeps the keys and appends `k` when it is new. */
  lemma {:induction false} BumpNames(es: seq<Entry>, k: string, v: real)
    ensures Names(Bump(es, k, v)) == if k in Names(es) then Names(es) else Names(es) + [k]
  {
    if es != [] {
      BumpNames(es[1..], k, v);
      assert Names(es) == [es[0].name] + Names(es[1..]);
      if es[0].name != k {
        assert Names(Bump(es, k, v)) == [es[0].name] + Names(Bump(es[1..], k, v));
      }
    }
  }

  /** Bumping adds `v` under `k` and changes no other key. */
  lemma {:induction false} BumpLookup(es: seq<Entry>, k: string, v: real, j: string)
    ensures Lookup(Bump(es, k, v), j) == Lookup(es, j) + (if j == k then v else 0.0)
  {
    if es != [] && es[0].name != k {
      BumpLookup(es[1..], k, v, j);
    }
  }

  /** Bumping adds `v` to the sum of all values. */
  lemma {:induction false} BumpSum(es: seq<Entry>, k: string, v: real)
    ensures SumValues(Bump(es, k, v)) == SumValues(es) + v
  {
    if es != [] && es[0].name != k {
      BumpSum(es[1..], k, v);
    }
  }

  /** Bumping keeps the keys distinct. */
  lemma BumpDistinct(es: seq<Entry>, k: string, v: real)
    requires Distinct(Names(es))
    ensures Distinct(Names(Bump(es, k, v)))
  {
    BumpNames(es, k, v);
  }

  // ---------------------------------------------------------------------
  // the month dictionary

  /** One element of `porMes`: `{ mes, Renda, Despesas }`. */
  datatype MesTotal = MesTotal(mes: string, renda: real, despesas: real)

  function Field(e: MesTotal, kind: Kind): real
  {
    match kind
    case Income => e.renda
    case Expense => e.despesas
  }

  /** The month list seen as a breakdown of one kind. */
  function Column(ms: seq<MesTotal>, kind: Kind): (es: seq<Entry>)
    ensures |es| == |ms|
  {
    if ms == [] then [] else [Entry(ms[0].mes, Field(ms[0], kind))] + Column(ms[1..], kind)
  }

  /**
    `porMes[mes] = porMes[mes] || { mes, Renda: 0, Despesas: 0 }` followed
    by the two conditional `+=`: the entry is created on first sight even
    when both shares are 0.
   */
  function BumpMes(ms: seq<MesTotal>, m: string, renda: real, despesas: real): seq<MesTotal>
  {
    if ms == [] then [MesTotal(m, 0.0 + renda, 0.0 + despesas)]
    else if ms[0].mes == m then [MesTotal(m, ms[0].renda + renda, ms[0].despesas + despesas)] + ms[1..]
    else [ms[0]] + BumpMes(ms[1..], m, renda, despesas)
  }

  /** Seen one kind at a time, the month update is a breakdown update. */
  lemma {:induction false} BumpMesColumn(ms: seq<MesTotal>, m: string, renda: real, despesas: real, kind: Kind)
    ensures Column(BumpMes(ms, m, renda, despesas), kind)
         == Bump(Column(ms, kind), m, if kind == Income then renda else despesas)
  {
    if ms != [] && ms[0].mes != m {
      BumpMesColumn(ms[1..], m, renda, despesas, kind);
    }
  }

  // ---------------------------------------------------------------------
  // the aggregation, as functions of the records

  /** The expense breakdown by one key. */
  function Breakdown(ls: seq<Lancamento>, g: By): seq<Entry>
  {
    if ls == [] then []
    else
      var l := ls[|ls| - 1];
      var b := Breakdown(ls[..|ls| - 1], g);
      if IsKind(l.tipo, Expense) then Bump(b, Key(l, g), l.valor) else b
  }

  /** The month entries, in the order the months are first seen. */
  function Months(ls: seq<Lancamento>): seq<MesTotal>
  {
    if ls == [] then []
    else
      var l := ls[|ls| - 1];
      var ms := Months(ls[..|ls| - 1]);
      match l.mes
      case None => ms
      case Some(m) => BumpMes(ms, m, Share(l, Income), Share(l, Expense))
  }

  /** The value `useMemo` returns. */
  datatype Totais = Totais(
    renda: real,
    despesa: real,
    saldo: real,
    porSubgrupo: seq<Entry>,
    porFormaPagamento: seq<Entry>,
    porMes: seq<MesTotal>)

  /** The aggregation of a list of read records. */
  function Summarize(ls: seq<Lancamento>): (t: Totais)
    ensures t.saldo == SaldoInicial + t.renda - t.despesa
    ensures |t.porMes| >= 1 && t.porMes[|t.porMes| - 1] == MesTotal(Mes.TotalGeral, t.renda, t.despesa)
  {
    var renda := Total(ls, Income);
    var despesa := Total(ls, Expense);
    Totais(renda, despesa, SaldoInicial + renda - despesa,
           Breakdown(ls, Subgrupo), Breakdown(ls, FormaPagamento),
           Months(ls) + [MesTotal(Mes.TotalGeral, renda, despesa)])
  }

  /** The aggregation of a list of records. */
  function TotaisOf(rows: seq<Row>): Totais
    requires AllReadable(rows)
  {
    Summarize(ReadAll(rows))
  }

  /** How every accumulator of the pass changes with one more record. */
  lemma SummarizeSnoc(pre: seq<Lancamento>, l: Lancamento)
    ensures var post := pre + [l];
      && Total(post, Income) == Total(pre, Income) + Share(l, Income)
      && Total(post, Expense) == Total(pre, Expense) + Share(l, Expense)
      && Breakdown(post, Subgrupo)
         == (if IsKind(l.tipo, Expense) then Bump(Breakdown(pre, Subgrupo), l.subgrupo, l.valor) else Breakdown(pre, Subgrupo))
      && Breakdown(post, FormaPagamento)
         == (if IsKind(l.tipo, Expense) then Bump(Breakdown(pre, FormaPagamento), l.banco, l.valor) else Breakdown(pre, FormaPagamento))
      && Months(post)
         == (if l.mes.Some? then BumpMes(Months(pre), l.mes.value, Share(l, Income), Share(l, Expense)) else Months(pre))
  {
    assert (pre + [l])[..|pre|] == pre;
  }

  /** The five accumulators of the pass hold the aggregation of the records `seen`. */
  predicate Accumulated(seen: seq<Lancamento>, renda: real, despesa: real,
                        porSubgrupo: seq<Entry>, porBanco: seq<Entry>, porMes: seq<MesTotal>)
  {
    && renda == Total(seen, Income) && despesa == Total(seen, Expense)
    && porSubgrupo == Breakdown(seen, Subgrupo) && porBanco == Breakdown(seen, FormaPagamento)
    && porMes == Months(seen)
  }

  /**
    The `forEach` callback on record `i` (it receives the record list and
    the index as `forEach` supplies them): given the accumulators of the
    first `i` records, it leaves the accumulators of the first `i + 1`.
    The truthiness test `if (mes)` is `mes.Some?`: a month label is never
    the empty string (`Mes.MonthLabel` has at least two characters).
   */
  method Visit(linhas: seq<Row>, i: nat,
               renda0: real, despesa0: real, porSubgrupo0: seq<Entry>, porBanco0: seq<Entry>, porMes0: seq<MesTotal>)
    returns (renda: real, despesa: real, porSubgrupo: seq<Entry>, porBanco: seq<Entry>, porMes: seq<MesTotal>)
    requires AllReadable(linhas) && i < |linhas|
    requires Accumulated(ReadAll(linhas)[..i], renda0, despesa0, porSubgrupo0, porBanco0, porMes0)
    ensures Accumulated(ReadAll(linhas)[..i + 1], renda, despesa, porSubgrupo, porBanco, porMes)
  {
    var linha := linhas[i];
    ghost var seen := ReadAll(linhas)[..i];
    PrefixSnoc(ReadAll(linhas), i);
    var tipo := Trim(linha[4]);
    var subgrupo := Trim(linha[5]);
    var banco := Trim(linha[7]);
    var valor := Valor.ParseValor(linha[8]);
    var mes := Mes.FormatMes(linha[2]);
    SummarizeSnoc(seen, Read(linha));

    renda, despesa := renda0, despesa0;
    if tipo == "Renda" {
      renda := renda + valor;
    } else if tipo == "Despesas" || tipo == "Despesa" {
      despesa := despesa + valor;
    }

    porSubgrupo, porBanco := porSubgrupo0, porBanco0;
    if tipo == "Despesas" || tipo == "Despesa" {
      porSubgrupo := Bump(porSubgrupo, subgrupo, valor);
      porBanco := Bump(porBanco, banco, valor);
    }

    porMes := porMes0;
    if mes.Some? {
      var rendaMes := if tipo == "Renda" then valor else 0.0;
      var despesaMes := if tipo == "Despesas" || tipo == "Despesa" then valor else 0.0;
      porMes := BumpMes(porMes, mes.value, rendaMes, despesaMes);
    }
  }

  /**
    The `useMemo` computation: the `forEach` over the records, then the
    result object with the balance and the "Total Geral" month entry.
   */
  method Aggregate(linhas: seq<Row>) returns (t: Totais)
    requires AllReadable(linhas)
    ensures t == TotaisOf(linhas)
  {
    ghost var ls := ReadAll(linhas);
    var renda, despesa := 0.0, 0.0;
    var porSubgrupo: seq<Entry> := [];
    var porBanco: seq<Entry> := [];
    var porMes: seq<MesTotal> := [];
    var i := 0;
    while i < |linhas|
      invariant i <= |linhas|
      invariant Accumulated(ls[..i], renda, despesa, porSubgrupo, porBanco, porMes)
    {
      renda, despesa, porSubgrupo, porBanco, porMes :=
        Visit(linhas, i, renda, despesa, porSubgrupo, porBanco, porMes);
      i := i + 1;
    }
    assert ls[..i] == ls;
    var totalGeral := MesTotal(Mes.TotalGeral, renda, despesa);
    t := Totais(renda, despesa, SaldoInicial + renda - despesa, porSubgrupo, porBanco, porMes + [totalGeral]);
  }

  // ---------------------------------------------------------------------
  // properties of the breakdowns

  /** An expense record whose key is `k`. */
  predicate Carries(l: Lancamento, g: By, k: string) {
    IsKind(l.tipo, Expense) && Key(l, g) == k
  }

  /** A breakdown never holds the same key twice. */
  lemma {:induction false} BreakdownDistinct(ls: seq<Lancamento>, g: By)
    ensures Distinct(Names(Breakdown(ls, g)))
  {
    if ls != [] {
      var n := |ls| - 1;
      var l := ls[n];
      BreakdownDistinct(ls[..n], g);
      if IsKind(l.tipo, Expense) {
        BumpDistinct(Breakdown(ls[..n], g), Key(l, g), l.valor);
      }
    }
  }

  /** `k` is a key of the breakdown exactly when some expense record carries it. */
  lemma {:induction false} BreakdownKeys(ls: seq<Lancamento>, g: By, k: string)
    ensures k in Names(Breakdown(ls, g)) <==> exists i :: 0 <= i < |ls| && Carries(ls[i], g, k)
  {
    if ls != [] {
      var n := |ls| - 1;
      var init := ls[..n];
      var l := ls[n];
      var b := Breakdown(init, g);
      BreakdownKeys(init, g, k);
      if IsKind(l.tipo, Expense) {
        BumpNames(b, Key(l, g), l.valor);
      }
      if k in Names(Breakdown(ls, g)) {
        if k in Names(b) {
          var i :| 0 <= i < |init| && Carries(init[i], g, k);
          assert init[i] == ls[i];
        } else {
          assert Carries(ls[n], g, k);
        }
      }
      if exists i :: 0 <= i < |ls| && Carries(ls[i], g, k) {
        var i :| 0 <= i < |ls| && Carries(ls[i], g, k);
        if i < n {
          assert init[i] == ls[i];
        }
      }
    }
  }

  /** The value under `k` is the sum of the amounts of the expense records whose key is `k`. */
  lemma {:induction false} BreakdownLookup(ls: seq<Lancamento>, g: By, k: string)
    ensures Lookup(Breakdown(ls, g), k) == ExpenseFor(ls, g, k)
  {
    if ls != [] {
      var n := |ls| - 1;
      var l := ls[n];
      BreakdownLookup(ls[..n], g, k);
      if IsKind(l.tipo, Expense) {
        BumpLookup(Breakdown(ls[..n], g), Key(l, g), l.valor, k);
      }
    }
  }

  /** The values of a breakdown add up to the expense total: the chart of a breakdown covers every expense. */
  lemma {:induction false} BreakdownSum(ls: seq<Lancamento>, g: By)
    ensures SumValues(Breakdown(ls, g)) == Total(ls, Expense)
  {
    if ls != [] {
      var n := |ls| - 1;
      var l := ls[n];
      BreakdownSum(ls[..n], g);
      if IsKind(l.tipo, Expense) {
        BumpSum(Breakdown(ls[..n], g), Key(l, g), l.valor);
      }
    }
  }

  // ---------------------------------------------------------------------
  // properties of the month list

  /** Seen one kind at a time, one more dated record bumps its month by its share of that kind. */
  lemma MonthsColumnStep(ls: seq<Lancamento>, kind: Kind)
    requires ls != []
    ensures var n := |ls| - 1;
      var l, c := ls[n], Column(Months(ls[..n]), kind);
      Column(Months(ls), kind) == if l.mes.Some? then Bump(c, l.mes.value, Share(l, kind)) else c
  {
    var n := |ls| - 1;
    var l := ls[n];
    if l.mes.Some? {
      BumpMesColumn(Months(ls[..n]), l.mes.value, Share(l, Income), Share(l, Expense), kind);
    }
  }

  /** No month has two entries. */
  lemma {:induction false} MonthsDistinct(ls: seq<Lancamento>, kind: Kind)
    ensures Distinct(Names(Column(Months(ls), kind)))
  {
    if ls != [] {
      var n := |ls| - 1;
      var l := ls[n];
      MonthsDistinct(ls[..n], kind);
      MonthsColumnStep(ls, kind);
      if l.mes.Some? {
        BumpDistinct(Column(Months(ls[..n]), kind), l.mes.value, Share(l, kind));
      }
    }
  }

  /** A month has an entry exactly when some record is dated in it, whatever its type. */
  lemma {:induction false} MonthsKeys(ls: seq<Lancamento>, kind: Kind, m: string)
    ensures m in Names(Column(Months(ls), kind)) <==> exists i :: 0 <= i < |ls| && ls[i].mes == Some(m)
  {
    if ls != [] {
      var n := |ls| - 1;
      var init := ls[..n];
      var l := ls[n];
      var c := Column(Months(init), kind);
      MonthsKeys(init, kind, m);
      MonthsColumnStep(ls, kind);
      if l.mes.Some? {
        BumpNames(c, l.mes.value, Share(l, kind));
      }
      if m in Names(Column(Months(ls), kind)) {
        if m in Names(c) {
          var i :| 0 <= i < |init| && init[i].mes == Some(m);
          assert init[i] == ls[i];
        } else {
          assert ls[n].mes == Some(m);
        }
      }
      if exists i :: 0 <= i < |ls| && ls[i].mes == Some(m) {
        var i :| 0 <= i < |ls| && ls[i].mes == Some(m);
        if i < n {
          assert init[i] == ls[i];
        }
      }
    }
  }

  /** The entry of month `m` holds the sum of the amounts of the given kind dated in `m`. */
  lemma {:induction false} MonthsLookup(ls: seq<Lancamento>, kind: Kind, m: string)
    ensures Lookup(Column(Months(ls), kind), m) == TotalIn(ls, kind, m)
  {
    if ls != [] {
      var n := |ls| - 1;
      var l := ls[n];
      MonthsLookup(ls[..n], kind, m);
      MonthsColumnStep(ls, kind);
      if l.mes.Some? {
        BumpLookup(Column(Months(ls[..n]), kind), l.mes.value, Share(l, kind), m);
      }
    }
  }

  /** The month entries plus the undated records add up to the total of each kind. */
  lemma {:induction false} MonthsSum(ls: seq<Lancamento>, kind: Kind)
    ensures SumValues(Column(Months(ls), kind)) + TotalUndated(ls, kind) == Total(ls, kind)
  {
    if ls != [] {
      var n := |ls| - 1;
      var l := ls[n];
      MonthsSum(ls[..n], kind);
      MonthsColumnStep(ls, kind);
      if l.mes.Some? {
        BumpSum(Column(Months(ls[..n]), kind), l.mes.value, Share(l, kind));
      }
    }
  }

  /** The names of a column are the months of the list. */
  lemma {:induction false} ColumnNamesAt(ms: seq<MesTotal>, kind: Kind, i: nat)
    requires i < |ms|
    ensures Names(Column(ms, kind))[i] == ms[i].mes
  {
    if i > 0 {
      ColumnNamesAt(ms[1..], kind, i - 1);
    }
  }

  /**
    `porMes` ends with the "Total Geral" entry holding the grand totals,
    and no month entry before it carries that label.
   */
  lemma TotalGeralEntry(rows: seq<Row>)
    requires AllReadable(rows)
    ensures var ms := TotaisOf(rows).porMes;
      && ms[|ms| - 1] == MesTotal(Mes.TotalGeral, Total(ReadAll(rows), Income), Total(ReadAll(rows), Expense))
      && forall i :: 0 <= i < |ms| - 1 ==> ms[i].mes != Mes.TotalGeral
  {
    var ls := ReadAll(rows);
    var months := Months(ls);
    assert TotaisOf(rows).porMes == months + [MesTotal(Mes.TotalGeral, Total(ls, Income), Total(ls, Expense))];
    forall i | 0 <= i < |months| ensures months[i].mes != Mes.TotalGeral {
      var m := months[i].mes;
      ColumnNamesAt(months, Income, i);
      MonthsKeys(ls, Income, m);
      var j :| 0 <= j < |ls| && ls[j].mes == Some(m);
      Mes.MonthLabelNotTotal(rows[j][2]);
    }
  }

  /** The records ingestion produces are always readable by the aggregation. */
  lemma IngestedReadable(csv: string)
    ensures AllReadable(Ingestao.Ingested(csv))
  {
    Ingestao.IngestedWellFormed(csv);
  }
}
