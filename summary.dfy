/** The balance rules of `app.py`: the `/consultar` route, which reports the
    totals with exactly one tip, and `gerar_analise_simples`, the chat's
    three-way verdict on the balance. The four `COALESCE(SUM(valor), 0)`
    queries are a parameter: their values, or the exception one of them
    raised. */
module Summary {
  import opened Wrappers

  /** The sums of the `entradas`, `gastos`, `dividas` and `fixas` tables. */
  datatype Sums = Sums(entradas: real, gastos: real, dividas: real, fixas: real)

  /** What the balance counts as spending: expenses plus fixed costs. */
  function TotalGastos(s: Sums): real {
    s.gastos + s.fixas
  }

  /** Income minus spending; debts do not enter the balance. */
  function Saldo(s: Sums): real {
    s.entradas - TotalGastos(s)
  }

  /** The balance below which a non-negative balance counts as low. */
  const LowBalanceLimit: real := 100.0

  /** The three tips of `/consultar`. */
  datatype Tip = NegativeBalance | LowBalance | PositiveBalance

  /** The tip `/consultar` gives for a balance. */
  function TipFor(saldo: real): (t: Tip)
    ensures t == NegativeBalance <==> saldo < 0.0
    ensures t == LowBalance <==> 0.0 <= saldo < LowBalanceLimit
    ensures t == PositiveBalance <==> LowBalanceLimit <= saldo
  {
    if saldo < 0.0 then NegativeBalance
    else if saldo < LowBalanceLimit then LowBalance
    else PositiveBalance
  }

  /** The JSON body of `/consultar`; `ServerError` is the 500 answer given when
      a query raised. */
  datatype Consulta =
    | Report(entradas: real, gastos: real, fixas: real, dividas: real, saldo: real, dicas: seq<Tip>)
    | ServerError(exception: PyException)

  /** `/consultar`: reports spending as expenses plus fixed costs, the balance
      as income minus that, the other sums as queried, and a list holding
      exactly the one tip for the balance. */
  method Consultar(sums: Outcome<Sums>) returns (r: Consulta)
    ensures sums.Raised? <==> r.ServerError?
    ensures sums.Raised? ==> r.exception == sums.exception
    ensures sums.Returned? ==>
      var s := sums.value;
      && r.entradas == s.entradas && r.fixas == s.fixas && r.dividas == s.dividas
      && r.gastos == s.gastos + s.fixas
      && r.saldo == s.entradas - (s.gastos + s.fixas)
      && r.dicas == [TipFor(r.saldo)]
  {
    if sums.Raised? {
      return ServerError(sums.exception);
    }
    var s := sums.value;
    var totalGastos := s.gastos + s.fixas;
    var saldo := s.entradas - totalGastos;
    var dicas: seq<Tip> := [];
    if saldo < 0.0 {
      dicas := dicas + [NegativeBalance];
    } else if saldo < LowBalanceLimit {
      dicas := dicas + [LowBalance];
    } else {
      dicas := dicas + [PositiveBalance];
    }
    r := Report(s.entradas, totalGastos, s.fixas, s.dividas, saldo, dicas);
  }

  /** The three verdicts of `gerar_analise_simples`. */
  datatype Verdict = Positive | Balanced | Negative

  /** The chat's analysis: the verdict with the income, spending and balance it
      shows, or the error message when a query raised. */
  datatype Analysis =
    | Situation(verdict: Verdict, entradas: real, gastos: real, saldo: real)
    | AnalysisError(exception: PyException)

  /** `gerar_analise_simples`: exactly one verdict, by the sign of the
      balance. */
  function Analyse(sums: Outcome<Sums>): (r: Analysis)
    ensures sums.Raised? <==> r.AnalysisError?
    ensures sums.Returned? ==>
      && r.entradas == sums.value.entradas
      && r.gastos == TotalGastos(sums.value)
      && r.saldo == r.entradas - r.gastos
      && (r.verdict == Positive <==> r.saldo > 0.0)
      && (r.verdict == Balanced <==> r.saldo == 0.0)
      && (r.verdict == Negative <==> r.saldo < 0.0)
  {
    match sums
    case Raised(e) => AnalysisError(e)
    case Returned(s) =>
      var saldo := Saldo(s);
      var verdict := if saldo > 0.0 then Positive else if saldo == 0.0 then Balanced else Negative;
      Situation(verdict, s.entradas, TotalGastos(s), saldo)
  }

  /** The tip of `/consultar` and the chat's verdict agree on a negative
      balance; a balanced account gets the low-balance tip, and the
      positive-balance tip comes only with a positive verdict. */
  lemma TipAgreesWithAnalysis(s: Sums)
    ensures TipFor(Saldo(s)) == NegativeBalance <==> Analyse(Returned(s)).verdict == Negative
    ensures Analyse(Returned(s)).verdict == Balanced ==> TipFor(Saldo(s)) == LowBalance
    ensures TipFor(Saldo(s)) == PositiveBalance ==> Analyse(Returned(s)).verdict == Positive
  {
    var a := Analyse(Returned(s));
    assert a.saldo == Saldo(s);
  }

  /** The order of the tips from worst to best. */
  function TipRank(t: Tip): nat {
    match t
    case NegativeBalance => 0
    case LowBalance => 1
    case PositiveBalance => 2
  }

  /** A larger balance never gets a worse tip. */
  lemma TipMonotone(a: real, b: real)
    requires a <= b
    ensures TipRank(TipFor(a)) <= TipRank(TipFor(b))
  {
  }

  /** Debts are queried but change neither the balance, nor the tip, nor the
      analysis. */
  lemma DebtsDoNotCount(s: Sums, d: real)
    ensures Saldo(s.(dividas := d)) == Saldo(s)
    ensures TipFor(Saldo(s.(dividas := d))) == TipFor(Saldo(s))
    ensures Analyse(Returned(s.(dividas := d))) == Analyse(Returned(s))
  {
  }
}
