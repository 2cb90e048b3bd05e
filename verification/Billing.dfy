/** Monthly invoices: contract split, usage grouped by model, and rounded line items. */
module Billing {
  import opened Rounding

  datatype Call = Call(model: string, inputTokens: nat, outputTokens: nat, totalTokens: nat, cost: real)

  datatype Contract =
    | Forfait(tokensIncluded: nat, baseFee: real, overagePrice: real)
    | PayAsYouGo

  datatype Invoice = Invoice(
    totalCalls: nat, totalTokens: nat, totalInput: nat, totalOutput: nat, rawCost: real,
    forfaitIncluded: nat, forfaitUsed: nat, overage: nat, baseFee: real, overageCharge: real, totalBilled: real)

  datatype Line =
    | BaseFeeLine(amount: real)
    | UsageLine(model: string, tokens: nat, calls: nat, amount: real)
    | OverageLine(tokens: nat, amount: real)

  // ---- Usage of a model, independently of any grouping ----

  datatype Usage = Usage(tokens: nat, calls: nat, cost: real)

  const NO_USAGE := Usage(0, 0, 0.0)

  function Plus(a: Usage, b: Usage): Usage {
    Usage(a.tokens + b.tokens, a.calls + b.calls, a.cost + b.cost)
  }

  function One(c: Call): Usage {
    Usage(c.totalTokens, 1, c.cost)
  }

  function Total(calls: seq<Call>): Usage {
    if calls == [] then NO_USAGE else Plus(Total(calls[..|calls| - 1]), One(calls[|calls| - 1]))
  }

  function UsageOf(calls: seq<Call>, model: string): Usage {
    if calls == [] then NO_USAGE
    else
      var c, before := calls[|calls| - 1], UsageOf(calls[..|calls| - 1], model);
      if c.model == model then Plus(before, One(c)) else before
  }

  /** The models called, in order of first call. */
  function Models(calls: seq<Call>): (models: seq<string>)
    ensures forall i, j :: 0 <= i < j < |models| ==> models[i] != models[j]
  {
    if calls == [] then []
    else
      var before, model := Models(calls[..|calls| - 1]), calls[|calls| - 1].model;
      if model in before then before else before + [model]
  }

  function SumOf(calls: seq<Call>, models: seq<string>): Usage {
    if models == [] then NO_USAGE
    else Plus(SumOf(calls, models[..|models| - 1]), UsageOf(calls, models[|models| - 1]))
  }

  lemma {:induction false} SumAfterCall(calls: seq<Call>, c: Call, models: seq<string>)
    requires forall i, j :: 0 <= i < j < |models| ==> models[i] != models[j]
    ensures SumOf(calls + [c], models) == if c.model in models then Plus(SumOf(calls, models), One(c)) else SumOf(calls, models)
  {
    assert (calls + [c])[..|calls|] == calls;
    if models != [] {
      var init := models[..|models| - 1];
      SumAfterCall(calls, c, init);
      assert models == init + [models[|models| - 1]];
    }
  }

  lemma {:induction false} UncalledIsUnused(calls: seq<Call>, model: string)
    requires model !in Models(calls)
    ensures UsageOf(calls, model) == NO_USAGE
  {
    if calls != [] {
      UncalledIsUnused(calls[..|calls| - 1], model);
    }
  }

  /** Grouping conserves: the per-model tokens, calls and costs add up to those of all calls. */
  lemma {:induction false} GroupingConserves(calls: seq<Call>)
    ensures SumOf(calls, Models(calls)) == Total(calls)
  {
    if calls != [] {
      var init, c := calls[..|calls| - 1], calls[|calls| - 1];
      var before := Models(init);
      assert calls == init + [c];
      GroupingConserves(init);
      SumAfterCall(init, c, before);
      if c.model !in before {
        UncalledIsUnused(init, c.model);
        assert Models(calls)[..|before|] == before;
      }
    }
  }

  /** One pass over the calls, filling a dictionary that remembers the order of its keys. */
  method GroupByModel(calls: seq<Call>) returns (order: seq<string>, usage: map<string, Usage>)
    ensures order == Models(calls)
    ensures forall m :: m in usage <==> m in order
    ensures forall m :: m in usage ==> usage[m] == UsageOf(calls, m)
  {
    order, usage := [], map[];
    for i := 0 to |calls|
      invariant order == Models(calls[..i])
      invariant forall m :: m in usage <==> m in order
      invariant forall m :: m in usage ==> usage[m] == UsageOf(calls[..i], m)
    {
      var c := calls[i];
      assert calls[..i + 1][..i] == calls[..i] && calls[..i + 1][i] == c;
      if c.model !in usage {
        UncalledIsUnused(calls[..i], c.model);
        usage := usage[c.model := NO_USAGE];
        order := order + [c.model];
      }
      usage := usage[c.model := Usage(usage[c.model].tokens + c.totalTokens, usage[c.model].calls + 1,
                                      usage[c.model].cost + c.cost)];
    }
    assert calls[..|calls|] == calls;
  }

  // ---- The invoice ----

  function InputTokens(calls: seq<Call>): nat {
    if calls == [] then 0 else InputTokens(calls[..|calls| - 1]) + calls[|calls| - 1].inputTokens
  }

  function OutputTokens(calls: seq<Call>): nat {
    if calls == [] then 0 else OutputTokens(calls[..|calls| - 1]) + calls[|calls| - 1].outputTokens
  }

  /** What the contract makes of a month's usage, before rounding. */
  datatype Split = Split(included: nat, used: nat, overage: nat, baseFee: real, charge: real, billed: real)

  /** Every token is either covered by the forfait or billed as overage, and overage starts only once it is used up. */
  function SplitOf(contract: Contract, total: Usage): (s: Split)
    ensures contract.Forfait? ==> s.used + s.overage == total.tokens && s.used <= s.included == contract.tokensIncluded
    ensures contract.Forfait? && s.overage > 0 ==> s.used == s.included
    ensures contract.PayAsYouGo? ==> s.used == s.overage == s.included == 0 && s.billed == total.cost
    ensures s.overage == 0 ==> s.charge == 0.0
    ensures contract.Forfait? ==> s.billed == s.baseFee + s.charge && s.baseFee == contract.baseFee
    ensures contract.Forfait? ==> s.charge * 1000.0 == s.overage as real * contract.overagePrice
    ensures contract.PayAsYouGo? ==> s.baseFee == s.charge == 0.0
  {
    match contract
    case Forfait(included, fee, price) =>
      var used := if total.tokens < included then total.tokens else included;
      var overage := if total.tokens > included then total.tokens - included else 0;
      var charge := overage as real / 1000.0 * price;
      assert overage == 0 ==> charge == 0.0 * price == 0.0;
      Split(included, used, overage, fee, charge, fee + charge)
    case PayAsYouGo =>
      Split(0, 0, 0, 0.0, 0.0, total.cost)
  }

  function InvoiceOf(calls: seq<Call>, s: Split): Invoice {
    var total := Total(calls);
    Invoice(|calls|, total.tokens, InputTokens(calls), OutputTokens(calls), Round4(total.cost),
            s.included, s.used, s.overage, Round4(s.baseFee), Round4(s.charge), Round4(s.billed))
  }

  function UsageLineOf(calls: seq<Call>, model: string): Line {
    var u := UsageOf(calls, model);
    UsageLine(model, u.tokens, u.calls, Round4(u.cost))
  }

  function UsageLines(calls: seq<Call>, models: seq<string>): seq<Line> {
    if models == [] then []
    else UsageLines(calls, models[..|models| - 1]) + [UsageLineOf(calls, models[|models| - 1])]
  }

  function FeeLines(s: Split): seq<Line> {
    if s.baseFee > 0.0 then [BaseFeeLine(Round4(s.baseFee))] else []
  }

  function OverageLines(s: Split): seq<Line> {
    if s.overage > 0 then [OverageLine(s.overage, Round4(s.charge))] else []
  }

  function LinesOf(calls: seq<Call>, s: Split): seq<Line> {
    FeeLines(s) + UsageLines(calls, Models(calls)) + OverageLines(s)
  }

  /** One usage line per model, in the order of the dictionary. */
  method UsageLineItems(calls: seq<Call>) returns (lines: seq<Line>)
    ensures lines == UsageLines(calls, Models(calls))
  {
    var order, usage := GroupByModel(calls);
    lines := [];
    for i := 0 to |order|
      invariant lines == UsageLines(calls, order[..i])
    {
      var u := usage[order[i]];
      lines := lines + [UsageLine(order[i], u.tokens, u.calls, Round4(u.cost))];
      assert order[..i + 1][..i] == order[..i];
    }
    assert order[..|order|] == order;
  }

  /** The fee line if there is a fee, the usage lines, and the overage line if there is overage. */
  method LineItems(calls: seq<Call>, s: Split) returns (lines: seq<Line>)
    ensures lines == LinesOf(calls, s)
  {
    lines := [];
    if s.baseFee > 0.0 {
      lines := lines + [BaseFeeLine(Round4(s.baseFee))];
    }
    var usageLines := UsageLineItems(calls);
    lines := lines + usageLines;
    if s.overage > 0 {
      lines := lines + [OverageLine(s.overage, Round4(s.charge))];
    }
  }

  /** One pass for the four totals. */
  method Sums(calls: seq<Call>) returns (tokens: nat, input: nat, output: nat, cost: real)
    ensures tokens == Total(calls).tokens && cost == Total(calls).cost
    ensures input == InputTokens(calls) && output == OutputTokens(calls)
  {
    tokens, input, output, cost := 0, 0, 0, 0.0;
    for i := 0 to |calls|
      invariant tokens == Total(calls[..i]).tokens && cost == Total(calls[..i]).cost
      invariant input == InputTokens(calls[..i]) && output == OutputTokens(calls[..i])
    {
      assert calls[..i + 1][..i] == calls[..i];
      tokens, input, output, cost := tokens + calls[i].totalTokens, input + calls[i].inputTokens,
                                     output + calls[i].outputTokens, cost + calls[i].cost;
    }
    assert calls[..|calls|] == calls;
  }

  method GenerateBilling(contract: Contract, calls: seq<Call>) returns (invoice: Invoice, lines: seq<Line>)
    ensures invoice == InvoiceOf(calls, SplitOf(contract, Total(calls)))
    ensures invoice.totalCalls == |calls| && invoice.totalTokens == Total(calls).tokens
    ensures invoice.totalInput == InputTokens(calls) && invoice.totalOutput == OutputTokens(calls)
    ensures contract.Forfait? ==> invoice.forfaitUsed + invoice.overage == invoice.totalTokens
    ensures contract.PayAsYouGo? ==> invoice.totalBilled == invoice.rawCost
    ensures lines == LinesOf(calls, SplitOf(contract, Total(calls)))
  {
    var totalTokens, totalInput, totalOutput, rawCost := Sums(calls);
    var s;
    match contract {
      case Forfait(included, fee, price) =>
        var overage := if totalTokens - included > 0 then totalTokens - included else 0;
        var charge := overage as real / 1000.0 * price;
        s := Split(included, if totalTokens < included then totalTokens else included, overage, fee, charge, fee + charge);
      case PayAsYouGo =>
        s := Split(0, 0, 0, 0.0, 0.0, rawCost);
    }
    assert s == SplitOf(contract, Total(calls));
    invoice := Invoice(|calls|, totalTokens, totalInput, totalOutput, Round4(rawCost), s.included, s.used, s.overage,
                       Round4(s.baseFee), Round4(s.charge), Round4(s.billed));
    lines := LineItems(calls, s);
  }

  // ---- Lines against the invoice ----

  function LineTokens(lines: seq<Line>): nat {
    if lines == [] then 0
    else LineTokens(lines[..|lines| - 1]) + match lines[|lines| - 1] case UsageLine(_, tokens, _, _) => tokens case _ => 0
  }

  function LineCalls(lines: seq<Line>): nat {
    if lines == [] then 0
    else LineCalls(lines[..|lines| - 1]) + match lines[|lines| - 1] case UsageLine(_, _, calls, _) => calls case _ => 0
  }

  /** The lines a contract bills: usage when paying as you go, fee and overage on a forfait. */
  predicate Billable(contract: Contract, l: Line) {
    contract.PayAsYouGo? <==> l.UsageLine?
  }

  function BilledAmount(contract: Contract, lines: seq<Line>): real {
    if lines == [] then 0.0
    else BilledAmount(contract, lines[..|lines| - 1])
         + if Billable(contract, lines[|lines| - 1]) then lines[|lines| - 1].amount else 0.0
  }

  function BilledCount(contract: Contract, lines: seq<Line>): nat {
    if lines == [] then 0
    else BilledCount(contract, lines[..|lines| - 1]) + if Billable(contract, lines[|lines| - 1]) then 1 else 0
  }

  lemma {:induction false} LinesConcat(contract: Contract, a: seq<Line>, b: seq<Line>)
    ensures LineTokens(a + b) == LineTokens(a) + LineTokens(b)
    ensures LineCalls(a + b) == LineCalls(a) + LineCalls(b)
    ensures BilledAmount(contract, a + b) == BilledAmount(contract, a) + BilledAmount(contract, b)
    ensures BilledCount(contract, a + b) == BilledCount(contract, a) + BilledCount(contract, b)
  {
    if b == [] {
      assert a + b == a;
    } else {
      assert (a + b)[..|a + b| - 1] == a + b[..|b| - 1];
      LinesConcat(contract, a, b[..|b| - 1]);
    }
  }

  lemma {:induction false} UsageLinesAddUp(contract: Contract, calls: seq<Call>, models: seq<string>)
    ensures var lines, sum := UsageLines(calls, models), SumOf(calls, models);
      && LineTokens(lines) == sum.tokens && LineCalls(lines) == sum.calls
      && BilledCount(contract, lines) == (if contract.PayAsYouGo? then |models| else 0)
      && (contract.Forfait? ==> BilledAmount(contract, lines) == 0.0)
      && (contract.PayAsYouGo? ==>
           -(|models| as real) * HALF_UNIT <= BilledAmount(contract, lines) - sum.cost <= |models| as real * HALF_UNIT)
  {
    if models != [] {
      var init := models[..|models| - 1];
      UsageLinesAddUp(contract, calls, init);
      assert UsageLines(calls, models)[..|UsageLines(calls, init)|] == UsageLines(calls, init);
      assert |models| as real == |init| as real + 1.0;
    }
  }

  lemma EdgeLinesAddUp(contract: Contract, s: Split)
    requires s.baseFee >= 0.0 && (s.overage == 0 ==> s.charge == 0.0)
    ensures LineTokens(FeeLines(s)) == LineCalls(FeeLines(s)) == LineTokens(OverageLines(s)) == LineCalls(OverageLines(s)) == 0
    ensures var n := BilledCount(contract, FeeLines(s)) + BilledCount(contract, OverageLines(s));
      var amount := BilledAmount(contract, FeeLines(s)) + BilledAmount(contract, OverageLines(s));
      && (contract.PayAsYouGo? ==> n == 0 && amount == 0.0)
      && (contract.Forfait? ==> -(n as real) * HALF_UNIT <= amount - (s.baseFee + s.charge) <= n as real * HALF_UNIT)
  {
  }

  /** Counts and amounts of an invoice's lines, before its total is rounded. */
  lemma LinesNearBilled(contract: Contract, calls: seq<Call>, s: Split)
    requires s.baseFee >= 0.0 && (s.overage == 0 ==> s.charge == 0.0)
    ensures var lines := LinesOf(calls, s);
      var n, amount := BilledCount(contract, lines), BilledAmount(contract, lines);
      var billed := if contract.Forfait? then s.baseFee + s.charge else Total(calls).cost;
      && LineTokens(lines) == Total(calls).tokens && LineCalls(lines) == Total(calls).calls
      && -(n as real) * HALF_UNIT <= amount - billed <= n as real * HALF_UNIT
  {
    var usage := UsageLines(calls, Models(calls));
    LinesConcat(contract, FeeLines(s), usage);
    LinesConcat(contract, FeeLines(s) + usage, OverageLines(s));
    UsageLinesAddUp(contract, calls, Models(calls));
    GroupingConserves(calls);
    EdgeLinesAddUp(contract, s);
  }

  lemma {:induction false} CallsCounted(calls: seq<Call>)
    ensures Total(calls).calls == |calls|
  {
    if calls != [] {
      CallsCounted(calls[..|calls| - 1]);
    }
  }

  /**
   * The usage lines carry exactly the invoice's tokens and calls, and the billable lines differ from the rounded total by
   * at most half a unit for each of them and half a unit for the total.
   */
  lemma LinesMatchInvoice(contract: Contract, calls: seq<Call>)
    requires contract.Forfait? ==> contract.baseFee >= 0.0
    ensures var s := SplitOf(contract, Total(calls));
      var invoice, lines := InvoiceOf(calls, s), LinesOf(calls, s);
      var n := BilledCount(contract, lines);
      && LineTokens(lines) == invoice.totalTokens
      && LineCalls(lines) == invoice.totalCalls
      && -((n + 1) as real) * HALF_UNIT <= BilledAmount(contract, lines) - invoice.totalBilled <= (n + 1) as real * HALF_UNIT
  {
    var s := SplitOf(contract, Total(calls));
    LinesNearBilled(contract, calls, s);
    CallsCounted(calls);
  }
}
