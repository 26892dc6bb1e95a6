/** The maturity table generator of the calculator page: the returns text is
    split on commas and read as numbers, each return is classified against the
    threshold and settled, negative buffer payments are floored at zero with a
    warning, and the summary counts the two kinds of row. */
module Calculator {
  import opened Wrappers
  import Text
  import NumberParsing
  import Rounding

  // ---------------------------------------------------------------------------
  // Data model
  // ---------------------------------------------------------------------------

  /** The form's settings. Amounts and percentages are exact reals; nothing
      constrains their sign. */
  datatype Config = Config(principal: real, annualRate: real, threshold: real, buffer: real)

  /** The values the form starts with. */
  const Defaults: Config := Config(1000.0, 12.2, -10.0, 10.0)

  datatype Method = Interest | Buffer

  datatype Prediction = Protected | AtRisk

  /** The method as stored in a result row. */
  function MethodText(m: Method): string {
    match m
    case Interest => "Interest"
    case Buffer => "Buffer"
  }

  /** The prediction as stored in a result row; the at-risk label carries a
      trailing space. */
  function PredictionText(p: Prediction): string {
    match p
    case Protected => "Protected"
    case AtRisk => "At Risk "
  }

  /** One row of the maturity table. `payment` is the settled payment
      rounded to four decimals, as stored. */
  datatype Row = Row(ret: real, payment: real, methodUsed: Method, prediction: Prediction)

  // ---------------------------------------------------------------------------
  // Settling one return
  // ---------------------------------------------------------------------------

  /** The monthly interest rate in percent. */
  function MonthlyRate(c: Config): real {
    c.annualRate / 12.0
  }

  /** Principal plus one month of interest. */
  function InterestPayment(c: Config): real {
    c.principal + c.principal * MonthlyRate(c) / 100.0
  }

  /** Principal adjusted by the return net of the buffer, before flooring. */
  function BufferPayment(c: Config, ret: real): real {
    var haveToPayPer := ret + c.buffer;
    var haveToPay := c.principal * haveToPayPer / 100.0;
    c.principal + haveToPay
  }

  /** The return falls below the threshold and its buffer payment is negative,
      so it is floored and a warning is issued. */
  predicate Floored(c: Config, ret: real) {
    ret < c.threshold && BufferPayment(c, ret) < 0.0
  }

  /** The unrounded outcome for one return. */
  datatype Settlement = Settlement(payment: real, methodUsed: Method, prediction: Prediction)

  /** Classify and settle one return. A return at the threshold is protected.
      A protected return earns one month of interest whatever its size; an
      at-risk return pays principal times (100 + return + buffer) percent,
      or zero when that is negative. */
  function Settle(c: Config, ret: real): (s: Settlement)
    ensures s.methodUsed == Interest <==> ret >= c.threshold
    ensures s.prediction == Protected <==> s.methodUsed == Interest
    ensures ret >= c.threshold ==> s.payment == c.principal * (1.0 + c.annualRate / 1200.0)
    ensures ret < c.threshold ==> s.payment >= 0.0
    ensures (ret < c.threshold && !Floored(c, ret))
              ==> s.payment == c.principal * (100.0 + ret + c.buffer) / 100.0
    ensures Floored(c, ret) ==> s.payment == 0.0
  {
    ClosedForms(c, ret);
    if ret >= c.threshold then
      Settlement(InterestPayment(c), Interest, Protected)
    else
      var payment := BufferPayment(c, ret);
      Settlement(if payment < 0.0 then 0.0 else payment, Buffer, AtRisk)
  }

  /** Both payments as a single product: principal times one plus a month of
      interest, and principal times (100 + return + buffer) percent. */
  lemma ClosedForms(c: Config, ret: real)
    ensures InterestPayment(c) == c.principal * (1.0 + c.annualRate / 1200.0)
    ensures BufferPayment(c, ret) == c.principal * (100.0 + ret + c.buffer) / 100.0
  {
    var p := c.principal;
    assert p * (c.annualRate / 12.0) / 100.0 == p * (c.annualRate / 1200.0);
    assert p * (1.0 + c.annualRate / 1200.0) == p + p * (c.annualRate / 1200.0);
    assert p * (100.0 + ret + c.buffer) == 100.0 * p + p * (ret + c.buffer);
  }

  /** For a positive principal a below-threshold return is floored exactly
      when the buffer does not cover a loss beyond 100 percent; with no
      principal nothing is floored; with a negative principal (which the form
      does not forbid) the floor applies to the returns it would otherwise
      spare. */
  lemma FlooredIff(c: Config, ret: real)
    ensures c.principal > 0.0 ==> (Floored(c, ret) <==> ret < c.threshold && ret + c.buffer < -100.0)
    ensures c.principal == 0.0 ==> !Floored(c, ret)
    ensures c.principal < 0.0 ==> (Floored(c, ret) <==> ret < c.threshold && ret + c.buffer > -100.0)
  {
    ClosedForms(c, ret);
    var y := 100.0 + ret + c.buffer;
    var x := c.principal * y;
    assert BufferPayment(c, ret) == x / 100.0;
    if c.principal > 0.0 {
      if y < 0.0 { assert x < 0.0; }
      if y >= 0.0 { assert x >= 0.0; }
    } else if c.principal < 0.0 {
      if y > 0.0 { assert x < 0.0; }
      if y <= 0.0 { assert x >= 0.0; }
    }
  }

  /** The row for one return. */
  function RowFor(c: Config, ret: real): (r: Row)
    ensures r.ret == ret
    ensures r.methodUsed == Interest <==> ret >= c.threshold
    ensures r.prediction == Protected <==> ret >= c.threshold
    ensures ret >= c.threshold ==> r.payment == Rounding.Round4(c.principal * (1.0 + c.annualRate / 1200.0))
    ensures ret < c.threshold ==> r.payment >= 0.0
    ensures (ret < c.threshold && !Floored(c, ret))
              ==> r.payment == Rounding.Round4(c.principal * (100.0 + ret + c.buffer) / 100.0)
    ensures Floored(c, ret) ==> r.payment == 0.0
  {
    var s := Settle(c, ret);
    Row(ret, Rounding.Round4(s.payment), s.methodUsed, s.prediction)
  }

  // ---------------------------------------------------------------------------
  // Reading the returns text
  // ---------------------------------------------------------------------------

  /** One comma-separated token, trimmed and read with `parseFloat`. */
  function ReadToken(token: string): Option<real> {
    NumberParsing.ParseFloat(Text.Trim(token))
  }

  /** The values `read` gives the tokens, in order, with the tokens it cannot
      read dropped. */
  function KeepNumbers<T>(tokens: seq<T>, read: T -> Option<real>): (vals: seq<real>)
    ensures |vals| <= |tokens|
    decreases |tokens|
  {
    if |tokens| == 0 then []
    else
      var front := KeepNumbers(tokens[..|tokens| - 1], read);
      match read(tokens[|tokens| - 1])
      case Some(v) => front + [v]
      case None => front
  }

  /** `idx` lists the positions of the tokens that `read` turns into `vals`:
      increasing, each read as the number kept in its place, and every other
      token unreadable. */
  ghost predicate KeptAt<T>(tokens: seq<T>, read: T -> Option<real>, vals: seq<real>, idx: seq<nat>) {
    && |idx| == |vals|
    && (forall k :: 0 <= k < |idx| ==> idx[k] < |tokens| && read(tokens[idx[k]]) == Some(vals[k]))
    && (forall k, l :: 0 <= k < l < |idx| ==> idx[k] < idx[l])
    && (forall j :: 0 <= j < |tokens| && j !in idx ==> read(tokens[j]).None?)
  }

  /** The positions of the tokens that were kept. So the kept numbers are the
      readable tokens, in their original order, with no gap for a dropped
      token. */
  function KeptPositions<T>(tokens: seq<T>, read: T -> Option<real>): (idx: seq<nat>)
    ensures KeptAt(tokens, read, KeepNumbers(tokens, read), idx)
    decreases |tokens|
  {
    if |tokens| == 0 then []
    else
      var n := |tokens| - 1;
      var front := KeptPositions(tokens[..n], read);
      match read(tokens[n])
      case Some(v) =>
        KeptReadable(tokens, read, KeepNumbers(tokens[..n], read), front);
        front + [n]
      case None =>
        KeptUnreadable(tokens, read, KeepNumbers(tokens[..n], read), front);
        front
  }

  /** A readable last token extends the kept positions by its own. */
  lemma KeptReadable<T>(tokens: seq<T>, read: T -> Option<real>, vals: seq<real>, idx: seq<nat>)
    requires |tokens| > 0 && read(tokens[|tokens| - 1]).Some?
    requires KeptAt(tokens[..|tokens| - 1], read, vals, idx)
    ensures KeptAt(tokens, read, vals + [read(tokens[|tokens| - 1]).value], idx + [|tokens| - 1])
  {
    var n := |tokens| - 1;
    assert forall k :: 0 <= k < |idx| ==> tokens[idx[k]] == tokens[..n][idx[k]];
  }

  /** An unreadable last token leaves the kept positions as they are. */
  lemma KeptUnreadable<T>(tokens: seq<T>, read: T -> Option<real>, vals: seq<real>, idx: seq<nat>)
    requires |tokens| > 0 && read(tokens[|tokens| - 1]).None?
    requires KeptAt(tokens[..|tokens| - 1], read, vals, idx)
    ensures KeptAt(tokens, read, vals, idx)
  {
    var n := |tokens| - 1;
    assert forall k :: 0 <= k < |idx| ==> tokens[idx[k]] == tokens[..n][idx[k]];
  }

  /** Reading concatenated token lists concatenates the numbers read. */
  lemma {:induction false} KeepNumbersAppend<T>(a: seq<T>, b: seq<T>, read: T -> Option<real>)
    ensures KeepNumbers(a + b, read) == KeepNumbers(a, read) + KeepNumbers(b, read)
    decreases |b|
  {
    if |b| == 0 {
      assert a + b == a;
    } else {
      var n := |b| - 1;
      KeepNumbersAppend(a, b[..n], read);
      assert (a + b)[..|a + b| - 1] == a + b[..n];
      assert (a + b)[|a + b| - 1] == b[n];
    }
  }

  /** The returns read from the returns text: the text is cut at every comma,
      each piece is trimmed and read as a number, and the pieces that do not
      read as a number are dropped. There is at most one return per piece, so
      never more returns than commas plus one. */
  function ParseReturns(text: string): (rets: seq<real>)
    ensures |rets| <= Text.CountChar(text, ',') + 1
  {
    Text.SplitCount(text, ',');
    KeepNumbers(Text.Split(text, ','), ReadToken)
  }

  // ---------------------------------------------------------------------------
  // The table
  // ---------------------------------------------------------------------------

  /** One row per return, in the order of the returns. */
  function Tabulate(c: Config, rets: seq<real>): (rows: seq<Row>)
    ensures |rows| == |rets|
    ensures forall i :: 0 <= i < |rets| ==> rows[i] == RowFor(c, rets[i])
    decreases |rets|
  {
    if |rets| == 0 then []
    else Tabulate(c, rets[..|rets| - 1]) + [RowFor(c, rets[|rets| - 1])]
  }

  /** The returns that were floored, in the order they occur. */
  function FlooredReturns(c: Config, rets: seq<real>): (fl: seq<real>)
    ensures |fl| <= |rets|
    ensures forall x :: x in fl <==> x in rets && Floored(c, x)
    decreases |rets|
  {
    if |rets| == 0 then []
    else
      var front := FlooredReturns(c, rets[..|rets| - 1]);
      var last := rets[|rets| - 1];
      if Floored(c, last) then front + [last] else front
  }

  /** A floored return reads as itself; any other return is dropped. */
  function FlooredValue(c: Config): real -> Option<real> {
    x => if Floored(c, x) then Some(x) else None
  }

  /** The floored returns are the returns kept by the same filter that reads
      the returns text, so they appear in scenario order, once per floored
      return, and no floored return is missed. */
  lemma {:induction false} FlooredReturnsKept(c: Config, rets: seq<real>)
    ensures FlooredReturns(c, rets) == KeepNumbers(rets, FlooredValue(c))
    decreases |rets|
  {
    if |rets| > 0 {
      FlooredReturnsKept(c, rets[..|rets| - 1]);
    }
  }

  /** The warning pushed for a floored return; `show` renders a number as a
      template literal does. */
  function WarningText(ret: real, show: real -> string): (w: string)
    ensures |w| == |show(ret)| + 44
    ensures w[..12] == "Payment for "
    ensures w[12..12 + |show(ret)|] == show(ret)
  {
    "Payment for " + show(ret) + "% can not be negative - set to 0"
  }

  /** The warnings for the floored returns, one each, in order. */
  function WarningTexts(fl: seq<real>, show: real -> string): seq<string> {
    seq(|fl|, k requires 0 <= k < |fl| => WarningText(fl[k], show))
  }

  /** `generateMaturityTable`: read the returns, then settle each in turn,
      collecting a row per return and a warning per floored payment. */
  method GenerateMaturityTable(c: Config, returnsText: string, show: real -> string)
    returns (results: seq<Row>, warnings: seq<string>)
    ensures results == Tabulate(c, ParseReturns(returnsText))
    ensures warnings == WarningTexts(FlooredReturns(c, ParseReturns(returnsText)), show)
    ensures |warnings| <= |results|
    ensures warnings == [] <==> forall i :: 0 <= i < |results| ==> !Floored(c, results[i].ret)
  {
    results, warnings := SettleAll(c, ParseReturns(returnsText), show);
  }

  /** The loop of `generateMaturityTable` over the returns already read. */
  method SettleAll(c: Config, rets: seq<real>, show: real -> string)
    returns (results: seq<Row>, warnings: seq<string>)
    ensures results == Tabulate(c, rets)
    ensures warnings == WarningTexts(FlooredReturns(c, rets), show)
    ensures |warnings| <= |results|
    ensures warnings == [] <==> forall i :: 0 <= i < |results| ==> !Floored(c, results[i].ret)
  {
    results := [];
    warnings := [];
    var k := 0;
    while k < |rets|
      invariant 0 <= k <= |rets|
      invariant results == Tabulate(c, rets[..k])
      invariant warnings == WarningTexts(FlooredReturns(c, rets[..k]), show)
    {
      var ret := rets[k];
      var payment, methodUsed, prediction, floored := SettleOne(c, ret);
      if floored {
        warnings := warnings + [WarningText(ret, show)];
      }
      results := results + [Row(ret, Rounding.Round4(payment), methodUsed, prediction)];
      TableStep(c, rets, k, show);
      k := k + 1;
    }
    assert rets[..k] == rets;
    NoWarnings(c, rets);
  }

  /** The body of the loop for one return: the settlement, and whether the
      payment was negative and set to zero. */
  method SettleOne(c: Config, ret: real)
    returns (payment: real, methodUsed: Method, prediction: Prediction, floored: bool)
    ensures methodUsed == Interest <==> ret >= c.threshold
    ensures prediction == Protected <==> ret >= c.threshold
    ensures ret >= c.threshold ==> payment == c.principal * (1.0 + c.annualRate / 1200.0)
    ensures c.principal > 0.0 ==> (floored <==> ret < c.threshold && ret + c.buffer < -100.0)
    ensures c.principal == 0.0 ==> !floored
    ensures c.principal < 0.0 ==> (floored <==> ret < c.threshold && ret + c.buffer > -100.0)
    ensures (ret < c.threshold && !floored) ==> payment == c.principal * (100.0 + ret + c.buffer) / 100.0
    ensures floored ==> payment == 0.0
    ensures Settlement(payment, methodUsed, prediction) == Settle(c, ret)
    ensures floored == Floored(c, ret)
  {
    ClosedForms(c, ret);
    FlooredIff(c, ret);
    floored := false;
    if ret >= c.threshold {
      payment := InterestPayment(c);
      methodUsed := Interest;
      prediction := Protected;
    } else {
      payment := BufferPayment(c, ret);
      methodUsed := Buffer;
      prediction := AtRisk;
      if payment < 0.0 {
        floored := true;
        payment := 0.0;
      }
    }
  }

  /** One more return adds its row to the table, and its warning exactly
      when it is floored. */
  lemma TableStep(c: Config, rets: seq<real>, k: nat, show: real -> string)
    requires k < |rets|
    ensures Tabulate(c, rets[..k + 1]) == Tabulate(c, rets[..k]) + [RowFor(c, rets[k])]
    ensures WarningTexts(FlooredReturns(c, rets[..k + 1]), show)
            == WarningTexts(FlooredReturns(c, rets[..k]), show)
               + (if Floored(c, rets[k]) then [WarningText(rets[k], show)] else [])
  {
    assert rets[..k + 1][..k] == rets[..k];
    WarningTextsAppend(FlooredReturns(c, rets[..k]), rets[k], show);
  }

  /** No warning is issued exactly when no row of the table is floored. */
  lemma NoWarnings(c: Config, rets: seq<real>)
    ensures FlooredReturns(c, rets) == [] <==>
            forall i :: 0 <= i < |rets| ==> !Floored(c, Tabulate(c, rets)[i].ret)
  {
    var fl := FlooredReturns(c, rets);
    if fl != [] {
      assert fl[0] in fl;
      var i :| 0 <= i < |rets| && rets[i] == fl[0];
      assert Tabulate(c, rets)[i].ret == fl[0];
    }
  }

  lemma WarningTextsAppend(fl: seq<real>, x: real, show: real -> string)
    ensures WarningTexts(fl + [x], show) == WarningTexts(fl, show) + [WarningText(x, show)]
  {
  }

  // ---------------------------------------------------------------------------
  // Summary counts
  // ---------------------------------------------------------------------------

  /** The number of rows whose prediction label contains "Protected". It is
      zero exactly when no row is protected. */
  function ProtectedCount(rows: seq<Row>): (n: nat)
    ensures n <= |rows|
    ensures n == 0 <==> forall i :: 0 <= i < |rows| ==> rows[i].prediction != Protected
    decreases |rows|
  {
    if |rows| == 0 then 0
    else
      var last := rows[|rows| - 1];
      LabelsDistinct(last.prediction);
      NoneSplit(rows, rows[..|rows| - 1], Protected);
      ProtectedCount(rows[..|rows| - 1]) + (if Text.Contains(PredictionText(last.prediction), "Protected") then 1 else 0)
  }

  /** The number of rows whose prediction label contains "At Risk". It is
      zero exactly when no row is at risk. */
  function AtRiskCount(rows: seq<Row>): (n: nat)
    ensures n <= |rows|
    ensures n == 0 <==> forall i :: 0 <= i < |rows| ==> rows[i].prediction != AtRisk
    decreases |rows|
  {
    if |rows| == 0 then 0
    else
      var last := rows[|rows| - 1];
      LabelsDistinct(last.prediction);
      NoneSplit(rows, rows[..|rows| - 1], AtRisk);
      AtRiskCount(rows[..|rows| - 1]) + (if Text.Contains(PredictionText(last.prediction), "At Risk") then 1 else 0)
  }

  /** No row has prediction `p` exactly when no row before the last has it
      and the last row does not. */
  lemma NoneSplit(rows: seq<Row>, pre: seq<Row>, p: Prediction)
    requires |rows| > 0 && pre == rows[..|rows| - 1]
    ensures (forall i :: 0 <= i < |rows| ==> rows[i].prediction != p)
            <==> (forall i :: 0 <= i < |pre| ==> pre[i].prediction != p)
                 && rows[|rows| - 1].prediction != p
  {
    assert forall i :: 0 <= i < |pre| ==> pre[i] == rows[i];
  }

  /** Number of returns at or above the threshold. */
  function CountAtOrAbove(rets: seq<real>, threshold: real): nat
    decreases |rets|
  {
    if |rets| == 0 then 0
    else CountAtOrAbove(rets[..|rets| - 1], threshold) + (if rets[|rets| - 1] >= threshold then 1 else 0)
  }

  // ---------------------------------------------------------------------------
  // Properties of the table
  // ---------------------------------------------------------------------------

  /** Below the threshold, with a non-negative principal, a larger return never
      pays less, before and after rounding. */
  lemma SettleMonotone(c: Config, r1: real, r2: real)
    requires c.principal >= 0.0
    requires r1 <= r2 < c.threshold
    ensures Settle(c, r1).payment <= Settle(c, r2).payment
    ensures RowFor(c, r1).payment <= RowFor(c, r2).payment
  {
    ClosedForms(c, r1);
    ClosedForms(c, r2);
    var y1 := 100.0 + r1 + c.buffer;
    var y2 := 100.0 + r2 + c.buffer;
    var x1, x2 := c.principal * y1, c.principal * y2;
    assert x1 <= x2 by {
      assert x2 - x1 == c.principal * (y2 - y1);
      ProductNonNegative(c.principal, y2 - y1);
    }
    assert BufferPayment(c, r1) == x1 / 100.0;
    assert BufferPayment(c, r2) == x2 / 100.0;
    assert BufferPayment(c, r1) <= BufferPayment(c, r2);
    Rounding.Round4Monotone(Settle(c, r1).payment, Settle(c, r2).payment);
  }

  /** A product of two non-negative factors is non-negative. */
  lemma ProductNonNegative(a: real, b: real)
    requires a >= 0.0 && b >= 0.0
    ensures a * b >= 0.0
  {
  }

  /** With a non-negative principal and an annual rate of at least -1200 percent
      (so a month of interest never exceeds a total loss) no row pays a
      negative amount. */
  lemma PaymentsNonNegative(c: Config, rets: seq<real>)
    requires c.principal >= 0.0 && c.annualRate >= -1200.0
    ensures forall i :: 0 <= i < |rets| ==> Tabulate(c, rets)[i].payment >= 0.0
  {
    var y := 1.0 + c.annualRate / 1200.0;
    assert y >= 0.0;
    ProductNonNegative(c.principal, y);
  }

  /** The exact condition for a negative payment: only a protected return can
      pay a negative amount, and it does exactly when the principal and one
      plus a month of interest have opposite signs. A stored payment is
      negative only under the same condition. */
  lemma NegativePaymentIff(c: Config, ret: real)
    ensures Settle(c, ret).payment < 0.0
            <==> ret >= c.threshold && OppositeSigns(c.principal, 1.0 + c.annualRate / 1200.0)
    ensures RowFor(c, ret).payment < 0.0
            ==> ret >= c.threshold && OppositeSigns(c.principal, 1.0 + c.annualRate / 1200.0)
  {
    var s := Settle(c, ret);
    var y := 1.0 + c.annualRate / 1200.0;
    if ret >= c.threshold {
      assert s.payment == c.principal * y;
      ProductNegativeIff(c.principal, y);
    } else {
      assert s.payment >= 0.0;
    }
    assert RowFor(c, ret).payment == Rounding.Round4(s.payment);
  }

  /** One of `a` and `b` is positive and the other negative. */
  predicate OppositeSigns(a: real, b: real) {
    (a > 0.0 && b < 0.0) || (a < 0.0 && b > 0.0)
  }

  /** A product is negative exactly when its factors have opposite signs. */
  lemma ProductNegativeIff(a: real, b: real)
    ensures a * b < 0.0 <==> OppositeSigns(a, b)
  {
    if a > 0.0 && b < 0.0 {
      assert a * b < 0.0;
    } else if a < 0.0 && b > 0.0 {
      assert a * b < 0.0;
    } else if a >= 0.0 && b >= 0.0 {
      assert a * b >= 0.0;
    } else {
      assert a * b == (-a) * (-b);
      assert a * b >= 0.0;
    }
  }

  /** The labels the summary searches for pick out exactly their own kind. */
  lemma LabelsDistinct(p: Prediction)
    ensures Text.Contains(PredictionText(p), "Protected") <==> p == Protected
    ensures Text.Contains(PredictionText(p), "At Risk") <==> p == AtRisk
  {
    match p
    case Protected =>
      assert "Protected"[..9] == "Protected";
      Text.ContainsFirstChar("Protected", "At Risk");
    case AtRisk =>
      assert "At Risk "[..7] == "At Risk";
      Text.ContainsLonger("At Risk ", "Protected");
  }

  /** A row's method is Interest exactly when its prediction contains
      "Protected". */
  lemma MethodMatchesLabel(c: Config, ret: real)
    ensures RowFor(c, ret).methodUsed == Interest
            <==> Text.Contains(PredictionText(RowFor(c, ret).prediction), "Protected")
  {
    LabelsDistinct(RowFor(c, ret).prediction);
  }

  /** The protected payment does not depend on the return: all protected
      rows of a table pay the same. */
  lemma ProtectedRowsAgree(c: Config, rets: seq<real>, i: int, j: int)
    requires 0 <= i < |rets| && 0 <= j < |rets|
    requires Tabulate(c, rets)[i].prediction == Protected && Tabulate(c, rets)[j].prediction == Protected
    ensures Tabulate(c, rets)[i].payment == Tabulate(c, rets)[j].payment
  {
  }

  /** Every row is counted exactly once: as protected or as at risk. */
  lemma {:induction false} CountsPartition(rows: seq<Row>)
    ensures ProtectedCount(rows) + AtRiskCount(rows) == |rows|
    decreases |rows|
  {
    if |rows| > 0 {
      CountsPartition(rows[..|rows| - 1]);
      LabelsDistinct(rows[|rows| - 1].prediction);
    }
  }

  /** The protected count of a table is the number of returns at or above the
      threshold, and the at-risk count is the rest. */
  lemma {:induction false} CountsOfTable(c: Config, rets: seq<real>)
    ensures ProtectedCount(Tabulate(c, rets)) == CountAtOrAbove(rets, c.threshold)
    ensures AtRiskCount(Tabulate(c, rets)) == |rets| - CountAtOrAbove(rets, c.threshold)
    decreases |rets|
  {
    var rows := Tabulate(c, rets);
    if |rets| > 0 {
      var n := |rets| - 1;
      CountsOfTable(c, rets[..n]);
      assert rows[..n] == Tabulate(c, rets[..n]);
      LabelsDistinct(rows[n].prediction);
    }
    CountsPartition(rows);
  }

  /** A negative principal, which the form accepts, gives a protected row a
      negative payment: the floor at zero guards the buffer route only. */
  lemma NegativePrincipalPaysNegative()
    ensures var c := Defaults.(principal := -1000.0);
            && Settle(c, 0.0).methodUsed == Interest
            && Settle(c, 0.0).payment == -6061.0 / 6.0
            && RowFor(c, 0.0).payment < 0.0
  {
    var c := Defaults.(principal := -1000.0);
    assert InterestPayment(c) == -6061.0 / 6.0;
  }

  /** The page as its authors describe it, where a negative principal cannot
      be entered: generating with one is refused, and otherwise the table is
      the one the page builds. With the principal guarded, no row pays a
      negative amount unless the annual rate itself is below -1200 percent. */
  function CheckedTable(c: Config, rets: seq<real>): (r: Option<seq<Row>>)
    ensures r.None? <==> c.principal < 0.0
    ensures r.Some? ==> r.value == Tabulate(c, rets)
    ensures r.Some? && c.annualRate >= -1200.0 ==>
              forall i :: 0 <= i < |rets| ==> r.value[i].payment >= 0.0
  {
    if c.principal < 0.0 then None
    else
      var rows := Tabulate(c, rets);
      assert c.annualRate >= -1200.0 ==> forall i :: 0 <= i < |rets| ==> rows[i].payment >= 0.0 by {
        if c.annualRate >= -1200.0 {
          PaymentsNonNegative(c, rets);
        }
      }
      Some(rows)
  }

  // ---------------------------------------------------------------------------
  // Properties of reading the returns text
  // ---------------------------------------------------------------------------

  /** Tokens that do not contain a comma are read back one by one from their
      comma-joined text. */
  lemma ParseReturnsJoin(tokens: seq<string>)
    requires |tokens| >= 1
    requires forall k :: 0 <= k < |tokens| ==> ',' !in tokens[k]
    ensures ParseReturns(Text.Join(tokens, ',')) == KeepNumbers(tokens, ReadToken)
  {
    Text.SplitJoin(tokens, ',');
  }

  /** When every token reads as a number, all of them are kept, in order. */
  lemma {:induction false} KeepNumbersAllRead(tokens: seq<string>, vals: seq<real>, read: string -> Option<real>)
    requires |vals| == |tokens|
    requires forall k :: 0 <= k < |tokens| ==> read(tokens[k]) == Some(vals[k])
    ensures KeepNumbers(tokens, read) == vals
    decreases |tokens|
  {
    if |tokens| > 0 {
      var n := |tokens| - 1;
      KeepNumbersAllRead(tokens[..n], vals[..n], read);
      assert vals[..n] + [vals[n]] == vals;
    }
  }

  /** The decimal text of an integer is one token read as that integer. */
  lemma ReadShownInt(i: int)
    ensures ',' !in NumberParsing.ShowInt(i)
    ensures ReadToken(NumberParsing.ShowInt(i)) == Some(i as real)
  {
    var s := NumberParsing.ShowInt(i);
    NumberParsing.ShowIntShape(i);
    assert s[0] != ',';
    assert forall k :: 1 <= k < |s| ==> s[k] != ',';
    assert !Text.IsWhitespace(s[0]) && !Text.IsWhitespace(s[|s| - 1]);
    Text.TrimUnpadded(s);
    NumberParsing.ParseShowInt(i);
    assert ReadToken(s) == NumberParsing.ParseFloat(s);
  }

  /** Writing whole-number returns out as comma-separated text and reading
      the text back gives the returns. */
  lemma ParseReturnsShown(ns: seq<int>)
    requires |ns| >= 1
    ensures ParseReturns(Text.Join(seq(|ns|, k requires 0 <= k < |ns| => NumberParsing.ShowInt(ns[k])), ','))
            == seq(|ns|, k requires 0 <= k < |ns| => ns[k] as real)
  {
    var tokens := seq(|ns|, k requires 0 <= k < |ns| => NumberParsing.ShowInt(ns[k]));
    var vals := seq(|ns|, k requires 0 <= k < |ns| => ns[k] as real);
    forall k | 0 <= k < |ns|
      ensures ',' !in tokens[k] && ReadToken(tokens[k]) == Some(vals[k])
    {
      ReadShownInt(ns[k]);
    }
    ParseReturnsJoin(tokens);
    KeepNumbersAllRead(tokens, vals, ReadToken);
  }

  /** An integer's decimal text after blanks is one token read as that
      integer. */
  lemma ReadPaddedInt(pre: string, i: int)
    requires Text.AllWhitespace(pre)
    ensures ReadToken(pre + NumberParsing.ShowInt(i)) == Some(i as real)
  {
    var s := NumberParsing.ShowInt(i);
    NumberParsing.ShowIntShape(i);
    assert !Text.IsWhitespace(s[0]) && !Text.IsWhitespace(s[|s| - 1]);
    NumberParsing.ParseShowInt(i);
    Text.TrimPadded(pre, s, []);
    assert pre + s + [] == pre + s;
  }

  /** The decimal texts of 60 and 20. */
  lemma SixtyTwenty()
    ensures NumberParsing.ShowInt(60) == "60" && NumberParsing.ShowInt(20) == "20"
  {
  }

  /** A word after a blank is a token that does not read as a number. */
  lemma ReadWord()
    ensures ReadToken(" abc").None?
  {
    Text.TrimPadded(" ", "abc", []);
    assert " " + "abc" + [] == " abc";
    NumberParsing.ParseFloatFailsIff("abc");
  }

  /** Three comma-free tokens joined with commas read as what each token
      reads as on its own. */
  lemma ParseThree(a: string, b: string, c: string)
    requires ',' !in a && ',' !in b && ',' !in c
    ensures ParseReturns(Text.Join([a, b, c], ','))
            == KeepNumbers([a], ReadToken) + KeepNumbers([b], ReadToken) + KeepNumbers([c], ReadToken)
  {
    ParseReturnsJoin([a, b, c]);
    KeepNumbersAppend([a], [b], ReadToken);
    KeepNumbersAppend([a, b], [c], ReadToken);
    assert [a] + [b] == [a, b];
    assert [a, b] + [c] == [a, b, c];
  }

  /** One token is kept exactly when it reads as a number. */
  lemma KeepOne<T>(t: T, read: T -> Option<real>)
    ensures KeepNumbers([t], read) == (if read(t).Some? then [read(t).value] else [])
  {
    assert [t][..0] == [];
  }

  /** A word among numbers is dropped, and the numbers keep their order. */
  lemma MixedReturnsRead()
    ensures ParseReturns("60, abc, 20") == [60.0, 20.0]
  {
    MixedJoin();
    MixedTokens();
    DropMiddle("60", " abc", " 20", 60.0, 20.0);
  }

  /** How each token of "60, abc, 20" reads on its own. */
  lemma MixedTokens()
    ensures ReadToken("60") == Some(60.0)
    ensures ReadToken(" abc").None?
    ensures ReadToken(" 20") == Some(20.0)
  {
    ReadSixty();
    ReadWord();
    ReadTwenty();
  }

  /** "60" reads as 60. */
  lemma ReadSixty()
    ensures ReadToken("60") == Some(60.0)
  {
    SixtyTwenty();
    ReadPaddedInt("", 60);
    assert "" + NumberParsing.ShowInt(60) == "60";
  }

  /** " 20" reads as 20. */
  lemma ReadTwenty()
    ensures ReadToken(" 20") == Some(20.0)
  {
    SixtyTwenty();
    ReadPaddedInt(" ", 20);
    assert " " + NumberParsing.ShowInt(20) == " 20";
  }

  /** Of three comma-separated tokens, a middle one that does not read as a
      number is dropped. */
  lemma DropMiddle(a: string, b: string, c: string, x: real, y: real)
    requires ',' !in a && ',' !in b && ',' !in c
    requires ReadToken(a) == Some(x) && ReadToken(b).None? && ReadToken(c) == Some(y)
    ensures ParseReturns(Text.Join([a, b, c], ',')) == [x, y]
  {
    ParseThree(a, b, c);
    KeepOne(a, ReadToken);
    KeepOne(b, ReadToken);
    KeepOne(c, ReadToken);
    assert KeepNumbers([a], ReadToken) == [x];
    assert KeepNumbers([b], ReadToken) == [];
    assert KeepNumbers([c], ReadToken) == [y];
    assert [x] + [] + [y] == [x, y];
  }

  /** "60, abc, 20" is its three comma-free tokens joined with commas. */
  lemma MixedJoin()
    ensures ',' !in "60" && ',' !in " abc" && ',' !in " 20"
    ensures Text.Join(["60", " abc", " 20"], ',') == "60, abc, 20"
  {
  }
}
