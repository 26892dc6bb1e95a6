/** The stand-alone reference script: the same settlement rule with its
    inputs fixed (principal 1000, annual rate 12.20 percent, threshold -10,
    buffer 10) over a fixed list of seventeen returns. Each payment is printed
    with four decimals; a negative buffer payment is reported on the console
    and replaced by zero. */
module CodingSolution {
  import Calculator
  import Rounding

  const Principal: real := 1000.0
  const InterestRateYear: real := 12.20
  const InterestRateMonth: real := InterestRateYear / 12.0
  const Threshold: real := -10.0
  const Buffer: real := 10.0

  /** The returns the script settles, in order. */
  const Returns: seq<real> :=
    [60.00, 40.00, 20.00, 5.00, 0.00, -5.00, -10.00, -10.01, -20.00, -30.00,
     -40.00, -60.00, -80.00, -100.0, -110.0, -110.1, -200.00]

  /** One month of interest on the principal: 1000 * (1 + 12.2 / 1200). */
  const ProtectedPayment: real := 6061.0 / 6.0

  /** The payment the script settles for one return: the protected amount at or
      above the threshold; below it, 10 per point of return above -110, and
      zero (after a warning) below -110. */
  function ScriptPayment(ret: real): (payment: real)
    ensures payment >= 0.0
    ensures ret >= Threshold ==> payment == ProtectedPayment
    ensures -110.0 <= ret < Threshold ==> payment == 10.0 * (ret + 110.0)
    ensures ret < -110.0 ==> payment == 0.0
  {
    if ret >= Threshold then
      Principal + (Principal * InterestRateMonth / 100.0)
    else
      var haveToPayPercent := ret + Buffer;
      var haveToPay := (Principal * haveToPayPercent) / 100.0;
      var payment := Principal + haveToPay;
      if payment < 0.0 then 0.0 else payment
  }

  /** The script warns for a return exactly when the return lies below -110:
      down to -110 the buffer payment is still non-negative. */
  function ScriptWarns(ret: real): (warns: bool)
    ensures warns <==> ret < -110.0
  {
    ret < Threshold && Principal + (Principal * (ret + Buffer)) / 100.0 < 0.0
  }

  /** The script's fixed inputs are the calculator page's default settings. */
  lemma ScriptUsesDefaults()
    ensures Calculator.Config(Principal, InterestRateYear, Threshold, Buffer) == Calculator.Defaults
  {
  }

  /** For every return, the script settles the same payment as the calculator
      page does with its default settings, and warns exactly when the page
      floors the payment. */
  lemma ScriptAgreesWithCalculator(ret: real)
    ensures ScriptPayment(ret) == Calculator.Settle(Calculator.Defaults, ret).payment
    ensures ScriptWarns(ret) <==> Calculator.Floored(Calculator.Defaults, ret)
  {
    Calculator.FlooredIff(Calculator.Defaults, ret);
  }

  /** The script's printed amounts and warnings, in order: each return with
      its payment as printed to four decimals, and the number of warnings. */
  method RunScript() returns (lines: seq<(real, real)>, warnings: nat)
    ensures |lines| == |Returns|
    ensures forall i :: 0 <= i < |Returns| ==>
              lines[i] == (Returns[i], Calculator.Tabulate(Calculator.Defaults, Returns)[i].payment)
    ensures warnings == |Calculator.FlooredReturns(Calculator.Defaults, Returns)|
  {
    lines, warnings := ScriptLoop(Returns);
  }

  /** The script's loop over any list of returns. */
  method ScriptLoop(rets: seq<real>) returns (lines: seq<(real, real)>, warnings: nat)
    ensures |lines| == |rets|
    ensures forall i :: 0 <= i < |rets| ==>
              lines[i] == (rets[i], Calculator.Tabulate(Calculator.Defaults, rets)[i].payment)
    ensures warnings == |Calculator.FlooredReturns(Calculator.Defaults, rets)|
  {
    lines := [];
    warnings := 0;
    var k := 0;
    while k < |rets|
      invariant 0 <= k <= |rets|
      invariant |lines| == k
      invariant forall i :: 0 <= i < k ==> lines[i] == (rets[i], Rounding.Round4(ScriptPayment(rets[i])))
      invariant warnings == WarningCount(rets[..k])
    {
      var ret := rets[k];
      var payment, warned := ScriptPass(ret);
      if warned {
        warnings := warnings + 1;
      }
      assert rets[..k + 1][..k] == rets[..k];
      lines := lines + [(ret, Rounding.Round4(payment))];
      k := k + 1;
    }
    assert rets[..k] == rets;
    ScriptMatchesTable(rets);
  }

  /** The body of the script's loop for one return: the payment it settles,
      and whether it printed a warning before flooring the payment. */
  method ScriptPass(ret: real) returns (payment: real, warned: bool)
    ensures payment == ScriptPayment(ret)
    ensures warned == ScriptWarns(ret)
    ensures warned <==> ret < -110.0
  {
    warned := false;
    if ret >= Threshold {
      payment := Principal + (Principal * InterestRateMonth / 100.0);
    } else {
      var haveToPayPercent := ret + Buffer;
      var haveToPay := (Principal * haveToPayPercent) / 100.0;
      payment := Principal + haveToPay;
      if payment < 0.0 {
        warned := true;
        payment := 0.0;
      }
    }
  }

  /** How many warnings the script prints for a list of returns. */
  function WarningCount(rets: seq<real>): nat
    decreases |rets|
  {
    if |rets| == 0 then 0
    else WarningCount(rets[..|rets| - 1]) + (if ScriptWarns(rets[|rets| - 1]) then 1 else 0)
  }

  /** The script's printed amounts are the page's table with its default
      settings, and it warns once per return the page floors. */
  lemma {:induction false} ScriptMatchesTable(rets: seq<real>)
    ensures forall i :: 0 <= i < |rets| ==>
              Calculator.Tabulate(Calculator.Defaults, rets)[i].payment == Rounding.Round4(ScriptPayment(rets[i]))
    ensures WarningCount(rets) == |Calculator.FlooredReturns(Calculator.Defaults, rets)|
    decreases |rets|
  {
    forall i | 0 <= i < |rets|
      ensures Calculator.Tabulate(Calculator.Defaults, rets)[i].payment == Rounding.Round4(ScriptPayment(rets[i]))
    {
      ScriptAgreesWithCalculator(rets[i]);
    }
    if |rets| > 0 {
      ScriptMatchesTable(rets[..|rets| - 1]);
      ScriptAgreesWithCalculator(rets[|rets| - 1]);
    }
  }

  /** The amounts the script prints, return by return. */
  const Printed: seq<real> :=
    [1010.1667, 1010.1667, 1010.1667, 1010.1667, 1010.1667, 1010.1667, 1010.1667,
     999.9, 900.0, 800.0, 700.0, 500.0, 300.0, 100.0, 0.0, 0.0, 0.0]

  /** The protected amount 1010.1666… is printed as 1010.1667. */
  lemma ProtectedPrinted()
    ensures Rounding.Round4(ProtectedPayment) == 1010.1667
  {
    var x := ProtectedPayment * 10000.0 + 0.5;
    assert 10101667.0 <= x < 10101668.0;
    assert x.Floor == 10101667;
  }

  /** The return -10.01, just below the threshold, pays 999.9: the buffer
      route applies and costs a hundredth of a percent of the principal. */
  lemma JustBelowThreshold()
    ensures ScriptPayment(-10.01) == 999.9
    ensures Rounding.Round4(ScriptPayment(-10.01)) == 999.9
  {
    Rounding.Round4Exact(999.9);
  }

  /** A whole number of units below the threshold is printed exactly. */
  lemma WholePrinted(ret: real, n: int)
    requires -110.0 <= ret < Threshold && ret == n as real
    ensures Rounding.Round4(ScriptPayment(ret)) == 10.0 * (ret + 110.0)
  {
    var p := 10.0 * (ret + 110.0);
    assert p * 10000.0 == (100000 * (n + 110)) as real;
    Rounding.Round4Exact(p);
  }

  /** At -110 the payment is exactly zero and no warning is printed; at -110.1
      and -200 the raw payment is negative, so both are floored with a warning. */
  lemma FloorBoundary()
    ensures ScriptPayment(-110.0) == 0.0 && !ScriptWarns(-110.0)
    ensures ScriptWarns(-110.1) && ScriptWarns(-200.0)
    ensures Principal + (Principal * (-110.1 + Buffer)) / 100.0 == -1.0
    ensures Principal + (Principal * (-200.0 + Buffer)) / 100.0 == -900.0
  {
  }

  /** The whole printed table. */
  lemma PrintedTable()
    ensures forall i :: 0 <= i < |Returns| ==> Rounding.Round4(ScriptPayment(Returns[i])) == Printed[i]
  {
    ProtectedPrinted();
    JustBelowThreshold();
    WholePrinted(-20.0, -20);
    WholePrinted(-30.0, -30);
    WholePrinted(-40.0, -40);
    WholePrinted(-60.0, -60);
    WholePrinted(-80.0, -80);
    WholePrinted(-100.0, -100);
    WholePrinted(-110.0, -110);
    assert Rounding.Round4(0.0) == 0.0;
    forall i | 0 <= i < |Returns|
      ensures Rounding.Round4(ScriptPayment(Returns[i])) == Printed[i]
    {
      if i < 7 {
        assert Returns[i] >= Threshold;
      }
    }
  }
}
