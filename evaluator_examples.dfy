/**
  The calls of the tools sample (sample.tools.cc), obtained from the
  general theorem about printed expressions, and a few malformed texts.
*/
module EvaluatorExamples {
  import opened Wrappers
  import opened Decimal
  import opened Evaluator
  import opened EvaluatorProofs

  /** A one-digit literal prints as its digit at every level. */
  lemma {:induction false} DigitPrinted(n: nat, c: char)
    requires n < 10 && c == DigitChar(n)
    ensures PrintAtom(Num(n)) == [c] && PrintProd(Num(n)) == [c] && PrintSum(Num(n)) == [c]
  {
  }

  /** `1+3`, shared by two of the samples. */
  function OnePlusThree(): Expr {
    Add(Num(1), Num(3))
  }

  lemma {:induction false} OnePlusThreePrinted(p: string)
    requires p == "(1+3)"
    ensures PrintAtom(OnePlusThree()) == p
  {
    DigitPrinted(1, '1');
    DigitPrinted(3, '3');
  }

  /** `5*(4+4+1)` */
  function NestedSumExpr(): Expr {
    Mul(Num(5), Add(Add(Num(4), Num(4)), Num(1)))
  }

  lemma {:induction false} NestedSumPrinted(s: string)
    requires s == "5*(4+4+1)"
    ensures PrintSum(NestedSumExpr()) == s
  {
    DigitPrinted(1, '1');
    DigitPrinted(4, '4');
    DigitPrinted(5, '5');
    var inner := Add(Add(Num(4), Num(4)), Num(1));
    assert PrintSum(inner) == "4+4+1";
    assert PrintAtom(inner) == "(4+4+1)";
  }

  /** `eval("5*(4+4+1)")` is 45. */
  lemma {:induction false} NestedSum(s: string)
    requires s == "5*(4+4+1)"
    ensures Evaluated(s) == Finite(45.0)
  {
    NestedSumPrinted(s);
    assert Value(NestedSumExpr()) == Some(45.0);
    EvaluatesPrinted(NestedSumExpr());
  }

  /** `-5*(2*(1+3)+1)` */
  function NegatedProductExpr(): Expr {
    Mul(Neg(Num(5)), Add(Mul(Num(2), OnePlusThree()), Num(1)))
  }

  lemma {:induction false} NegatedProductPrinted(s: string, p: string)
    requires s == "-5*(2*(1+3)+1)" && p == "(1+3)"
    ensures PrintSum(NegatedProductExpr()) == s
  {
    DigitPrinted(1, '1');
    DigitPrinted(2, '2');
    DigitPrinted(5, '5');
    OnePlusThreePrinted(p);
    var inner := Add(Mul(Num(2), OnePlusThree()), Num(1));
    assert PrintSum(inner) == "2*" + p + "+1";
    assert PrintProd(Neg(Num(5))) == "-5";
  }

  /** `eval("-5*(2*(1+3)+1)")` is -45. */
  lemma {:induction false} NegatedProduct(s: string)
    requires s == "-5*(2*(1+3)+1)"
    ensures Evaluated(s) == Finite(-45.0)
  {
    NegatedProductPrinted(s, "(1+3)");
    assert Value(OnePlusThree()) == Some(4.0);
    assert Value(NegatedProductExpr()) == Some(-45.0);
    EvaluatesPrinted(NegatedProductExpr());
  }

  /** `5*((1+3)*2+1)` */
  function ParenthesisedProductExpr(): Expr {
    Mul(Num(5), Add(Mul(OnePlusThree(), Num(2)), Num(1)))
  }

  lemma {:induction false} ParenthesisedProductPrinted(s: string, p: string)
    requires s == "5*((1+3)*2+1)" && p == "(1+3)"
    ensures PrintSum(ParenthesisedProductExpr()) == s
  {
    var inner := Add(Mul(OnePlusThree(), Num(2)), Num(1));
    ProductPlusOnePrinted(p, inner);
    DigitPrinted(5, '5');
    assert PrintSum(ParenthesisedProductExpr()) == "5" + "*" + "(" + p + "*2+1" + ")";
  }

  /** `(1+3)*2+1`, the parenthesised part of the sample. */
  lemma {:induction false} ProductPlusOnePrinted(p: string, inner: Expr)
    requires p == "(1+3)" && inner == Add(Mul(OnePlusThree(), Num(2)), Num(1))
    ensures PrintAtom(inner) == "(" + p + "*2+1" + ")"
  {
    DigitPrinted(1, '1');
    DigitPrinted(2, '2');
    OnePlusThreePrinted(p);
    assert PrintSum(inner) == p + "*2+1";
  }

  /** `eval("5*((1+3)*2+1)")` is 45. */
  lemma {:induction false} ParenthesisedProduct(s: string)
    requires s == "5*((1+3)*2+1)"
    ensures Evaluated(s) == Finite(45.0)
  {
    ParenthesisedProductPrinted(s, "(1+3)");
    assert Value(OnePlusThree()) == Some(4.0);
    assert Value(ParenthesisedProductExpr()) == Some(45.0);
    EvaluatesPrinted(ParenthesisedProductExpr());
  }

  /** `eval("1/0")` is NaN: division by zero. */
  lemma {:induction false} OneOverZero(s: string)
    requires s == "1/0"
    ensures Evaluated(s) == NaN
  {
    DigitPrinted(0, '0');
    DigitPrinted(1, '1');
    assert PrintSum(Div(Num(1), Num(0))) == s;
    EvaluatesPrinted(Div(Num(1), Num(0)));
  }

  /** `eval("")` is NaN: no number where an atom must start. */
  lemma {:induction false} EmptyText()
    ensures Evaluated("") == NaN
  {
    assert Strtod("", 0).None?;
  }

  /** "1/0)": `ParseSummands` stops at the `)` with the division by zero recorded at the `/`. */
  lemma {:induction false} DivisionRecorded(s: string)
    requires s == "1/0)"
    ensures Summands(s, State(0, NoError, 0, 0)) == (0.0, State(3, DivideByZero, 1, 0))
  {
    var st0 := State(0, NoError, 0, 0);
    var st1 := State(1, NoError, 0, 0);
    var st2 := State(3, NoError, 0, 0);
    assert Numeral(1) == "1" && Numeral(0) == "0";
    StrtodNumeral(s, 0, 1);
    StrtodNumeral(s, 2, 0);
    AtomSigns(s, st0, 0, false, 0);
    AtomNumber(s, st0, false);
    AtomSigns(s, st1.(pos := 2), 2, false, 2);
    AtomNumber(s, st1.(pos := 2), false);
    FactorsStart(s, st0, 1.0, st1);
    FactorsLoopDivide(s, 1.0, st1, 1, 0.0, st2);
    SummandsStart(s, st0, 0.0, State(3, DivideByZero, 1, 0));
    SummandsLoopStops(s, 0.0, State(3, DivideByZero, 1, 0));
  }

  /**
    A later error overwrites an earlier one: in "1/0)" the division by
    zero is recorded first, then the stray `)` replaces it with a
    parenthesis error at position 3.
  */
  lemma {:induction false} LaterErrorWins(s: string)
    requires s == "1/0)"
    ensures Summands(s, State(0, NoError, 0, 0)).1.err == DivideByZero
    ensures Evaluation(s, 0).1 == State(3, Parenthesis, 3, 0) && Evaluated(s) == NaN
  {
    DivisionRecorded(s);
    assert Peek(s, 3) == ')';
  }
}
