/**
  What the evaluator computes on well-formed input. Arithmetic expressions
  over natural-number literals are printed with the fewest parentheses
  the grammar of `ExprEval` needs; evaluating the printed text gives the
  expression's value, or NaN when the expression divides by zero.
*/
module EvaluatorProofs {
  import opened Wrappers
  import opened Decimal
  import opened Evaluator

  /** Arithmetic expressions over natural-number literals. */
  datatype Expr =
    | Num(n: nat)
    | Neg(a: Expr)
    | Add(a: Expr, b: Expr)
    | Sub(a: Expr, b: Expr)
    | Mul(a: Expr, b: Expr)
    | Div(a: Expr, b: Expr)

  /** The value of an expression; `None` when some divisor is zero. */
  function Value(e: Expr): Option<real> {
    match e
    case Num(n) => Some(n as real)
    case Neg(a) => if Value(a).Some? then Some(-Value(a).value) else None
    case Add(a, b) => if Value(a).Some? && Value(b).Some? then Some(Value(a).value + Value(b).value) else None
    case Sub(a, b) => if Value(a).Some? && Value(b).Some? then Some(Value(a).value - Value(b).value) else None
    case Mul(a, b) => if Value(a).Some? && Value(b).Some? then Some(Times(Value(a).value, Value(b).value)) else None
    case Div(a, b) =>
      if Value(a).Some? && Value(b).Some? && Value(b).value != 0.0 then Some(Quotient(Value(a).value, Value(b).value))
      else None
  }

  // ---------------------------------------------------------------------
  // Printing
  // ---------------------------------------------------------------------

  /** The grammar levels: summands, factors, atoms and what follows an atom's sign. */
  datatype Level = SumLevel | ProdLevel | AtomLevel | PrimaryLevel

  /**
    A printer or parse at one level may hand the same expression to the
    next level; this rank decreases along each such chain until a
    sub-expression is reached.
  */
  function Rank(e: Expr, level: Level): nat {
    var k := match level case SumLevel => 0 case ProdLevel => 1 case AtomLevel => 2 case PrimaryLevel => 3;
    match e
    case Num(_) => 3 - k
    case Neg(_) => if level == PrimaryLevel then 3 else 2 - k
    case Add(_, _) => if level == SumLevel then 0 else 4 - k
    case Sub(_, _) => if level == SumLevel then 0 else 4 - k
    case Mul(_, _) => if level == ProdLevel then 0 else if level == SumLevel then 1 else 5 - k
    case Div(_, _) => if level == ProdLevel then 0 else if level == SumLevel then 1 else 5 - k
  }

  /** A literal, or a parenthesised expression: what may follow the signs of an atom. */
  function Primary(e: Expr): (r: string)
    ensures |r| > 0 && (IsDigit(r[0]) || r[0] == '(')
    decreases e, Rank(e, PrimaryLevel), 1
  {
    if e.Num? then Numeral(e.n) else "(" + PrintSum(e) + ")"
  }

  /** An atom: a negation is a '-' before a primary. */
  function PrintAtom(e: Expr): (r: string)
    ensures |r| > 0 && (IsDigit(r[0]) || r[0] == '(' || r[0] == '-')
    decreases e, Rank(e, AtomLevel), 1
  {
    if e.Neg? then "-" + Primary(e.a) else Primary(e)
  }

  /** A product: a left-leaning chain of atoms joined by `*` and `/`. */
  function PrintProd(e: Expr): (r: string)
    ensures |r| > 0 && (IsDigit(r[0]) || r[0] == '(' || r[0] == '-')
    decreases e, Rank(e, ProdLevel), 1
  {
    match e
    case Mul(a, b) => PrintProd(a) + "*" + PrintAtom(b)
    case Div(a, b) => PrintProd(a) + "/" + PrintAtom(b)
    case _ => PrintAtom(e)
  }

  /** A sum: a left-leaning chain of products joined by `+` and `-`. */
  function PrintSum(e: Expr): (r: string)
    ensures |r| > 0 && (IsDigit(r[0]) || r[0] == '(' || r[0] == '-')
    decreases e, Rank(e, SumLevel), 1
  {
    match e
    case Add(a, b) => PrintSum(a) + "+" + PrintProd(b)
    case Sub(a, b) => PrintSum(a) + "-" + PrintProd(b)
    case _ => PrintProd(e)
  }

  // ---------------------------------------------------------------------
  // Text positions
  // ---------------------------------------------------------------------

  /** The text `w` occurs in `s` at position `i`. */
  predicate At(s: string, i: nat, w: string) {
    i + |w| <= |s| && forall k :: 0 <= k < |w| ==> s[i + k] == w[k]
  }

  lemma {:induction false} AtConcat(s: string, i: nat, x: string, y: string)
    requires At(s, i, x + y)
    ensures At(s, i, x) && At(s, i + |x|, y)
  {
    forall k | 0 <= k < |x|
      ensures s[i + k] == x[k]
    {
      assert (x + y)[k] == x[k];
    }
    forall k | 0 <= k < |y|
      ensures s[i + |x| + k] == y[k]
    {
      assert (x + y)[|x| + k] == y[k];
    }
  }

  lemma {:induction false} AtFirst(s: string, i: nat, w: string)
    requires At(s, i, w) && |w| > 0
    ensures Peek(s, i) == w[0]
  {
    assert s[i + 0] == w[0];
  }

  lemma {:induction false} AtSlice(s: string, i: nat, w: string)
    requires At(s, i, w)
    ensures s[i..i + |w|] == w
  {
    forall k | 0 <= k < |w|
      ensures s[i..i + |w|][k] == w[k]
    {
      assert s[i + k] == w[k];
    }
  }

  /** What may follow a number without extending it. */
  predicate EndsNumber(c: char) {
    !IsDigit(c) && c != '.' && c != 'e' && c != 'E'
  }

  /** What may follow a product without extending it. */
  predicate EndsProduct(c: char) {
    EndsNumber(c) && c != ' ' && c != '*' && c != '/'
  }

  /** What may follow a sum without extending it. */
  predicate EndsSum(c: char) {
    EndsProduct(c) && c != '+' && c != '-'
  }

  /** The `ParseFactors` loop stops before a character that is no operator. */
  lemma {:induction false} FactorsLoopStops(s: string, num1: real, st: State)
    requires st.pos <= |s| && EndsProduct(Peek(s, st.pos))
    ensures FactorsLoop(s, num1, st) == (num1, st)
  {
  }

  /** The `ParseSummands` loop stops before a character that is no operator. */
  lemma {:induction false} SummandsLoopStops(s: string, num1: real, st: State)
    requires st.pos <= |s| && EndsSum(Peek(s, st.pos))
    ensures SummandsLoop(s, num1, st) == (num1, st)
  {
  }

  /** The layout of a printed product with an operator: left operand, operator, right atom. */
  lemma {:induction false} ProdLayout(s: string, i: nat, a: Expr, b: Expr, op: char)
    requires At(s, i, PrintProd(a) + [op] + PrintAtom(b))
    ensures At(s, i, PrintProd(a)) && At(s, i + |PrintProd(a)| + 1, PrintAtom(b))
    ensures Peek(s, i + |PrintProd(a)|) == op && Peek(s, i + |PrintProd(a)| + 1) != ' '
  {
    AtConcat(s, i, PrintProd(a) + [op], PrintAtom(b));
    AtConcat(s, i, PrintProd(a), [op]);
    AtFirst(s, i + |PrintProd(a)|, [op]);
    AtFirst(s, i + |PrintProd(a)| + 1, PrintAtom(b));
  }

  /** The layout of a printed sum with an operator: left operand, operator, right product. */
  lemma {:induction false} SumLayout(s: string, i: nat, a: Expr, b: Expr, op: char)
    requires At(s, i, PrintSum(a) + [op] + PrintProd(b))
    ensures At(s, i, PrintSum(a)) && At(s, i + |PrintSum(a)| + 1, PrintProd(b))
    ensures Peek(s, i + |PrintSum(a)|) == op
  {
    AtConcat(s, i, PrintSum(a) + [op], PrintProd(b));
    AtConcat(s, i, PrintSum(a), [op]);
    AtFirst(s, i + |PrintSum(a)|, [op]);
  }

  /** The layout of a parenthesised sum. */
  lemma {:induction false} ParenLayout(s: string, i: nat, e: Expr)
    requires At(s, i, "(" + PrintSum(e) + ")")
    ensures Peek(s, i) == '(' && At(s, i + 1, PrintSum(e)) && Peek(s, i + 1 + |PrintSum(e)|) == ')'
  {
    AtConcat(s, i, "(" + PrintSum(e), ")");
    AtConcat(s, i, "(", PrintSum(e));
    AtFirst(s, i, "(");
    AtFirst(s, i + 1 + |PrintSum(e)|, ")");
  }

  /** The layout of a negation. */
  lemma {:induction false} NegLayout(s: string, i: nat, a: Expr)
    requires At(s, i, "-" + Primary(a))
    ensures Peek(s, i) == '-' && At(s, i + 1, Primary(a)) && Peek(s, i + 1) != '+'
  {
    AtConcat(s, i, "-", Primary(a));
    AtFirst(s, i, "-");
    AtFirst(s, i + 1, Primary(a));
  }

  /** `ParseSummands` begins with `ParseFactors`. */
  lemma {:induction false} SummandsStart(s: string, st: State, v: real, st2: State)
    requires st.pos <= |s| && Factors(s, st) == (v, st2)
    ensures Summands(s, st) == SummandsLoop(s, v, st2)
  {
  }

  // ---------------------------------------------------------------------
  // Parsing printed expressions that have a value
  // ---------------------------------------------------------------------

  /** `ParseAtom` after its signs, on a printed primary: the signed value, and the cursor past it. */
  lemma {:induction false} PrimaryValue(s: string, st: State, e: Expr, v: real, negative: bool)
    requires Value(e) == Some(v)
    requires At(s, st.pos, Primary(e)) && EndsNumber(Peek(s, st.pos + |Primary(e)|))
    ensures AtomBody(s, st, negative) == (Signed(negative, v), st.(pos := st.pos + |Primary(e)|))
    decreases e, Rank(e, PrimaryLevel), 1
  {
    if e.Num? {
      AtFirst(s, st.pos, Primary(e));
      AtSlice(s, st.pos, Primary(e));
      AtomNumber(s, st, negative);
      StrtodNumeral(s, st.pos, e.n);
    } else {
      var w := PrintSum(e);
      ParenLayout(s, st.pos, e);
      var inner := State(st.pos + 1, st.err, st.errPos, st.parens + 1);
      SumValue(s, inner, e, v);
      SummandsLoopStops(s, v, inner.(pos := st.pos + 1 + |w|));
      AtomParenthesis(s, st, negative, inner, v, inner.(pos := st.pos + 1 + |w|));
    }
  }

  /** `ParseAtom` on a printed atom: its value, and the cursor past it. */
  lemma {:induction false} AtomValue(s: string, st: State, e: Expr, v: real)
    requires Value(e) == Some(v)
    requires At(s, st.pos, PrintAtom(e)) && EndsNumber(Peek(s, st.pos + |PrintAtom(e)|))
    ensures Atom(s, st) == (v, st.(pos := st.pos + |PrintAtom(e)|))
    decreases e, Rank(e, AtomLevel), 1
  {
    if e.Neg? {
      NegLayout(s, st.pos, e.a);
      AtomSigns(s, st, st.pos, true, st.pos + 1);
      PrimaryValue(s, st.(pos := st.pos + 1), e.a, -v, true);
    } else {
      AtFirst(s, st.pos, PrintAtom(e));
      AtomSigns(s, st, st.pos, false, st.pos);
      PrimaryValue(s, st, e, v, false);
    }
  }

  /**
    `ParseFactors` on a printed product: its loop goes on from the end of
    the product with the product's value.
  */
  lemma {:induction false} ProdValue(s: string, st: State, e: Expr, v: real)
    requires Value(e) == Some(v)
    requires At(s, st.pos, PrintProd(e)) && EndsNumber(Peek(s, st.pos + |PrintProd(e)|))
    ensures Factors(s, st) == FactorsLoop(s, v, st.(pos := st.pos + |PrintProd(e)|))
    decreases e, Rank(e, ProdLevel), 1
  {
    if e.Mul? {
      ProdTurnTimes(s, st, e, v);
    } else if e.Div? {
      ProdTurnQuotient(s, st, e, v);
    } else {
      AtomValue(s, st, e, v);
    }
  }

  /** A printed product `a*b`: the left operand, then one turn of the loop that multiplies. */
  lemma {:induction false} ProdTurnTimes(s: string, st: State, e: Expr, v: real)
    requires e.Mul? && Value(e) == Some(v)
    requires At(s, st.pos, PrintProd(e)) && EndsNumber(Peek(s, st.pos + |PrintProd(e)|))
    ensures Factors(s, st) == FactorsLoop(s, v, st.(pos := st.pos + |PrintProd(e)|))
    decreases e, 0, 0
  {
    var a, b := e.a, e.b;
    var x, y := Value(a).value, Value(b).value;
    assert PrintProd(e) == PrintProd(a) + ['*'] + PrintAtom(b) && v == Times(x, y);
    var mid := st.(pos := st.pos + |PrintProd(a)|);
    ProdLeft(s, st, a, x, '*', PrintAtom(b), mid);
    MultiplyTurn(s, mid, b, x, y, st.(pos := st.pos + |PrintProd(e)|));
  }

  /** A printed product `a/b` with `b` not zero: the left operand, then one turn of the loop that divides. */
  lemma {:induction false} ProdTurnQuotient(s: string, st: State, e: Expr, v: real)
    requires e.Div? && Value(e) == Some(v)
    requires At(s, st.pos, PrintProd(e)) && EndsNumber(Peek(s, st.pos + |PrintProd(e)|))
    ensures Factors(s, st) == FactorsLoop(s, v, st.(pos := st.pos + |PrintProd(e)|))
    decreases e, 0, 0
  {
    var a, b := e.a, e.b;
    var x, y := Value(a).value, Value(b).value;
    assert PrintProd(e) == PrintProd(a) + ['/'] + PrintAtom(b) && y != 0.0 && v == Quotient(x, y);
    var mid := st.(pos := st.pos + |PrintProd(a)|);
    ProdLeft(s, st, a, x, '/', PrintAtom(b), mid);
    DivideTurn(s, mid, b, x, y, st.(pos := st.pos + |PrintProd(e)|));
  }

  /** The left operand of a printed product with an operator: the loop starts at the operator with its value. */
  lemma {:induction false} ProdLeft(s: string, st: State, a: Expr, x: real, op: char, rest: string, mid: State)
    requires Value(a) == Some(x) && (op == '*' || op == '/')
    requires At(s, st.pos, PrintProd(a) + [op] + rest) && mid == st.(pos := st.pos + |PrintProd(a)|)
    ensures Peek(s, mid.pos) == op && At(s, mid.pos + 1, rest)
    ensures Factors(s, st) == FactorsLoop(s, x, mid)
    decreases a, Rank(a, ProdLevel), 2
  {
    AtConcat(s, st.pos, PrintProd(a) + [op], rest);
    AtConcat(s, st.pos, PrintProd(a), [op]);
    AtFirst(s, st.pos + |PrintProd(a)|, [op]);
    ProdValue(s, st, a, x);
  }

  /** One turn of the `ParseFactors` loop on `*` and a printed atom. */
  lemma {:induction false} MultiplyTurn(s: string, st: State, b: Expr, x: real, y: real, after: State)
    requires Value(b) == Some(y) && Peek(s, st.pos) == '*'
    requires At(s, st.pos + 1, PrintAtom(b)) && EndsNumber(Peek(s, st.pos + 1 + |PrintAtom(b)|))
    requires after == st.(pos := st.pos + 1 + |PrintAtom(b)|)
    ensures FactorsLoop(s, x, st) == FactorsLoop(s, Times(x, y), after)
    decreases b, Rank(b, AtomLevel), 2
  {
    assert SkipSpaces(s, st.pos) == st.pos;
    AtomValue(s, st.(pos := st.pos + 1), b, y);
    FactorsLoopMultiply(s, x, st, st.pos, y, after);
  }

  /** One turn of the `ParseFactors` loop on `/` and a printed atom whose value is not zero. */
  lemma {:induction false} DivideTurn(s: string, st: State, b: Expr, x: real, y: real, after: State)
    requires Value(b) == Some(y) && y != 0.0 && Peek(s, st.pos) == '/'
    requires At(s, st.pos + 1, PrintAtom(b)) && EndsNumber(Peek(s, st.pos + 1 + |PrintAtom(b)|))
    requires after == st.(pos := st.pos + 1 + |PrintAtom(b)|)
    ensures FactorsLoop(s, x, st) == FactorsLoop(s, Quotient(x, y), after)
    decreases b, Rank(b, AtomLevel), 2
  {
    assert SkipSpaces(s, st.pos) == st.pos;
    AtomValue(s, st.(pos := st.pos + 1), b, y);
    FactorsLoopDivide(s, x, st, st.pos, y, after);
  }

  /**
    `ParseSummands` on a printed sum: its loop goes on from the end of the
    sum with the sum's value.
  */
  lemma {:induction false} SumValue(s: string, st: State, e: Expr, v: real)
    requires Value(e) == Some(v)
    requires At(s, st.pos, PrintSum(e)) && EndsProduct(Peek(s, st.pos + |PrintSum(e)|))
    ensures Summands(s, st) == SummandsLoop(s, v, st.(pos := st.pos + |PrintSum(e)|))
    decreases e, Rank(e, SumLevel), 1
  {
    if e.Add? || e.Sub? {
      SumTurnValue(s, st, e, v);
    } else {
      SumOfProductValue(s, st, e, v);
    }
  }

  /** A sum without an operator is a product: `ParseSummands` starts its loop where that product ends. */
  lemma {:induction false} SumOfProductValue(s: string, st: State, e: Expr, v: real)
    requires Value(e) == Some(v) && !e.Add? && !e.Sub?
    requires At(s, st.pos, PrintSum(e)) && EndsProduct(Peek(s, st.pos + |PrintSum(e)|))
    ensures Summands(s, st) == SummandsLoop(s, v, st.(pos := st.pos + |PrintSum(e)|))
    decreases e, Rank(e, SumLevel), 0
  {
    assert PrintSum(e) == PrintProd(e);
    var st2 := st.(pos := st.pos + |PrintSum(e)|);
    ProdValue(s, st, e, v);
    FactorsLoopStops(s, v, st2);
    SummandsStart(s, st, v, st2);
  }

  /** A printed sum with an operator: the left operand, then one turn of the loop. */
  lemma {:induction false} SumTurnValue(s: string, st: State, e: Expr, v: real)
    requires (e.Add? || e.Sub?) && Value(e) == Some(v)
    requires At(s, st.pos, PrintSum(e)) && EndsProduct(Peek(s, st.pos + |PrintSum(e)|))
    ensures Summands(s, st) == SummandsLoop(s, v, st.(pos := st.pos + |PrintSum(e)|))
    decreases e, 0, 0
  {
    var a, b := e.a, e.b;
    var op := if e.Add? then '+' else '-';
    var x, y := Value(a).value, Value(b).value;
    assert PrintSum(e) == PrintSum(a) + [op] + PrintProd(b) && v == if op == '+' then x + y else x - y;
    var mid := st.(pos := st.pos + |PrintSum(a)|);
    SumLeft(s, st, a, x, op, PrintProd(b), mid);
    AddTurn(s, mid, b, op, x, y, st.(pos := st.pos + |PrintSum(e)|));
  }


  /** The left operand of a printed sum with an operator: the loop starts at the operator with its value. */
  lemma {:induction false} SumLeft(s: string, st: State, a: Expr, x: real, op: char, rest: string, mid: State)
    requires Value(a) == Some(x) && (op == '+' || op == '-')
    requires At(s, st.pos, PrintSum(a) + [op] + rest) && mid == st.(pos := st.pos + |PrintSum(a)|)
    ensures Peek(s, mid.pos) == op && At(s, mid.pos + 1, rest)
    ensures Summands(s, st) == SummandsLoop(s, x, mid)
    decreases a, Rank(a, SumLevel), 2
  {
    AtConcat(s, st.pos, PrintSum(a) + [op], rest);
    AtConcat(s, st.pos, PrintSum(a), [op]);
    AtFirst(s, st.pos + |PrintSum(a)|, [op]);
    SumValue(s, st, a, x);
  }

  /** One turn of the `ParseSummands` loop on `+` or `-` and a printed product. */
  lemma {:induction false} AddTurn(s: string, st: State, b: Expr, op: char, x: real, y: real, after: State)
    requires Value(b) == Some(y) && (op == '+' || op == '-') && Peek(s, st.pos) == op
    requires At(s, st.pos + 1, PrintProd(b)) && EndsProduct(Peek(s, st.pos + 1 + |PrintProd(b)|))
    requires after == st.(pos := st.pos + 1 + |PrintProd(b)|)
    ensures SummandsLoop(s, x, st) == SummandsLoop(s, if op == '+' then x + y else x - y, after)
    decreases b, Rank(b, ProdLevel), 2
  {
    assert SkipSpaces(s, st.pos) == st.pos;
    ProdValue(s, st.(pos := st.pos + 1), b, y);
    FactorsLoopStops(s, y, after);
    SummandsLoopTurn(s, x, st, st.pos, y, after);
  }


  // ---------------------------------------------------------------------
  // Parsing printed expressions that divide by zero
  // ---------------------------------------------------------------------

  /** `ParseFactors` begins with `ParseAtom`. */
  lemma {:induction false} FactorsStart(s: string, st: State, v: real, st2: State)
    requires st.pos <= |s| && Atom(s, st) == (v, st2)
    ensures Factors(s, st) == FactorsLoop(s, v, st2)
  {
  }

  /** `ParseAtom` after its signs, on a printed primary that divides by zero: an error is recorded. */
  lemma {:induction false} PrimaryError(s: string, st: State, e: Expr, negative: bool)
    requires Value(e).None?
    requires At(s, st.pos, Primary(e)) && EndsNumber(Peek(s, st.pos + |Primary(e)|))
    ensures AtomBody(s, st, negative).1.err != NoError
    decreases e, Rank(e, PrimaryLevel), 1
  {
    if e.Num? {
      assert false;
    } else {
      ParenLayout(s, st.pos, e);
      var inner := State(st.pos + 1, st.err, st.errPos, st.parens + 1);
      SumError(s, inner, e);
      var res := Summands(s, inner);
      AtomParenthesis(s, st, negative, inner, res.0, res.1);
    }
  }

  /** `ParseAtom` on a printed atom that divides by zero: an error is recorded. */
  lemma {:induction false} AtomError(s: string, st: State, e: Expr)
    requires Value(e).None?
    requires At(s, st.pos, PrintAtom(e)) && EndsNumber(Peek(s, st.pos + |PrintAtom(e)|))
    ensures Atom(s, st).1.err != NoError
    decreases e, Rank(e, AtomLevel), 1
  {
    if e.Num? {
      assert false;
    } else if e.Neg? {
      NegLayout(s, st.pos, e.a);
      AtomSigns(s, st, st.pos, true, st.pos + 1);
      PrimaryError(s, st.(pos := st.pos + 1), e.a, true);
    } else {
      AtFirst(s, st.pos, PrintAtom(e));
      AtomSigns(s, st, st.pos, false, st.pos);
      PrimaryError(s, st, e, false);
    }
  }

  /** `ParseFactors` on a printed product that divides by zero: an error is recorded. */
  lemma {:induction false} ProdError(s: string, st: State, e: Expr)
    requires Value(e).None?
    requires At(s, st.pos, PrintProd(e)) && EndsNumber(Peek(s, st.pos + |PrintProd(e)|))
    ensures Factors(s, st).1.err != NoError
    decreases e, Rank(e, ProdLevel), 1
  {
    match e
    case Mul(a, b) =>
      ProdTurnError(s, st, a, b, '*');
    case Div(a, b) =>
      ProdTurnError(s, st, a, b, '/');
    case Num(_) =>
      assert false;
    case _ =>
      AtomError(s, st, e);
      var first := Atom(s, st);
      FactorsStart(s, st, first.0, first.1);
  }

  /**
    A printed product with an operator that divides by zero: in the left
    operand, in the right operand, or by dividing by zero itself.
  */
  lemma {:induction false} ProdTurnError(s: string, st: State, a: Expr, b: Expr, op: char)
    requires op == '*' || op == '/'
    requires Value(if op == '*' then Mul(a, b) else Div(a, b)).None?
    requires At(s, st.pos, PrintProd(a) + [op] + PrintAtom(b))
    requires EndsNumber(Peek(s, st.pos + |PrintProd(a)| + 1 + |PrintAtom(b)|))
    ensures Factors(s, st).1.err != NoError
    decreases if op == '*' then Mul(a, b) else Div(a, b), 0, 0
  {
    var p := st.pos + |PrintProd(a)|;
    if Value(a).None? {
      ProdLayout(s, st.pos, a, b, op);
      ProdError(s, st, a);
    } else {
      ProdLeft(s, st, a, Value(a).value, op, PrintAtom(b), st.(pos := p));
      RightOperandError(s, st.(pos := p), b, op, Value(a).value);
    }
  }

  /** One turn of the `ParseFactors` loop whose right operand fails or is a zero divisor. */
  lemma {:induction false} RightOperandError(s: string, st: State, b: Expr, op: char, x: real)
    requires (op == '*' && Value(b).None?) || (op == '/' && (Value(b).None? || Value(b) == Some(0.0)))
    requires Peek(s, st.pos) == op
    requires At(s, st.pos + 1, PrintAtom(b)) && EndsNumber(Peek(s, st.pos + 1 + |PrintAtom(b)|))
    ensures FactorsLoop(s, x, st).1.err != NoError
    decreases b, Rank(b, AtomLevel), 3
  {
    if op == '*' {
      MulRightError(s, st, b, x);
    } else if Value(b).None? {
      DivRightError(s, st, b, x);
    } else {
      DivByZero(s, st, b, x);
    }
  }

  /** One turn of the `ParseFactors` loop on `*` and a printed atom that divides by zero. */
  lemma {:induction false} MulRightError(s: string, st: State, b: Expr, x: real)
    requires Peek(s, st.pos) == '*' && Value(b).None?
    requires At(s, st.pos + 1, PrintAtom(b)) && EndsNumber(Peek(s, st.pos + 1 + |PrintAtom(b)|))
    ensures FactorsLoop(s, x, st).1.err != NoError
    decreases b, Rank(b, AtomLevel), 2
  {
    assert SkipSpaces(s, st.pos) == st.pos;
    AtomError(s, st.(pos := st.pos + 1), b);
    var after := Atom(s, st.(pos := st.pos + 1));
    FactorsLoopMultiply(s, x, st, st.pos, after.0, after.1);
  }

  /** One turn of the `ParseFactors` loop on `/` and a printed atom that divides by zero. */
  lemma {:induction false} DivRightError(s: string, st: State, b: Expr, x: real)
    requires Peek(s, st.pos) == '/' && Value(b).None?
    requires At(s, st.pos + 1, PrintAtom(b)) && EndsNumber(Peek(s, st.pos + 1 + |PrintAtom(b)|))
    ensures FactorsLoop(s, x, st).1.err != NoError
    decreases b, Rank(b, AtomLevel), 2
  {
    assert SkipSpaces(s, st.pos) == st.pos;
    AtomError(s, st.(pos := st.pos + 1), b);
    var after := Atom(s, st.(pos := st.pos + 1));
    FactorsLoopDivide(s, x, st, st.pos, after.0, after.1);
  }

  /** One turn of the `ParseFactors` loop on `/` and a printed atom whose value is zero. */
  lemma {:induction false} DivByZero(s: string, st: State, b: Expr, x: real)
    requires Peek(s, st.pos) == '/' && Value(b) == Some(0.0)
    requires At(s, st.pos + 1, PrintAtom(b)) && EndsNumber(Peek(s, st.pos + 1 + |PrintAtom(b)|))
    ensures FactorsLoop(s, x, st).1.err == DivideByZero
  {
    assert SkipSpaces(s, st.pos) == st.pos;
    AtomValue(s, st.(pos := st.pos + 1), b, 0.0);
    FactorsLoopDivide(s, x, st, st.pos, 0.0, st.(pos := st.pos + 1 + |PrintAtom(b)|));
  }

  /** `ParseSummands` on a printed sum that divides by zero: an error is recorded. */
  lemma {:induction false} SumError(s: string, st: State, e: Expr)
    requires Value(e).None?
    requires At(s, st.pos, PrintSum(e)) && EndsProduct(Peek(s, st.pos + |PrintSum(e)|))
    ensures Summands(s, st).1.err != NoError
    decreases e, Rank(e, SumLevel), 1
  {
    match e
    case Add(a, b) =>
      SumTurnError(s, st, a, b, '+');
    case Sub(a, b) =>
      SumTurnError(s, st, a, b, '-');
    case Num(_) =>
      assert false;
    case _ =>
      ProdError(s, st, e);
      var first := Factors(s, st);
      SummandsStart(s, st, first.0, first.1);
  }

  /** A printed sum with an operator that divides by zero in one of its operands. */
  lemma {:induction false} SumTurnError(s: string, st: State, a: Expr, b: Expr, op: char)
    requires op == '+' || op == '-'
    requires Value(a).None? || Value(b).None?
    requires At(s, st.pos, PrintSum(a) + [op] + PrintProd(b))
    requires EndsProduct(Peek(s, st.pos + |PrintSum(a)| + 1 + |PrintProd(b)|))
    ensures Summands(s, st).1.err != NoError
    decreases if op == '+' then Add(a, b) else Sub(a, b), 0, 0
  {
    var p := st.pos + |PrintSum(a)|;
    if Value(a).None? {
      SumLayout(s, st.pos, a, b, op);
      SumError(s, st, a);
    } else {
      var x := Value(a).value;
      SumLeft(s, st, a, x, op, PrintProd(b), st.(pos := p));
      ProdError(s, st.(pos := p + 1), b);
      var next := Factors(s, st.(pos := p + 1));
      SummandsLoopTurn(s, x, st.(pos := p), p, next.0, next.1);
    }
  }

  // ---------------------------------------------------------------------
  // `wire::eval` on printed expressions
  // ---------------------------------------------------------------------

  /**
    `wire::eval` on a printed expression: its value, or NaN when it
    divides by zero.
  */
  lemma {:induction false} EvaluatesPrinted(e: Expr)
    ensures Value(e).Some? ==> Evaluated(PrintSum(e)) == Finite(Value(e).value)
    ensures Value(e).None? ==> Evaluated(PrintSum(e)) == NaN
  {
    var s := PrintSum(e);
    var st := State(0, NoError, 0, 0);
    assert forall k :: 0 <= k < |s| ==> s[0 + k] == s[k];
    if Value(e).Some? {
      SumValue(s, st, e, Value(e).value);
      SummandsLoopStops(s, Value(e).value, st.(pos := |s|));
    } else {
      SumError(s, st, e);
    }
  }

  /**
    A `)` after a well-formed expression: the whole expression is read,
    then a parenthesis error is recorded at the `)`, whatever follows.
  */
  lemma {:induction false} ExtraClosing(e: Expr, v: real, rest: string)
    requires Value(e) == Some(v)
    ensures var w := PrintSum(e);
      Evaluation(w + ")" + rest, 0).1 == State(|w|, Parenthesis, |w|, 0) &&
      Evaluated(w + ")" + rest) == NaN
  {
    var w := PrintSum(e);
    var s := w + ")" + rest;
    var st := State(0, NoError, 0, 0);
    assert forall k :: 0 <= k < |w| ==> s[0 + k] == w[k];
    assert Peek(s, |w|) == ')';
    SumValue(s, st, e, v);
    SummandsLoopStops(s, v, st.(pos := |w|));
    assert Summands(s, st) == (v, st.(pos := |w|));
  }

  /**
    An unclosed `(` before a well-formed expression: the atom records a
    parenthesis error at the end of the text and leaves the count at one.
  */
  lemma {:induction false} Unclosed(e: Expr)
    requires Value(e).Some?
    ensures var w := PrintSum(e);
      Evaluation("(" + w, 0).1 == State(1 + |w|, Parenthesis, 1 + |w|, 1) &&
      Evaluated("(" + w) == NaN
  {
    var w := PrintSum(e);
    var s := "(" + w;
    var failed := State(1 + |w|, Parenthesis, 1 + |w|, 1);
    UnclosedAtom(e, w, s);
    FactorsLoopStops(s, 0.0, failed);
    SummandsStart(s, State(0, NoError, 0, 0), 0.0, failed);
    SummandsLoopStops(s, 0.0, failed);
  }

  /**
    A character that no rule reads after a well-formed expression (not a
    digit, `.`, `e`, `E`, an operator, a blank, `)` or the end): a
    wrong-character error at that character, whatever follows.
  */
  lemma {:induction false} TrailingText(e: Expr, c: char, rest: string)
    requires Value(e).Some? && EndsSum(c) && c != ')' && c != '\0'
    ensures var w := PrintSum(e);
      Evaluation(w + [c] + rest, 0).1 == State(|w|, WrongChar, |w|, 0) &&
      Evaluated(w + [c] + rest) == NaN
  {
    var w := PrintSum(e);
    var s := w + [c] + rest;
    var st := State(0, NoError, 0, 0);
    assert forall k :: 0 <= k < |w| ==> s[0 + k] == w[k];
    assert Peek(s, |w|) == c;
    SumValue(s, st, e, Value(e).value);
    SummandsLoopStops(s, Value(e).value, st.(pos := |w|));
    assert Summands(s, st) == (Value(e).value, st.(pos := |w|));
  }

  /**
    A `+` or `-` that ends the text after a well-formed expression: the
    missing operand is a wrong-character error at the end.
  */
  lemma {:induction false} TrailingOperator(e: Expr, v: real, op: char)
    requires Value(e) == Some(v) && (op == '+' || op == '-')
    ensures var w := PrintSum(e);
      Evaluation(w + [op], 0).1 == State(|w| + 1, WrongChar, |w| + 1, 0) &&
      Evaluated(w + [op]) == NaN
  {
    var w := PrintSum(e);
    var s := w + [op];
    var st := State(0, NoError, 0, 0);
    var failed := State(|s|, WrongChar, |s|, 0);
    assert forall k :: 0 <= k < |w| ==> s[0 + k] == w[k];
    assert Peek(s, |w|) == op;
    SumValue(s, st, e, v);
    MissingOperand(s, State(|s|, NoError, 0, 0));
    SummandsLoopTurn(s, v, st.(pos := |w|), |w|, 0.0, failed);
    SummandsLoopStops(s, v - 0.0, failed);
    SummandsLoopStops(s, v + 0.0, failed);
  }

  /** An operand expected at the end of the text is a wrong-character error there, with value 0. */
  lemma {:induction false} MissingOperand(s: string, st: State)
    requires st.pos == |s|
    ensures Factors(s, st) == (0.0, State(|s|, WrongChar, |s|, st.parens))
  {
    var failed := State(|s|, WrongChar, |s|, st.parens);
    StrtodAtEnd(s);
    AtomSigns(s, st, |s|, false, |s|);
    AtomNumber(s, st, false);
    FactorsStart(s, st, 0.0, failed);
    FactorsLoopStops(s, 0.0, failed);
  }

  /** The atom of an unclosed parenthesis reads the whole sum, then records the missing `)`. */
  lemma {:induction false} UnclosedAtom(e: Expr, w: string, s: string)
    requires Value(e).Some? && w == PrintSum(e) && s == "(" + w
    ensures Atom(s, State(0, NoError, 0, 0)) == (0.0, State(1 + |w|, Parenthesis, 1 + |w|, 1))
  {
    var st := State(0, NoError, 0, 0);
    assert Peek(s, 0) == '(' && Peek(s, 1 + |w|) == '\0';
    UnclosedSum(e, w, s);
    AtomSigns(s, st, 0, false, 0);
    AtomParenthesis(s, st, false, State(1, NoError, 0, 1), Value(e).value, State(1 + |w|, NoError, 0, 1));
  }

  /** Inside an unclosed parenthesis the sum is read to the end of the text. */
  lemma {:induction false} UnclosedSum(e: Expr, w: string, s: string)
    requires Value(e).Some? && w == PrintSum(e) && s == "(" + w
    ensures Summands(s, State(1, NoError, 0, 1)) == (Value(e).value, State(1 + |w|, NoError, 0, 1))
  {
    var v := Value(e).value;
    var inner := State(1, NoError, 0, 1);
    assert forall k :: 0 <= k < |w| ==> s[1 + k] == w[k];
    assert Peek(s, 1 + |w|) == '\0';
    SumValue(s, inner, e, v);
    SummandsLoopStops(s, v, State(1 + |w|, NoError, 0, 1));
  }

}
