/**
  The recursive-descent arithmetic evaluator behind `wire::eval` (class
  `ExprEval` of wire.cpp).

  Grammar, as the three parsing routines implement it:
    summands := factors (('+' | '-') factors)*
    factors  := atom (('*' | '/') atom)*
    atom     := ['-'] ['+'] ('(' summands ')' | strtod-number)
  with blanks skipped before an atom and before each operator.

  The cursor is an index into the text; reading at or past its end gives
  the terminating '\0' of the C string. Values are real numbers, so IEEE
  rounding, infinities and negative zero are not modelled.

  The evaluator keeps an error code, an error position and a parenthesis
  counter. Parsing goes on after an error, and a later error overwrites an
  earlier one. The functions below specify each routine on an explicit
  `State`; the methods of `ExprEval` are proved to compute them.
*/
module Evaluator {
  import opened Wrappers
  import opened Decimal

  /** The error codes, in the order of their numeric values 0 to 3. */
  datatype ErrorCode = NoError | Parenthesis | WrongChar | DivideByZero

  /** Cursor, error code, error position and open-parenthesis count. */
  datatype State = State(pos: nat, err: ErrorCode, errPos: nat, parens: int)

  /** The result of `wire::eval`: a number, or NaN after any error. */
  datatype Number = Finite(value: real) | NaN

  /** `*expr`: the character under the cursor, '\0' at the end. */
  function Peek(s: string, i: nat): char {
    if i < |s| then s[i] else '\0'
  }

  /** The cursor after `while(*expr == ' ') expr++;`. */
  function SkipSpaces(s: string, i: nat): (j: nat)
    requires i <= |s|
    ensures i <= j <= |s| && Peek(s, j) != ' '
    decreases |s| - i
  {
    if Peek(s, i) == ' ' then SkipSpaces(s, i + 1) else i
  }

  /** Only blanks are skipped: the cursor stops at the first character that is not one. */
  lemma {:induction false} SkipSpacesBlanks(s: string, i: nat)
    requires i <= |s|
    ensures forall k :: i <= k < SkipSpaces(s, i) ==> s[k] == ' '
    decreases |s| - i
  {
    if Peek(s, i) == ' ' {
      SkipSpacesBlanks(s, i + 1);
    }
  }

  /** `num1 *= num2`. */
  function Times(x: real, y: real): real {
    x * y
  }

  /** `num1 /= num2`, for a divisor the loop has found nonzero. */
  function Quotient(x: real, y: real): real
    requires y != 0.0
  {
    x / y
  }

  function Signed(negative: bool, x: real): real {
    if negative then -x else x
  }

  /**
    What every parsing routine guarantees about the state: the cursor only
    moves forward; an error, once set, is never cleared; the parenthesis
    count never drops below its value on entry, and when it ends above
    it, an error has been recorded.
  */
  predicate Progress(st: State, st': State) {
    st.pos <= st'.pos &&
    (st.err != NoError ==> st'.err != NoError) &&
    st.parens <= st'.parens &&
    (st'.parens != st.parens ==> st'.err != NoError)
  }

  // ---------------------------------------------------------------------
  // Specification of the parsing routines
  // ---------------------------------------------------------------------

  /** `ParseAtom`: blanks, an optional '-', an optional '+', then the atom proper. */
  function Atom(s: string, st: State): (r: (real, State))
    requires st.pos <= |s|
    ensures Progress(st, r.1) && r.1.pos <= |s|
    decreases |s| - st.pos, 1
  {
    var p0 := SkipSpaces(s, st.pos);
    var negative := Peek(s, p0) == '-';
    var p1 := if negative then p0 + 1 else p0;
    var p2 := if Peek(s, p1) == '+' then p1 + 1 else p1;
    AtomBody(s, st.(pos := p2), negative)
  }

  /**
    A parenthesised sub-expression or a number, negated when a '-' came
    before it. A missing ')' records a parenthesis error and leaves the
    count raised. A missing number records a wrong-character error. Both
    yield 0.
  */
  function AtomBody(s: string, st: State, negative: bool): (r: (real, State))
    requires st.pos <= |s|
    ensures Progress(st, r.1) && r.1.pos <= |s|
    decreases |s| - st.pos, 0
  {
    if Peek(s, st.pos) == '(' then
      var inner := Summands(s, st.(pos := st.pos + 1, parens := st.parens + 1));
      var st1 := inner.1;
      if Peek(s, st1.pos) != ')' then (0.0, st1.(err := Parenthesis, errPos := st1.pos))
      else (Signed(negative, inner.0), st1.(pos := st1.pos + 1, parens := st1.parens - 1))
    else
      match Strtod(s, st.pos)
      case None => (0.0, st.(err := WrongChar, errPos := st.pos))
      case Some(number) => (Signed(negative, number.0), st.(pos := number.1))
  }

  /** `ParseFactors`: an atom, then the loop over `*` and `/`. */
  function Factors(s: string, st: State): (r: (real, State))
    requires st.pos <= |s|
    ensures Progress(st, r.1) && r.1.pos <= |s|
    decreases |s| - st.pos, 3
  {
    var first := Atom(s, st);
    FactorsLoop(s, first.0, first.1)
  }

  /**
    The `for(;;)` loop of `ParseFactors` with accumulator `num1`. A zero
    divisor records a division error at the operator and returns 0 at once.
  */
  function FactorsLoop(s: string, num1: real, st: State): (r: (real, State))
    requires st.pos <= |s|
    ensures Progress(st, r.1) && r.1.pos <= |s|
    decreases |s| - st.pos, 2
  {
    var p := SkipSpaces(s, st.pos);
    var op := Peek(s, p);
    if op != '/' && op != '*' then (num1, st.(pos := p))
    else
      var next := Atom(s, st.(pos := p + 1));
      var num2 := next.0;
      if op == '/' then
        if num2 == 0.0 then (0.0, next.1.(err := DivideByZero, errPos := p))
        else FactorsLoop(s, Quotient(num1, num2), next.1)
      else FactorsLoop(s, Times(num1, num2), next.1)
  }

  /** `ParseSummands`: a product, then the loop over `+` and `-`. */
  function Summands(s: string, st: State): (r: (real, State))
    requires st.pos <= |s|
    ensures Progress(st, r.1) && r.1.pos <= |s|
    decreases |s| - st.pos, 4
  {
    var first := Factors(s, st);
    SummandsLoop(s, first.0, first.1)
  }

  /** The `for(;;)` loop of `ParseSummands` with accumulator `num1`. */
  function SummandsLoop(s: string, num1: real, st: State): (r: (real, State))
    requires st.pos <= |s|
    ensures Progress(st, r.1) && r.1.pos <= |s|
    decreases |s| - st.pos, 2
  {
    var p := SkipSpaces(s, st.pos);
    var op := Peek(s, p);
    if op != '-' && op != '+' then (num1, st.(pos := p))
    else
      var next := Factors(s, st.(pos := p + 1));
      SummandsLoop(s, if op == '-' then num1 - next.0 else num1 + next.0, next.1)
  }

  /**
    `evaluate`: reset the count and the error code (not the error
    position, which keeps `errPos0`), parse, then require the whole text to
    be used up with balanced parentheses. A success leaves the cursor at
    the end of the C string and the count at zero.
  */
  function Evaluation(s: string, errPos0: nat): (r: (real, State))
    ensures r.1.err == NoError ==> r.1.parens == 0 && Peek(s, r.1.pos) == '\0'
    ensures r.1.pos <= |s|
  {
    var parsed := Summands(s, State(0, NoError, errPos0, 0));
    var st := parsed.1;
    if st.parens != 0 || Peek(s, st.pos) == ')' then (0.0, st.(err := Parenthesis, errPos := st.pos))
    else if Peek(s, st.pos) != '\0' then (0.0, st.(err := WrongChar, errPos := st.pos))
    else (parsed.0, st)
  }

  /** `wire::eval`: the value when no error was recorded, NaN otherwise. */
  function Evaluated(s: string): Number {
    var r := Evaluation(s, 0);
    if r.1.err == NoError then Finite(r.0) else NaN
  }

  /** The sign handling of `ParseAtom`, given where it leaves the cursor. */
  lemma {:induction false} AtomSigns(s: string, st: State, p0: nat, negative: bool, p2: nat)
    requires st.pos <= |s| && p0 == SkipSpaces(s, st.pos) && negative == (Peek(s, p0) == '-')
    requires var p1 := if negative then p0 + 1 else p0;
      p2 == if Peek(s, p1) == '+' then p1 + 1 else p1
    ensures p2 <= |s| && Atom(s, st) == AtomBody(s, st.(pos := p2), negative)
  {
  }

  /** The parenthesised branch of `ParseAtom`, given what `ParseSummands` returned. */
  lemma {:induction false} AtomParenthesis(s: string, st: State, negative: bool, inner: State, res: real, st1: State)
    requires st.pos < |s| && Peek(s, st.pos) == '('
    requires inner == State(st.pos + 1, st.err, st.errPos, st.parens + 1)
    requires Summands(s, inner) == (res, st1)
    ensures Peek(s, st1.pos) != ')' ==>
      AtomBody(s, st, negative) == (0.0, State(st1.pos, Parenthesis, st1.pos, st1.parens))
    ensures Peek(s, st1.pos) == ')' ==>
      AtomBody(s, st, negative) == (Signed(negative, res), State(st1.pos + 1, st1.err, st1.errPos, st1.parens - 1))
  {
    assert st.(pos := st.pos + 1, parens := st.parens + 1) == inner;
  }

  /** The number branch of `ParseAtom`. */
  lemma {:induction false} AtomNumber(s: string, st: State, negative: bool)
    requires st.pos <= |s| && Peek(s, st.pos) != '('
    ensures Strtod(s, st.pos).None? ==>
      AtomBody(s, st, negative) == (0.0, State(st.pos, WrongChar, st.pos, st.parens))
    ensures Strtod(s, st.pos).Some? ==>
      AtomBody(s, st, negative) == (Signed(negative, Strtod(s, st.pos).value.0), State(Strtod(s, st.pos).value.1, st.err, st.errPos, st.parens))
  {
  }

  /** One turn of the `ParseFactors` loop that reads `/`. */
  lemma {:induction false} FactorsLoopDivide(s: string, num1: real, st: State, p: nat, num2: real, st2: State)
    requires st.pos <= |s| && p == SkipSpaces(s, st.pos) && Peek(s, p) == '/'
    requires Atom(s, st.(pos := p + 1)) == (num2, st2)
    ensures num2 == 0.0 ==> FactorsLoop(s, num1, st) == (0.0, st2.(err := DivideByZero, errPos := p))
    ensures num2 != 0.0 ==> FactorsLoop(s, num1, st) == FactorsLoop(s, Quotient(num1, num2), st2)
  {
    assert Atom(s, st.(pos := SkipSpaces(s, st.pos) + 1)) == (num2, st2);
  }

  /** One turn of the `ParseFactors` loop that reads `*`. */
  lemma {:induction false} FactorsLoopMultiply(s: string, num1: real, st: State, p: nat, num2: real, st2: State)
    requires st.pos <= |s| && p == SkipSpaces(s, st.pos) && Peek(s, p) == '*'
    requires Atom(s, st.(pos := p + 1)) == (num2, st2)
    ensures FactorsLoop(s, num1, st) == FactorsLoop(s, Times(num1, num2), st2)
  {
  }

  /** One turn of the `ParseSummands` loop that reads an operator. */
  lemma {:induction false} SummandsLoopTurn(s: string, num1: real, st: State, p: nat, num2: real, st2: State)
    requires st.pos <= |s| && p == SkipSpaces(s, st.pos) && (Peek(s, p) == '+' || Peek(s, p) == '-')
    requires Factors(s, st.(pos := p + 1)) == (num2, st2)
    ensures Peek(s, p) == '-' ==> SummandsLoop(s, num1, st) == SummandsLoop(s, num1 - num2, st2)
    ensures Peek(s, p) == '+' ==> SummandsLoop(s, num1, st) == SummandsLoop(s, num1 + num2, st2)
  {
  }

  /** `while(*expr == ' ') expr++;` */
  method SkipBlanks(s: string, i: nat) returns (j: nat)
    requires i <= |s|
    ensures j == SkipSpaces(s, i)
  {
    j := i;
    while Peek(s, j) == ' '
      invariant i <= j <= |s|
      invariant SkipSpaces(s, j) == SkipSpaces(s, i)
      decreases |s| - j
    {
      j := j + 1;
    }
  }

  // ---------------------------------------------------------------------
  // The evaluator object
  // ---------------------------------------------------------------------

  class ExprEval {
    var err: ErrorCode
    var errPos: nat
    var parenCount: int

    /**
      The source leaves the fields uninitialised until `evaluate`; the
      model starts them at "no error", position 0 and count 0.
    */
    constructor ()
      ensures err == NoError && errPos == 0 && parenCount == 0
    {
      err := NoError;
      errPos := 0;
      parenCount := 0;
    }

    method ParseAtom(s: string, pos0: nat) returns (value: real, pos: nat)
      requires pos0 <= |s|
      modifies this
      ensures Atom(s, State(pos0, old(err), old(errPos), old(parenCount))) == (value, State(pos, err, errPos, parenCount))
      decreases |s| - pos0, 1
    {
      ghost var st0 := State(pos0, err, errPos, parenCount);
      pos := SkipBlanks(s, pos0);
      ghost var p0 := pos;
      var negative := false;
      if Peek(s, pos) == '-' {
        negative := true;
        pos := pos + 1;
      }
      if Peek(s, pos) == '+' {
        pos := pos + 1;
      }
      AtomSigns(s, st0, p0, negative, pos);
      ghost var st := State(pos, err, errPos, parenCount);
      if Peek(s, pos) == '(' {
        pos := pos + 1;
        parenCount := parenCount + 1;
        ghost var inner := State(pos, err, errPos, parenCount);
        var res;
        res, pos := ParseSummands(s, pos);
        AtomParenthesis(s, st, negative, inner, res, State(pos, err, errPos, parenCount));
        if Peek(s, pos) != ')' {
          err := Parenthesis;
          errPos := pos;
          return 0.0, pos;
        }
        pos := pos + 1;
        parenCount := parenCount - 1;
        return Signed(negative, res), pos;
      }
      AtomNumber(s, st, negative);
      var number := Strtod(s, pos);
      if number.None? {
        err := WrongChar;
        errPos := pos;
        return 0.0, pos;
      }
      value, pos := Signed(negative, number.value.0), number.value.1;
    }

    /**
      One pass of the `for(;;)` loop of `ParseFactors` with accumulator
      `num1`: skip blanks and read the operator; without `*` or `/` the loop
      is `done`; otherwise parse the next atom and apply the operator. The
      zero-divisor exit is also `done`.
    */
    method FactorsTurn(s: string, num1: real, pos0: nat) returns (done: bool, num: real, pos: nat)
      requires pos0 <= |s|
      modifies this
      ensures pos0 <= pos <= |s| && (!done ==> pos0 < pos)
      ensures done ==> FactorsLoop(s, num1, State(pos0, old(err), old(errPos), old(parenCount)))
                       == (num, State(pos, err, errPos, parenCount))
      ensures !done ==> FactorsLoop(s, num1, State(pos0, old(err), old(errPos), old(parenCount)))
                        == FactorsLoop(s, num, State(pos, err, errPos, parenCount))
      decreases |s| - pos0, 2
    {
      ghost var st := State(pos0, err, errPos, parenCount);
      pos := SkipBlanks(s, pos0);
      var op := Peek(s, pos);
      var opPos := pos;
      if op != '/' && op != '*' {
        return true, num1, pos;
      }
      pos := pos + 1;
      var num2;
      num2, pos := ParseAtom(s, pos);
      if op == '/' {
        FactorsLoopDivide(s, num1, st, opPos, num2, State(pos, err, errPos, parenCount));
        if num2 == 0.0 {
          err := DivideByZero;
          errPos := opPos;
          return true, 0.0, pos;
        }
        return false, Quotient(num1, num2), pos;
      }
      FactorsLoopMultiply(s, num1, st, opPos, num2, State(pos, err, errPos, parenCount));
      return false, Times(num1, num2), pos;
    }

    method ParseFactors(s: string, pos0: nat) returns (value: real, pos: nat)
      requires pos0 <= |s|
      modifies this
      ensures Factors(s, State(pos0, old(err), old(errPos), old(parenCount))) == (value, State(pos, err, errPos, parenCount))
      decreases |s| - pos0, 3
    {
      ghost var goal := Factors(s, State(pos0, err, errPos, parenCount));
      var num1;
      num1, pos := ParseAtom(s, pos0);
      var done := false;
      while !done
        invariant pos0 <= pos <= |s|
        invariant !done ==> FactorsLoop(s, num1, State(pos, err, errPos, parenCount)) == goal
        invariant done ==> (num1, State(pos, err, errPos, parenCount)) == goal
        decreases |s| - pos, if done then 0 else 1
      {
        done, num1, pos := FactorsTurn(s, num1, pos);
      }
      value := num1;
    }

    /**
      One pass of the `for(;;)` loop of `ParseSummands`: without `+` or `-`
      the loop is `done`; otherwise parse the next product and apply the
      operator.
    */
    method SummandsTurn(s: string, num1: real, pos0: nat) returns (done: bool, num: real, pos: nat)
      requires pos0 <= |s|
      modifies this
      ensures pos0 <= pos <= |s| && (!done ==> pos0 < pos)
      ensures done ==> SummandsLoop(s, num1, State(pos0, old(err), old(errPos), old(parenCount)))
                       == (num, State(pos, err, errPos, parenCount))
      ensures !done ==> SummandsLoop(s, num1, State(pos0, old(err), old(errPos), old(parenCount)))
                        == SummandsLoop(s, num, State(pos, err, errPos, parenCount))
      decreases |s| - pos0, 2
    {
      ghost var st := State(pos0, err, errPos, parenCount);
      pos := SkipBlanks(s, pos0);
      var op := Peek(s, pos);
      ghost var opPos := pos;
      if op != '-' && op != '+' {
        return true, num1, pos;
      }
      pos := pos + 1;
      var num2;
      num2, pos := ParseFactors(s, pos);
      SummandsLoopTurn(s, num1, st, opPos, num2, State(pos, err, errPos, parenCount));
      if op == '-' {
        return false, num1 - num2, pos;
      }
      return false, num1 + num2, pos;
    }

    method ParseSummands(s: string, pos0: nat) returns (value: real, pos: nat)
      requires pos0 <= |s|
      modifies this
      ensures Summands(s, State(pos0, old(err), old(errPos), old(parenCount))) == (value, State(pos, err, errPos, parenCount))
      decreases |s| - pos0, 4
    {
      ghost var goal := Summands(s, State(pos0, err, errPos, parenCount));
      var num1;
      num1, pos := ParseFactors(s, pos0);
      var done := false;
      while !done
        invariant pos0 <= pos <= |s|
        invariant !done ==> SummandsLoop(s, num1, State(pos, err, errPos, parenCount)) == goal
        invariant done ==> (num1, State(pos, err, errPos, parenCount)) == goal
        decreases |s| - pos, if done then 0 else 1
      {
        done, num1, pos := SummandsTurn(s, num1, pos);
      }
      value := num1;
    }

    /** `evaluate`: the result, with the error code, position and count it leaves. */
    method Evaluate(s: string) returns (res: real)
      modifies this
      ensures var r := Evaluation(s, old(errPos));
        res == r.0 && err == r.1.err && errPos == r.1.errPos && parenCount == r.1.parens
    {
      parenCount := 0;
      err := NoError;
      var pos;
      res, pos := ParseSummands(s, 0);
      if parenCount != 0 || Peek(s, pos) == ')' {
        err := Parenthesis;
        errPos := pos;
        return 0.0;
      }
      if Peek(s, pos) != '\0' {
        err := WrongChar;
        errPos := pos;
        return 0.0;
      }
    }
  }

  /** `wire::eval`: a fresh evaluator, and NaN for every error code. */
  method Eval(s: string) returns (r: Number)
    ensures r == Evaluated(s)
  {
    var evaluator := new ExprEval();
    var result := evaluator.Evaluate(s);
    if evaluator.err == NoError {
      r := Finite(result);
    } else {
      r := NaN;
    }
  }
}
