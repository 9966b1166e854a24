/**
  Character classes and decimal digit strings, shared by the text-to-number
  conversions and by the number lexer of the expression evaluator.
  Characters stand for the bytes of a C++ `std::string`; the classes are
  those of the "C" locale.
*/
module Decimal {
  import opened Wrappers

  /** C `isspace` in the "C" locale. */
  predicate IsSpace(c: char) {
    c == ' ' || c == '\t' || c == '\n' || c == '\U{000B}' || c == '\U{000C}' || c == '\r'
  }

  predicate IsDigit(c: char) {
    '0' <= c <= '9'
  }

  function DigitValue(c: char): (v: nat)
    requires IsDigit(c)
    ensures v < 10
  {
    (c as int) - ('0' as int)
  }

  function DigitChar(k: nat): (c: char)
    requires k < 10
    ensures IsDigit(c) && DigitValue(c) == k
  {
    (('0' as int) + k) as char
  }

  predicate AllDigits(d: string) {
    forall k :: 0 <= k < |d| ==> IsDigit(d[k])
  }

  /** The number a string of decimal digits denotes (most significant first). */
  function DigitsValue(d: string): nat
    requires AllDigits(d)
  {
    if d == [] then 0 else DigitsValue(d[..|d| - 1]) * 10 + DigitValue(d[|d| - 1])
  }

  /** The shortest decimal rendering of a natural number, as `operator<<` writes it. */
  function Numeral(n: nat): (d: string)
    ensures 1 <= |d| && AllDigits(d)
  {
    if n < 10 then [DigitChar(n)] else Numeral(n / 10) + [DigitChar(n % 10)]
  }

  /** Reading back a rendered number gives the number. */
  lemma {:induction false} NumeralValue(n: nat)
    ensures DigitsValue(Numeral(n)) == n
  {
    var d := Numeral(n);
    if n >= 10 {
      NumeralValue(n / 10);
      assert d[..|d| - 1] == Numeral(n / 10);
    }
  }

  /** End of the maximal run of digits that starts at `i`. */
  function DigitRun(s: string, i: nat): (j: nat)
    requires i <= |s|
    ensures i <= j <= |s| && (j < |s| ==> !IsDigit(s[j]))
    ensures forall k :: i <= k < j ==> IsDigit(s[k])
    decreases |s| - i
  {
    if i < |s| && IsDigit(s[i]) then DigitRun(s, i + 1) else i
  }

  /** The number the digits `s[i..j]` denote, read in place. */
  function DigitsIn(s: string, i: nat, j: nat): nat
    requires i <= j <= |s| && forall k :: i <= k < j ==> IsDigit(s[k])
    decreases j - i
  {
    if j == i then 0 else DigitsIn(s, i, j - 1) * 10 + DigitValue(s[j - 1])
  }

  lemma {:induction false} DigitsInSlice(s: string, i: nat, j: nat)
    requires i <= j <= |s| && forall k :: i <= k < j ==> IsDigit(s[k])
    ensures AllDigits(s[i..j]) && DigitsIn(s, i, j) == DigitsValue(s[i..j])
    decreases j - i
  {
    if j > i {
      DigitsInSlice(s, i, j - 1);
      assert s[i..j][..j - i - 1] == s[i..j - 1];
    }
  }

  /** A run of digits that is followed by a non-digit is exactly what `DigitRun` finds. */
  lemma {:induction false} DigitRunOver(s: string, i: nat, d: string)
    requires i + |d| <= |s| && s[i..i + |d|] == d && AllDigits(d)
    requires i + |d| == |s| || !IsDigit(s[i + |d|])
    ensures DigitRun(s, i) == i + |d|
    decreases |d|
  {
    if d != [] {
      assert s[i] == d[0];
      assert s[i + 1..i + |d|] == d[1..];
      DigitRunOver(s, i + 1, d[1..]);
    }
  }

  // ---------------------------------------------------------------------
  // `strtod`, restricted to decimal literals
  // ---------------------------------------------------------------------

  /** `x` times 10 to the power `e`, one factor of ten at a time. */
  function Scale(x: real, e: int): real
    decreases if e >= 0 then e else -e
  {
    if e == 0 then x
    else if e > 0 then Scale(10.0 * x, e - 1)
    else Scale(x / 10.0, e + 1)
  }

  /** The phases of the `strtod` scanner, in the order the input visits them. */
  datatype Phase = Blanks | Sign | Whole | Fraction | Exponent | ExponentSign | ExponentDigits

  function PhaseRank(ph: Phase): nat {
    match ph
    case Blanks => 6
    case Sign => 5
    case Whole => 4
    case Fraction => 3
    case Exponent => 2
    case ExponentSign => 1
    case ExponentDigits => 0
  }

  /**
    What the scanner has read so far: the sign, the mantissa digits as one
    integer, how many of them follow the point, whether there was any
    mantissa digit, where the mantissa ended (the end to fall back to when
    an exponent has no digits), and the exponent's sign, value and digits.
  */
  datatype Scan = Scan(negative: bool, digits: nat, fractionDigits: nat, anyDigit: bool,
                       mantissaEnd: nat, exponentNegative: bool, exponent: nat, anyExponentDigit: bool)

  /** The number a finished scan denotes. */
  function ScanValue(sc: Scan): real {
    var e := if sc.exponentNegative then -(sc.exponent as int) else sc.exponent as int;
    var m := Scale(sc.digits as real, e - sc.fractionDigits);
    if sc.negative then -m else m
  }

  /**
    The scanner, one character at a time. It returns what it read and the
    end of the longest decimal literal, or `None` when the mantissa has no
    digit. `sc.mantissaEnd` is the end to fall back to, which never lies
    ahead of the cursor.
  */
  function Lex(s: string, i: nat, ph: Phase, sc: Scan): (r: Option<(Scan, nat)>)
    requires sc.mantissaEnd <= i <= |s|
    requires (ph == Blanks || ph == Sign) ==> !sc.anyDigit
    requires (ph == ExponentSign || ph == ExponentDigits) ==> sc.mantissaEnd < i
    ensures r.Some? ==> sc.mantissaEnd <= r.value.1 <= |s|
    decreases |s| - i, PhaseRank(ph)
  {
    var more := i < |s|;
    match ph
    case Blanks =>
      if more && IsSpace(s[i]) then Lex(s, i + 1, Blanks, sc) else Lex(s, i, Sign, sc)
    case Sign =>
      if more && (s[i] == '+' || s[i] == '-') then Lex(s, i + 1, Whole, sc.(negative := s[i] == '-'))
      else Lex(s, i, Whole, sc)
    case Whole =>
      if more && IsDigit(s[i]) then
        Lex(s, i + 1, Whole, sc.(digits := sc.digits * 10 + DigitValue(s[i]), anyDigit := true))
      else if more && s[i] == '.' then Lex(s, i + 1, Fraction, sc)
      else Lex(s, i, Exponent, sc)
    case Fraction =>
      if more && IsDigit(s[i]) then
        Lex(s, i + 1, Fraction, sc.(digits := sc.digits * 10 + DigitValue(s[i]),
                                    fractionDigits := sc.fractionDigits + 1, anyDigit := true))
      else Lex(s, i, Exponent, sc)
    case Exponent =>
      if !sc.anyDigit then None
      else if more && (s[i] == 'e' || s[i] == 'E') then Lex(s, i + 1, ExponentSign, sc.(mantissaEnd := i))
      else Some((sc, i))
    case ExponentSign =>
      if more && (s[i] == '+' || s[i] == '-') then
        Lex(s, i + 1, ExponentDigits, sc.(exponentNegative := s[i] == '-'))
      else Lex(s, i, ExponentDigits, sc)
    case ExponentDigits =>
      if more && IsDigit(s[i]) then
        Lex(s, i + 1, ExponentDigits, sc.(exponent := sc.exponent * 10 + DigitValue(s[i]), anyExponentDigit := true))
      else if sc.anyExponentDigit then Some((sc, i))
      else Some((sc.(exponentNegative := false, exponent := 0), sc.mantissaEnd))
  }

  /**
    `strtod(s + i, &end)` on decimal input: leading white space, an
    optional sign, digits with an optional fraction (at least one digit in
    all), and an optional exponent, which is not consumed without digits.
    `None` when no number starts there (the source then finds `end` left at
    `i`); otherwise the value and the new end, which lies past `i`.
  */
  function Strtod(s: string, i: nat): (r: Option<(real, nat)>)
    requires i <= |s|
    ensures r.Some? ==> i <= r.value.1 <= |s|
  {
    match Lex(s, i, Blanks, Scan(false, 0, 0, false, i, false, 0, false))
    case None => None
    case Some((sc, end)) => Some((ScanValue(sc), end))
  }

  /** At the end of the text `strtod` finds no number. */
  lemma {:induction false} StrtodAtEnd(s: string)
    ensures Strtod(s, |s|).None?
  {
    var sc := Scan(false, 0, 0, false, |s|, false, 0, false);
    assert Lex(s, |s|, Exponent, sc).None?;
    assert Lex(s, |s|, Whole, sc) == Lex(s, |s|, Exponent, sc);
    assert Lex(s, |s|, Sign, sc) == Lex(s, |s|, Whole, sc);
    assert Lex(s, |s|, Blanks, sc) == Lex(s, |s|, Sign, sc);
  }

  /**
    A scan that started at `i0` and succeeds ends past `i0`: a digit was
    read at `i0` or later, and the fallback end lies after that digit.
  */
  lemma {:induction false} LexAdvances(s: string, i0: nat, i: nat, ph: Phase, sc: Scan)
    requires sc.mantissaEnd <= i <= |s|
    requires (ph == Blanks || ph == Sign) ==> !sc.anyDigit
    requires (ph == ExponentSign || ph == ExponentDigits) ==> sc.mantissaEnd < i && i0 < sc.mantissaEnd
    requires i0 <= i && (sc.anyDigit ==> i0 < i)
    ensures Lex(s, i, ph, sc).Some? ==> i0 < Lex(s, i, ph, sc).value.1
    decreases |s| - i, PhaseRank(ph)
  {
    var more := i < |s|;
    match ph
    case Blanks =>
      if more && IsSpace(s[i]) { LexAdvances(s, i0, i + 1, Blanks, sc); } else { LexAdvances(s, i0, i, Sign, sc); }
    case Sign =>
      if more && (s[i] == '+' || s[i] == '-') { LexAdvances(s, i0, i + 1, Whole, sc.(negative := s[i] == '-')); }
      else { LexAdvances(s, i0, i, Whole, sc); }
    case Whole =>
      if more && IsDigit(s[i]) {
        LexAdvances(s, i0, i + 1, Whole, sc.(digits := sc.digits * 10 + DigitValue(s[i]), anyDigit := true));
      } else if more && s[i] == '.' { LexAdvances(s, i0, i + 1, Fraction, sc); }
      else { LexAdvances(s, i0, i, Exponent, sc); }
    case Fraction =>
      if more && IsDigit(s[i]) {
        LexAdvances(s, i0, i + 1, Fraction, sc.(digits := sc.digits * 10 + DigitValue(s[i]),
                                                fractionDigits := sc.fractionDigits + 1, anyDigit := true));
      } else { LexAdvances(s, i0, i, Exponent, sc); }
    case Exponent =>
      if sc.anyDigit && more && (s[i] == 'e' || s[i] == 'E') {
        LexAdvances(s, i0, i + 1, ExponentSign, sc.(mantissaEnd := i));
      }
    case ExponentSign =>
      if more && (s[i] == '+' || s[i] == '-') {
        LexAdvances(s, i0, i + 1, ExponentDigits, sc.(exponentNegative := s[i] == '-'));
      } else { LexAdvances(s, i0, i, ExponentDigits, sc); }
    case ExponentDigits =>
      if more && IsDigit(s[i]) {
        LexAdvances(s, i0, i + 1, ExponentDigits, sc.(exponent := sc.exponent * 10 + DigitValue(s[i]), anyExponentDigit := true));
      }
  }

  /** `strtod` consumes at least one character whenever it finds a number. */
  lemma {:induction false} StrtodAdvances(s: string, i: nat)
    requires i <= |s|
    ensures Strtod(s, i).Some? ==> i < Strtod(s, i).value.1
  {
    LexAdvances(s, i, i, Blanks, Scan(false, 0, 0, false, i, false, 0, false));
  }

  /** Mantissa digits accumulate into the number they denote. */
  lemma {:induction false} LexWhole(s: string, i0: nat, i: nat, d: string, sc: Scan)
    requires i0 <= i <= i0 + |d| <= |s| && s[i0..i0 + |d|] == d && AllDigits(d)
    requires sc.digits == DigitsValue(d[..i - i0]) && sc.anyDigit == (i > i0) && sc.mantissaEnd <= i0
    ensures Lex(s, i, Whole, sc) == Lex(s, i0 + |d|, Whole, sc.(digits := DigitsValue(d), anyDigit := |d| > 0))
    decreases i0 + |d| - i
  {
    if i < i0 + |d| {
      assert s[i] == d[i - i0];
      assert d[..i - i0 + 1][..i - i0] == d[..i - i0];
      LexWhole(s, i0, i + 1, d, sc.(digits := sc.digits * 10 + DigitValue(s[i]), anyDigit := true));
    } else {
      assert d[..i - i0] == d;
    }
  }

  /**
    A rendered number followed by a character that cannot continue a
    literal is read back as that number, and exactly its digits are consumed.
  */
  lemma {:induction false} StrtodNumeral(s: string, i: nat, n: nat)
    requires i + |Numeral(n)| <= |s| && s[i..i + |Numeral(n)|] == Numeral(n)
    requires var e := i + |Numeral(n)|;
      e == |s| || (!IsDigit(s[e]) && s[e] != '.' && s[e] != 'e' && s[e] != 'E')
    ensures Strtod(s, i) == Some((n as real, i + |Numeral(n)|))
  {
    var d := Numeral(n);
    var sc := Scan(false, 0, 0, false, i, false, 0, false);
    assert s[i] == d[0];
    assert d[..0] == [];
    assert Lex(s, i, Blanks, sc) == Lex(s, i, Whole, sc);
    LexWhole(s, i, i, d, sc);
    NumeralValue(n);
    var sc' := sc.(digits := n, anyDigit := true);
    var end: nat := i + |d|;
    assert Lex(s, end, Whole, sc') == Some((sc', end));
    assert ScanValue(sc') == n as real;
  }
}
