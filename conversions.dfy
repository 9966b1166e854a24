/**
  The text-to-value conversion `as<T>` of `wire::string` for `bool`, `int`
  and `char`. The generic conversion reads the text with `istream >>`;
  when that fails, the value is 1 exactly when the text is non-empty and
  neither "0" nor "false". The `char` conversion returns the only
  character of a one-character text, and otherwise narrows the `int`
  conversion to a byte.
*/
module Conversions {
  import opened Wrappers
  import opened Decimal

  const IntMin: int := -0x8000_0000
  const IntMax: int := 0x7fff_ffff

  predicate IsInt32(n: int) {
    IntMin <= n <= IntMax
  }

  /** The cursor after the white space that `operator>>` skips. */
  function SkipWhite(s: string, i: nat): (j: nat)
    requires i <= |s|
    ensures i <= j <= |s| && (j < |s| ==> !IsSpace(s[j]))
    ensures forall k :: i <= k < j ==> IsSpace(s[k])
    decreases |s| - i
  {
    if i < |s| && IsSpace(s[i]) then SkipWhite(s, i + 1) else i
  }

  /**
    What `istream >> long` extracts: white space, an optional sign and at
    least one decimal digit; reading stops at the first non-digit. `None`
    when no digit follows the sign.
  */
  function LeadingInteger(s: string): Option<int> {
    var i := SkipWhite(s, 0);
    var negative := i < |s| && s[i] == '-';
    var j := if i < |s| && (s[i] == '-' || s[i] == '+') then i + 1 else i;
    var k := DigitRun(s, j);
    var magnitude: int := DigitsIn(s, j, k);
    if k == j then None
    else Some(if negative then -magnitude else magnitude)
  }

  /** The fallback of `as<T>`: non-empty and neither "0" nor "false". */
  predicate IsTrue(s: string) {
    |s| > 0 && s != "0" && s != "false"
  }

  /**
    `as<bool>`: the stream reads a number and accepts exactly 0 and 1;
    any other number, or none, falls back to `IsTrue`.
  */
  function AsBool(s: string): (b: bool)
    ensures s == [] ==> !b
    ensures LeadingInteger(s).None? ==> b == IsTrue(s)
  {
    var n := LeadingInteger(s);
    if n == Some(0) then false
    else if n == Some(1) then true
    else IsTrue(s)
  }

  /**
    `as<int>`: the number read when it fits in 32 bits; otherwise (no
    number, or one out of range) the fallback 0 or 1.
  */
  function AsInt(s: string): (n: int)
    ensures IsInt32(n)
    ensures LeadingInteger(s).None? ==> n == (if IsTrue(s) then 1 else 0)
  {
    var n := LeadingInteger(s);
    if n.Some? && IsInt32(n.value) then n.value
    else if IsTrue(s) then 1 else 0
  }

  /** `(char)(t)`: the low byte of an integer. */
  function LowByte(t: int): (c: char)
    ensures (c as int) < 256 && (c as int) % 256 == t % 256
  {
    (t % 256) as char
  }

  /** `as<char>`: a one-character text is that character; otherwise the low byte of `as<int>`. */
  function AsChar(s: string): (c: char)
    ensures (c as int) < 256 || |s| == 1
    ensures |s| != 1 ==> (c as int) == AsInt(s) % 256
  {
    if |s| == 1 then s[0] else LowByte(AsInt(s))
  }

  // ---------------------------------------------------------------------
  // Renderings and round trips
  // ---------------------------------------------------------------------

  /** How a stream writes an integer: an optional '-' and the shortest digits. */
  function IntText(n: int): (t: string)
    ensures |t| > 0
  {
    if n < 0 then "-" + Numeral(-n) else Numeral(n)
  }

  /** How `wire::string(bool)` writes a truth value. */
  function BoolText(b: bool): string {
    if b then "true" else "false"
  }

  /** The digits of a rendered number are read back whole, whatever follows them. */
  lemma {:induction false} DigitsReadBack(s: string, j: nat, n: nat)
    requires j + |Numeral(n)| <= |s| && s[j..j + |Numeral(n)|] == Numeral(n)
    requires j + |Numeral(n)| == |s| || !IsDigit(s[j + |Numeral(n)|])
    ensures DigitRun(s, j) == j + |Numeral(n)| && DigitsIn(s, j, j + |Numeral(n)|) == n
  {
    var d := Numeral(n);
    DigitRunOver(s, j, d);
    DigitsInSlice(s, j, j + |d|);
    NumeralValue(n);
  }

  /** An integer followed by a non-digit is what `istream >>` reads. */
  lemma {:induction false} LeadingIntText(n: int, rest: string)
    requires rest == [] || (!IsDigit(rest[0]))
    ensures LeadingInteger(IntText(n) + rest) == Some(n)
  {
    var s := IntText(n) + rest;
    var m: nat := if n < 0 then -n else n;
    var j := if n < 0 then 1 else 0;
    assert s[j..j + |Numeral(m)|] == Numeral(m);
    assert j + |Numeral(m)| == |s| || s[j + |Numeral(m)|] == rest[0];
    DigitsReadBack(s, j, m);
    assert !IsSpace(s[0]);
  }

  /** `as<int>` reads back every 32-bit integer a stream writes. */
  lemma {:induction false} IntRoundTrip(n: int)
    requires IsInt32(n)
    ensures AsInt(IntText(n)) == n
  {
    LeadingIntText(n, []);
    assert IntText(n) + [] == IntText(n);
  }

  /** `as<bool>` of a written integer is whether it is non-zero. */
  lemma {:induction false} BoolOfInt(n: int)
    ensures AsBool(IntText(n)) == (n != 0)
  {
    LeadingIntText(n, []);
    assert IntText(n) + [] == IntText(n);
    if n != 0 && n != 1 {
      assert IntText(n) != "0" by {
        if n < 0 {
          assert IntText(n)[0] == '-';
        } else {
          NumeralValue(n);
        }
      }
      assert IntText(n) != "false" by {
        assert IsDigit(Numeral(if n < 0 then -n else n)[0]);
      }
    }
  }

  /** `as<bool>` reads back the words `wire::string(bool)` writes. */
  lemma {:induction false} BoolRoundTrip(b: bool)
    ensures AsBool(BoolText(b)) == b
  {
    var s := BoolText(b);
    assert SkipWhite(s, 0) == 0;
    assert DigitRun(s, 0) == 0;
  }

  /** `as<char>` of a one-character text is that character. */
  lemma {:induction false} CharRoundTrip(c: char)
    ensures AsChar([c]) == c
  {
  }

  /** `as<char>` of a written byte value of two or more digits is that byte. */
  lemma {:induction false} CharOfCode(n: nat)
    requires 10 <= n < 256
    ensures AsChar(IntText(n)) == n as char
  {
    IntRoundTrip(n);
    assert |IntText(n)| != 1 by {
      assert IntText(n) == Numeral(n / 10) + [DigitChar(n % 10)];
    }
  }

  /**
    `as<bool>` agrees with `as<int>` compared with zero: the numbers
    other than 0 and 1 that the stream refuses as a `bool` fall back to
    true, and so does a number outside 32 bits that `as<int>` refuses.
  */
  lemma {:induction false} BoolIsNonZero(s: string)
    ensures AsBool(s) == (AsInt(s) != 0)
  {
    var n := LeadingInteger(s);
    if n.Some? && n.value != 0 {
      NumberIsTrue(s);
    }
  }

  /** A text from which a number other than 0 is read is true for the fallback. */
  lemma {:induction false} NumberIsTrue(s: string)
    requires LeadingInteger(s).Some? && LeadingInteger(s) != Some(0)
    ensures IsTrue(s)
  {
    ZeroRead("0");
  }

  /** The stream reads 0 from "0". */
  lemma {:induction false} ZeroRead(z: string)
    requires z == "0"
    ensures LeadingInteger(z) == Some(0)
  {
    assert SkipWhite(z, 0) == 0 && DigitRun(z, 0) == 1 && DigitsIn(z, 0, 1) == 0;
  }

  /**
    Texts that are not a single character are narrowed to their low byte:
    "-1" gives '\xff', and the words `wire::string(bool)` writes give
    '\x01' and '\0'.
  */
  lemma {:induction false} NarrowedChars(m: string, t: string, f: string)
    requires m == "-1" && t == BoolText(true) && f == BoolText(false)
    ensures AsChar(m) == 255 as char && AsChar(t) == 1 as char && AsChar(f) == 0 as char
  {
    assert Numeral(1) == "1";
    assert IntText(-1) == m;
    IntRoundTrip(-1);
    assert SkipWhite(t, 0) == 0 && DigitRun(t, 0) == 0;
    assert SkipWhite(f, 0) == 0 && DigitRun(f, 0) == 0;
  }

  /** An empty text converts to false, 0 and '\0'. */
  lemma {:induction false} EmptyConversions()
    ensures !AsBool("") && AsInt("") == 0 && AsChar("") == '\0'
  {
  }

  /** Reading stops at the decimal point: `as<int>` of "-456.123" is -456. */
  lemma {:induction false} TruncatedReal(s: string, rest: string)
    requires s == "-456.123" && rest == ".123"
    ensures AsInt(s) == -456
  {
    assert Numeral(456) == "456" by {
      assert Numeral(4) == "4";
      assert Numeral(45) == "45";
    }
    assert s == IntText(-456) + rest;
    LeadingIntText(-456, rest);
  }
}
