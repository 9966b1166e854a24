/**
  Safe positional formatting of `wire::string`: the constructors
  `string(fmt, t1, …, tk)` render each argument to text, put the texts in
  an array behind an empty accumulator and let `formatsafe` walk the
  format. A format character with code `k` between 1 and k appends the
  text of argument `k`, code 0 appends the accumulator to itself, and a
  code above the array size is copied literally.
*/
module Format {

  /**
    A format character is safe for `args` unless its code is the array
    size `|args| + 1`, which would index one past the array.
  */
  predicate Safe(fmt: string, args: seq<string>) {
    forall k :: 0 <= k < |fmt| ==> fmt[k] as int != |args| + 1
  }

  /** What one format character makes of the accumulator. */
  function Step(acc: string, c: char, args: seq<string>): string
    requires c as int != |args| + 1
  {
    if c as int > |args| + 1 then acc + [c]
    else if c as int == 0 then acc + acc
    else acc + args[c as int - 1]
  }

  /** The accumulator after the format has been read, starting from `acc`. */
  function FormatFrom(acc: string, fmt: string, args: seq<string>): string
    requires Safe(fmt, args)
    decreases |fmt|
  {
    if fmt == [] then acc
    else
      var p := fmt[..|fmt| - 1];
      assert forall k :: 0 <= k < |p| ==> p[k] == fmt[k];
      Step(FormatFrom(acc, p, args), fmt[|fmt| - 1], args)
  }

  /**
    `formatsafe(fmt, t)`: `t[0]` accumulates the result, `t[1..]` holds the
    argument texts. The arguments are left as they are.
  */
  method FormatSafe(fmt: string, t: array<string>) returns (r: string)
    requires t.Length >= 2 && Safe(fmt, t[1..])
    modifies t
    ensures t[1..] == old(t[1..])
    ensures r == t[0] == FormatFrom(old(t[0]), fmt, old(t[1..]))
  {
    ghost var args := t[1..];
    ghost var acc := t[0];
    for i := 0 to |fmt|
      invariant t[1..] == args
      invariant Safe(fmt[..i], args) && t[0] == FormatFrom(acc, fmt[..i], args)
    {
      var c := fmt[i];
      assert fmt[..i + 1][..i] == fmt[..i];
      if c as int > t.Length {
        t[0] := t[0] + [c];
      } else {
        assert t[c as int] == if c as int == 0 then t[0] else args[c as int - 1];
        t[0] := t[0] + t[c as int];
      }
    }
    assert fmt[..|fmt|] == fmt;
    r := t[0];
  }

  /** `string(fmt, t1, …, tk)` for one to seven arguments, given the texts they render as. */
  method FromFormat(fmt: string, args: seq<string>) returns (s: string)
    requires 1 <= |args| <= 7 && Safe(fmt, args)
    ensures s == FormatFrom([], fmt, args)
  {
    var t := new string[|args| + 1];
    t[0] := [];
    for n := 0 to |args|
      invariant t[0] == [] && forall m :: 0 <= m < n ==> t[m + 1] == args[m]
    {
      t[n + 1] := args[n];
    }
    assert t[1..] == args;
    s := FormatSafe(fmt, t);
  }

  // ---------------------------------------------------------------------
  // A reference reading of a format without NUL
  // ---------------------------------------------------------------------

  /** What a format character other than NUL stands for. */
  function Piece(c: char, args: seq<string>): string
    requires c as int != 0 && c as int != |args| + 1
  {
    if c as int > |args| + 1 then [c] else args[c as int - 1]
  }

  /** A format without NUL and without the unsafe code. */
  predicate Plain(fmt: string, args: seq<string>) {
    forall k :: 0 <= k < |fmt| ==> fmt[k] as int != 0 && fmt[k] as int != |args| + 1
  }

  /** The pieces of a plain format, concatenated left to right. */
  function Expand(fmt: string, args: seq<string>): string
    requires Plain(fmt, args)
    decreases |fmt|
  {
    if fmt == [] then []
    else
      assert forall k :: 0 <= k < |fmt[1..]| ==> fmt[1..][k] == fmt[k + 1];
      Piece(fmt[0], args) + Expand(fmt[1..], args)
  }

  lemma {:induction false} PlainPrefix(fmt: string, n: nat, args: seq<string>)
    requires Plain(fmt, args) && n <= |fmt|
    ensures Plain(fmt[..n], args) && Safe(fmt[..n], args) && Safe(fmt, args)
  {
    assert forall k :: 0 <= k < n ==> fmt[..n][k] == fmt[k];
  }

  /** Expanding a format with one more character appends that character's piece. */
  lemma {:induction false} ExpandSnoc(p: string, c: char, args: seq<string>)
    requires Plain(p, args) && c as int != 0 && c as int != |args| + 1
    ensures Plain(p + [c], args) && Expand(p + [c], args) == Expand(p, args) + Piece(c, args)
    decreases |p|
  {
    var q := p + [c];
    assert forall k :: 0 <= k < |p| ==> q[k] == p[k];
    if p != [] {
      PlainPrefix(p, |p|, args);
      assert forall k :: 0 <= k < |p[1..]| ==> p[1..][k] == p[k + 1];
      assert q[1..] == p[1..] + [c];
      assert q[0] == p[0];
      ExpandSnoc(p[1..], c, args);
    } else {
      assert q[1..] == [];
    }
  }

  /**
    Without NUL the accumulator only ever grows by pieces: the result
    appended to the starting accumulator is the left-to-right
    concatenation of the pieces.
  */
  lemma {:induction false} FormatExpands(acc: string, fmt: string, args: seq<string>)
    requires Plain(fmt, args)
    ensures Safe(fmt, args) && FormatFrom(acc, fmt, args) == acc + Expand(fmt, args)
    decreases |fmt|
  {
    PlainPrefix(fmt, |fmt|, args);
    if fmt != [] {
      var p := fmt[..|fmt| - 1];
      var c := fmt[|fmt| - 1];
      assert fmt == p + [c];
      PlainPrefix(fmt, |fmt| - 1, args);
      FormatExpands(acc, p, args);
      ExpandSnoc(p, c, args);
    }
  }

  /** A format whose every code lies above the array size is copied unchanged. */
  lemma {:induction false} LiteralFormat(fmt: string, args: seq<string>)
    requires forall k :: 0 <= k < |fmt| ==> fmt[k] as int > |args| + 1
    ensures Plain(fmt, args) && Expand(fmt, args) == fmt
    decreases |fmt|
  {
    if fmt != [] {
      LiteralFormat(fmt[1..], args);
      assert [fmt[0]] + fmt[1..] == fmt;
    }
  }

  /** A NUL in the format doubles what has been produced so far. */
  lemma {:induction false} NulDoubles(pre: string, args: seq<string>)
    requires Plain(pre, args)
    ensures Safe(pre, args) && Safe(pre + ['\0'], args)
    ensures FormatFrom([], pre + ['\0'], args) == Expand(pre, args) + Expand(pre, args)
  {
    var q := pre + ['\0'];
    PlainPrefix(pre, |pre|, args);
    assert q[..|q| - 1] == pre;
    FormatExpands([], pre, args);
  }

  /** Reading a format in two parts: the first part's accumulator starts the second. */
  lemma {:induction false} FormatFold(acc: string, a: string, b: string, args: seq<string>)
    requires Safe(a, args) && Safe(b, args)
    ensures Safe(a + b, args) && FormatFrom(acc, a + b, args) == FormatFrom(FormatFrom(acc, a, args), b, args)
    decreases |b|
  {
    var q := a + b;
    assert forall k :: 0 <= k < |q| ==> q[k] == if k < |a| then a[k] else b[k - |a|];
    if b == [] {
      assert q == a;
    } else {
      var p := b[..|b| - 1];
      assert forall k :: 0 <= k < |p| ==> p[k] == b[k];
      assert q[..|q| - 1] == a + p;
      FormatFold(acc, a, p, args);
    }
  }

  /** Literal text followed by a reference to argument `k` appends the text, then the argument. */
  lemma {:induction false} FormatThenArgument(acc: string, pre: string, text: string, c: char, args: seq<string>)
    requires Safe(pre, args) && 1 <= c as int <= |args|
    requires forall j :: 0 <= j < |text| ==> text[j] as int > |args| + 1
    ensures Safe(pre + text + [c], args)
    ensures FormatFrom(acc, pre + text + [c], args) == FormatFrom(acc, pre, args) + text + args[c as int - 1]
  {
    LiteralThenArgument(text, c, args);
    FormatExpands(FormatFrom(acc, pre, args), text + [c], args);
    FormatFold(acc, pre, text + [c], args);
    assert pre + text + [c] == pre + (text + [c]);
  }

  // ---------------------------------------------------------------------
  // Expanding plain formats piece by piece
  // ---------------------------------------------------------------------

  /** Expansion distributes over concatenation of plain formats. */
  lemma {:induction false} ExpandAppend(a: string, b: string, args: seq<string>)
    requires Plain(a, args) && Plain(b, args)
    ensures Plain(a + b, args) && Expand(a + b, args) == Expand(a, args) + Expand(b, args)
    decreases |a|
  {
    var q := a + b;
    assert forall k :: 0 <= k < |q| ==> q[k] == if k < |a| then a[k] else b[k - |a|];
    if a != [] {
      assert forall k :: 0 <= k < |a[1..]| ==> a[1..][k] == a[k + 1];
      assert q[1..] == a[1..] + b;
      ExpandAppend(a[1..], b, args);
    } else {
      assert q == b;
    }
  }

  /** One argument reference expands to that argument's text. */
  lemma {:induction false} ExpandArgument(c: char, args: seq<string>)
    requires 1 <= c as int <= |args|
    ensures Plain([c], args) && Expand([c], args) == args[c as int - 1]
  {
    assert [c][1..] == [];
  }

  /** A literal piece of format followed by one argument reference. */
  lemma {:induction false} LiteralThenArgument(text: string, c: char, args: seq<string>)
    requires 1 <= c as int <= |args|
    requires forall j :: 0 <= j < |text| ==> text[j] as int > |args| + 1
    ensures Plain(text + [c], args) && Expand(text + [c], args) == text + args[c as int - 1]
  {
    LiteralFormat(text, args);
    ExpandArgument(c, args);
    ExpandAppend(text, [c], args);
  }

  // ---------------------------------------------------------------------
  // The safe constructor tests
  // ---------------------------------------------------------------------

  lemma {:induction false} HelloWorld(hello: string, args: seq<string>)
    requires hello == "hello " && args == ["world"]
    ensures Safe(hello + "\U{1}", args)
    ensures FormatFrom([], hello + "\U{1}", args) == hello + "world"
  {
    FormatThenArgument([], [], hello, '\U{1}', args);
    assert [] + hello + "\U{1}" == hello + "\U{1}";
  }

  lemma {:induction false} HelloTrueWorld(hello: string, args: seq<string>)
    requires hello == "hello " && args == ["world", "true"]
    ensures Safe(hello + "\U{2}" + " " + "\U{1}", args)
    ensures FormatFrom([], hello + "\U{2}" + " " + "\U{1}", args) == hello + "true" + " " + "world"
  {
    FormatThenArgument([], [], hello, '\U{2}', args);
    assert [] + hello + "\U{2}" == hello + "\U{2}";
    FormatThenArgument([], hello + "\U{2}", " ", '\U{1}', args);
  }

  lemma {:induction false} HelloBraces(hello: string, args: seq<string>)
    requires hello == "hello " && args == ["{", "world", "}"]
    ensures Safe(hello + "\U{1}" + "\U{2}" + "\U{3}", args)
    ensures FormatFrom([], hello + "\U{1}" + "\U{2}" + "\U{3}", args) == hello + "{" + "world" + "}"
  {
    FormatThenArgument([], [], hello, '\U{1}', args);
    assert [] + hello + "\U{1}" == hello + "\U{1}";
    FormatThenArgument([], hello + "\U{1}", [], '\U{2}', args);
    assert hello + "\U{1}" + [] == hello + "\U{1}";
    FormatThenArgument([], hello + "\U{1}" + "\U{2}", [], '\U{3}', args);
    assert hello + "\U{1}" + "\U{2}" + [] == hello + "\U{1}" + "\U{2}";
  }

  /**
    The seven-argument test, with the arguments given as the texts they
    render as; the argument text "\U{1}" is copied, not read as a reference.
  */
  lemma {:induction false} SevenArguments(hello: string, args: seq<string>)
    requires hello == "hello "
    requires args == ["world", "3.14159", "3.14159", "false", "\U{1}", "hello {world}", "0"]
    ensures var fmt := hello + "\U{1}" + " " + "\U{2}" + " " + "\U{3}" + " " + "\U{4}"
                       + " " + "\U{5}" + " " + "\U{6}" + " " + "\U{7}";
      Safe(fmt, args) &&
      FormatFrom([], fmt, args) == hello + "world" + " " + "3.14159" + " " + "3.14159" + " " + "false"
                                   + " " + "\U{1}" + " " + "hello {world}" + " " + "0"
  {
    var f1 := hello + "\U{1}";
    FormatThenArgument([], [], hello, '\U{1}', args);
    assert [] + hello + "\U{1}" == f1;
    var f2 := f1 + " " + "\U{2}";
    FormatThenArgument([], f1, " ", '\U{2}', args);
    var f3 := f2 + " " + "\U{3}";
    FormatThenArgument([], f2, " ", '\U{3}', args);
    var f4 := f3 + " " + "\U{4}";
    FormatThenArgument([], f3, " ", '\U{4}', args);
    var f5 := f4 + " " + "\U{5}";
    FormatThenArgument([], f4, " ", '\U{5}', args);
    var f6 := f5 + " " + "\U{6}";
    FormatThenArgument([], f5, " ", '\U{6}', args);
    FormatThenArgument([], f6, " ", '\U{7}', args);
  }
}
