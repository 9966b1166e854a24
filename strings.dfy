/**
  `wire::strings`, a list of texts: the wrapping `at` and `str`, which
  lays the list out one formatted line per element between a prefix and
  a suffix.
*/
module StringList {
  import opened WireString
  import opened Format
  import opened Glob

  /** `at(pos)` on a constant list: the wrapped element, the empty text for an empty list. */
  function ListAt(xs: seq<string>, pos: int): (r: string)
    ensures |xs| == 0 ==> r == []
    ensures |xs| > 0 ==> r == xs[pos % |xs|]
  {
    if |xs| == 0 then [] else xs[WrapIndex(pos, |xs|)]
  }

  /** Counting from the back: `at(-1 - k)` is the `k`-th element from the end. */
  lemma {:induction false} ListAtFromBack(xs: seq<string>, k: nat)
    requires k < |xs|
    ensures ListAt(xs, -1 - k) == xs[|xs| - 1 - k]
  {
    ModUnique(-1 - k, |xs|, -1, |xs| - 1 - k);
  }

  /** Positions that differ by a multiple of the length name the same element. */
  lemma {:induction false} ListAtPeriodic(xs: seq<string>, pos: int, k: int)
    ensures ListAt(xs, pos + k * |xs|) == ListAt(xs, pos)
  {
    if |xs| > 0 {
      var n := |xs|;
      var q := pos / n;
      assert pos + k * n == (q + k) * n + pos % n;
      ModUnique(pos + k * n, n, q + k, pos % n);
    }
  }

  /** A `wire::strings` whose elements are written through `at`. */
  class Strings {
    var items: seq<string>

    constructor (xs: seq<string>)
      ensures items == xs
    {
      items := xs;
    }

    /**
      `at(pos) = t`: overwrite the wrapped element. On an empty list the
      reference handed out belongs to a scratch text, so the list is left alone.
    */
    method SetAt(pos: int, t: string)
      modifies this
      ensures |items| == |old(items)|
      ensures |items| > 0 ==> items == old(items)[pos % |items| := t]
      ensures |items| == 0 ==> items == old(items)
    {
      if |items| > 0 {
        items := items[WrapIndex(pos, |items|) := t];
      }
    }
  }

  /** A format fit for one argument: no character has the code 2, the size of its array. */
  predicate SafeForOne(fmt: string) {
    forall k :: 0 <= k < |fmt| ==> fmt[k] as int != 2
  }

  /** The elements, each formatted as `string(fmt, element)`, one after the other. */
  function Each(xs: seq<string>, fmt: string): string
    requires SafeForOne(fmt)
    decreases |xs|
  {
    if xs == [] then []
    else Each(xs[..|xs| - 1], fmt) + FormatFrom([], fmt, [xs[|xs| - 1]])
  }

  /**
    What `str(format1, pre, post)` returns: a list of exactly one element
    is that element alone; otherwise the prefix, every element formatted
    with the C string `format1`, and the suffix.
  */
  function Listed(xs: seq<string>, format1: string, pre: string, post: string): string
    requires SafeForOne(CStr(format1))
  {
    if |xs| == 1 then xs[0] else pre + Each(xs, CStr(format1)) + post
  }

  /** `strings::str(format1, pre, post)` */
  method Str(xs: seq<string>, format1: string, pre: string, post: string) returns (out: string)
    requires SafeForOne(CStr(format1))
    ensures out == Listed(xs, format1, pre, post)
  {
    if |xs| == 1 {
      return xs[0];
    }
    var fmt := CStr(format1);
    out := pre;
    for i := 0 to |xs|
      invariant out == pre + Each(xs[..i], fmt)
    {
      assert xs[..i + 1][..i] == xs[..i];
      var line := FromFormat(fmt, [xs[i]]);
      out := out + line;
    }
    assert xs[..|xs|] == xs;
    out := out + post;
  }

  // ---------------------------------------------------------------------
  // The default layout
  // ---------------------------------------------------------------------

  /** Every element followed by a line break. */
  function Lines(xs: seq<string>): string
    decreases |xs|
  {
    if xs == [] then [] else xs[0] + "\n" + Lines(xs[1..])
  }

  lemma {:induction false} LinesSnoc(xs: seq<string>, x: string)
    ensures Lines(xs + [x]) == Lines(xs) + x + "\n"
    decreases |xs|
  {
    var ys := xs + [x];
    if xs == [] {
      assert ys[1..] == [];
    } else {
      assert ys[0] == xs[0] && ys[1..] == xs[1..] + [x];
      LinesSnoc(xs[1..], x);
    }
  }

  /** The default format "\U{1}\n" gives an element followed by a line break. */
  lemma {:induction false} DefaultLine(fmt: string, x: string)
    requires fmt == "\U{1}\n"
    ensures SafeForOne(fmt) && FormatFrom([], fmt, [x]) == x + "\n"
  {
    FormatThenArgument([], [], [], '\U{1}', [x]);
    assert [] + [] + "\U{1}" == "\U{1}";
    LiteralFormat("\n", [x]);
    FormatExpands(x, "\n", [x]);
    FormatFold([], "\U{1}", "\n", [x]);
    assert "\U{1}" + "\n" == fmt;
  }

  /** With the default format every element becomes a line of its own. */
  lemma {:induction false} EachDefault(xs: seq<string>, fmt: string)
    requires fmt == "\U{1}\n"
    ensures SafeForOne(fmt) && Each(xs, fmt) == Lines(xs)
    decreases |xs|
  {
    DefaultLine(fmt, "");
    if xs != [] {
      var p := xs[..|xs| - 1];
      var x := xs[|xs| - 1];
      assert xs == p + [x];
      EachDefault(p, fmt);
      DefaultLine(fmt, x);
      LinesSnoc(p, x);
    }
  }

  /**
    `str()` with its defaults: one element is returned as it is, any other
    list, the empty one included, is printed one element per line.
  */
  lemma {:induction false} DefaultStr(xs: seq<string>, format1: string)
    requires format1 == "\U{1}\n"
    ensures SafeForOne(CStr(format1))
    ensures Listed(xs, format1, [], []) == if |xs| == 1 then xs[0] else Lines(xs)
  {
    CStrWhole(format1);
    EachDefault(xs, format1);
  }

  /** The prefix and suffix surround every layout but that of a single element. */
  lemma {:induction false} FramedStr(xs: seq<string>, format1: string, pre: string, post: string)
    requires SafeForOne(CStr(format1)) && |xs| != 1
    ensures var s := Listed(xs, format1, pre, post);
      |s| >= |pre| + |post| && s[..|pre|] == pre && s[|s| - |post|..] == post
  {
    var s := Listed(xs, format1, pre, post);
    var mid := Each(xs, CStr(format1));
    assert s == pre + mid + post;
    assert s[..|pre|] == pre;
    assert s[|s| - |post|..] == post;
  }
}
