/**
  The extended element access and editing of `wire::string`: indexing that
  wraps around in both directions, the writable `at`, `pop_*`, `push_*`,
  `front` and `back`, `str`, and the prefix and suffix tests.
*/
module WireString {

  /** C++ `%` on `int`: the remainder takes the sign of the dividend. */
  function TruncRem(a: int, n: int): (r: int)
    requires n > 0
    ensures a >= 0 ==> r == a % n
    ensures a < 0 ==> r == -((-a) % n)
  {
    if a >= 0 then a % n else -((-a) % n)
  }

  /** A product with a positive factor of at least one is at least the other factor. */
  lemma {:induction false} ProductBound(m: int, n: int)
    requires m >= 1 && n > 0
    ensures m * n >= n
  {
    assert m * n == (m - 1) * n + n;
  }

  /** The remainder is the only residue in `[0, n)`. */
  lemma {:induction false} ModUnique(x: int, n: int, q: int, r: int)
    requires n > 0 && 0 <= r < n && x == q * n + r
    ensures x % n == r
  {
    var d := q - x / n;
    assert d * n == x % n - r;
    if d >= 1 {
      ProductBound(d, n);
    } else if d <= -1 {
      ProductBound(-d, n);
    }
  }

  lemma {:induction false} NegativeWrap(pos: int, n: int)
    requires n > 0 && pos < 0
    ensures n - 1 + TruncRem(pos + 1, n) == pos % n
  {
    var a := -(pos + 1);
    var q := a / n;
    var r := a % n;
    assert pos == (-q - 1) * n + (n - 1 - r);
    ModUnique(pos, n, -q - 1, n - 1 - r);
  }

  /**
    The index `at(pos)` reads in a text of `n` characters:
    `pos % n` for `pos >= 0` and `n - 1 + ((pos + 1) % n)` otherwise,
    with the truncating `%` of C++. It is always the mathematical residue
    of `pos` modulo `n`, so counting from the back with -1 is the last
    character.
  */
  function WrapIndex(pos: int, n: int): (i: int)
    requires n > 0
    ensures 0 <= i < n && i == pos % n
  {
    if pos >= 0 then pos % n
    else
      NegativeWrap(pos, n);
      n - 1 + TruncRem(pos + 1, n)
  }

  /** `at(pos)` on a constant text: the wrapped character, '\0' for the empty text. */
  function CharAt(s: string, pos: int): (c: char)
    ensures |s| == 0 ==> c == '\0'
    ensures |s| > 0 ==> c == s[pos % |s|]
  {
    if |s| == 0 then '\0' else s[WrapIndex(pos, |s|)]
  }

  /** Indices that differ by a multiple of the length read the same character. */
  lemma {:induction false} CharAtPeriodic(s: string, pos: int, k: int)
    ensures CharAt(s, pos + k * |s|) == CharAt(s, pos)
  {
    if |s| > 0 {
      var n := |s|;
      var q := pos / n;
      assert pos + k * n == (q + k) * n + pos % n;
      ModUnique(pos + k * n, n, q + k, pos % n);
    }
  }

  /** Counting from the back: `at(-1 - k)` is the `k`-th character from the end. */
  lemma {:induction false} CharAtFromBack(s: string, k: nat)
    requires k < |s|
    ensures CharAt(s, -1 - k) == s[|s| - 1 - k]
  {
    ModUnique(-1 - k, |s|, -1, |s| - 1 - k);
  }

  /** The wrap-around reads of the extended-methods test on "Hi!". */
  lemma {:induction false} HiCycles(s: string)
    requires s == "Hi!"
    ensures CharAt(s, -6) == 'H' && CharAt(s, -5) == 'i' && CharAt(s, -4) == '!'
    ensures CharAt(s, -3) == 'H' && CharAt(s, -2) == 'i' && CharAt(s, -1) == '!'
    ensures CharAt(s, 0) == 'H' && CharAt(s, 1) == 'i' && CharAt(s, 2) == '!'
    ensures CharAt(s, 3) == 'H' && CharAt(s, 4) == 'i' && CharAt(s, 5) == '!'
  {
  }

  /** `str(pre, post)`: the text between a prefix and a suffix. */
  function Str(s: string, pre: string, post: string): (r: string)
    ensures |r| == |pre| + |s| + |post|
    ensures r[..|pre|] == pre && r[|pre|..|pre| + |s|] == s && r[|pre| + |s|..] == post
  {
    pre + s + post
  }

  /** A `wire::string` whose characters are edited in place. */
  class WString {
    var text: string

    constructor (s: string)
      ensures text == s
    {
      text := s;
    }

    /** `at(pos) = c`: overwrite the wrapped character; an empty text is left alone. */
    method SetAt(pos: int, c: char)
      modifies this
      ensures |text| == |old(text)|
      ensures |text| > 0 ==> text == old(text)[pos % |text| := c]
      ensures |text| == 0 ==> text == old(text)
    {
      if |text| > 0 {
        text := text[WrapIndex(pos, |text|) := c];
      }
    }

    /** `pop_back`: drop the last character, if any. */
    method PopBack()
      modifies this
      ensures |old(text)| > 0 ==> text == old(text)[..|old(text)| - 1]
      ensures |old(text)| == 0 ==> text == old(text)
    {
      if |text| > 0 {
        text := text[..|text| - 1];
      }
    }

    /** `pop_front`: drop the first character, if any. */
    method PopFront()
      modifies this
      ensures |old(text)| > 0 ==> text == old(text)[1..]
      ensures |old(text)| == 0 ==> text == old(text)
    {
      if |text| > 0 {
        text := text[1..];
      }
    }

    /** `push_back(t)`, given the text `t` renders as. */
    method PushBack(t: string)
      modifies this
      ensures text == old(text) + t
    {
      text := text + t;
    }

    /** `push_front(t)`, given the text `t` renders as. */
    method PushFront(t: string)
      modifies this
      ensures text == t + old(text)
    {
      text := t + text;
    }

    /** `front()`: `at(0)`, the first character or '\0'. */
    function Front(): (c: char)
      reads this
      ensures |text| > 0 ==> c == text[0]
      ensures |text| == 0 ==> c == '\0'
    {
      CharAt(text, 0)
    }

    /** `back()`: `at(-1)`, the last character or '\0'. */
    function Back(): (c: char)
      reads this
      ensures |text| > 0 ==> c == text[|text| - 1]
      ensures |text| == 0 ==> c == '\0'
    {
      if |text| > 0 then CharAtFromBack(text, 0); CharAt(text, -1) else CharAt(text, -1)
    }
  }

  /** Popping what was pushed restores the text. */
  method PushPopBack(w: WString, c: char)
    modifies w
    ensures w.text == old(w.text)
  {
    w.PushBack([c]);
    w.PopBack();
  }

  /** The editing sequence of the extended-methods test. */
  method HiEdits() returns (r: string)
    ensures r == "Hi?404!Hi?404!"
  {
    var hi := new WString("Hi!");
    hi.SetAt(5, '?');
    assert hi.text == "Hi?";
    hi.PushBack("404");
    hi.PushBack("!");
    hi.PushBack(hi.text);
    r := hi.text;
  }

  // ---------------------------------------------------------------------
  // Prefix and suffix tests
  // ---------------------------------------------------------------------

  /** `starts_with(prefix)` */
  predicate StartsWith(s: string, prefix: string) {
    |s| >= |prefix| && s[..|prefix|] == prefix
  }

  /** `ends_with(suffix)` */
  predicate EndsWith(s: string, suffix: string) {
    |s| >= |suffix| && s[|s| - |suffix|..] == suffix
  }

  lemma {:induction false} StartsWithIff(s: string, prefix: string)
    ensures StartsWith(s, prefix) <==> exists rest :: s == prefix + rest
  {
    if StartsWith(s, prefix) {
      assert s == prefix + s[|prefix|..];
    }
  }

  lemma {:induction false} EndsWithIff(s: string, suffix: string)
    ensures EndsWith(s, suffix) <==> exists rest :: s == rest + suffix
  {
    if EndsWith(s, suffix) {
      assert s == s[..|s| - |suffix|] + suffix;
    }
  }

  /** `toupper` restricted to ASCII letters. */
  function UpperChar(c: char): (u: char)
    ensures 'a' <= c <= 'z' ==> u as int == c as int - 32
    ensures !('a' <= c <= 'z') ==> u == c
  {
    if 'a' <= c <= 'z' then (c as int - 32) as char else c
  }

  /** `uppercase()`, ASCII only. */
  function Upper(s: string): (u: string)
    ensures |u| == |s| && forall k :: 0 <= k < |s| ==> u[k] == UpperChar(s[k])
  {
    seq(|s|, k requires 0 <= k < |s| => UpperChar(s[k]))
  }

  /** `starts_with(prefix, is_case_sensitive)` */
  predicate StartsWithCase(s: string, prefix: string, caseSensitive: bool) {
    if caseSensitive then StartsWith(s, prefix) else StartsWith(Upper(s), Upper(prefix))
  }

  /** `ends_with(suffix, is_case_sensitive)` */
  predicate EndsWithCase(s: string, suffix: string, caseSensitive: bool) {
    if caseSensitive then EndsWith(s, suffix) else EndsWith(Upper(s), Upper(suffix))
  }

  /** A case-insensitive test accepts whatever the case-sensitive one does. */
  lemma {:induction false} CaseInsensitiveWeaker(s: string, w: string)
    ensures StartsWith(s, w) ==> StartsWithCase(s, w, false)
    ensures EndsWith(s, w) ==> EndsWithCase(s, w, false)
  {
    if StartsWith(s, w) {
      assert Upper(s)[..|w|] == Upper(w) by {
        forall k | 0 <= k < |w|
          ensures Upper(s)[..|w|][k] == Upper(w)[k]
        {
          assert s[k] == s[..|w|][k];
        }
      }
    }
    if EndsWith(s, w) {
      var d := |s| - |w|;
      assert Upper(s)[d..] == Upper(w) by {
        forall k | 0 <= k < |w|
          ensures Upper(s)[d..][k] == Upper(w)[k]
        {
          assert s[d + k] == s[d..][k];
        }
      }
    }
  }
}
