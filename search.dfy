/**
  Searching in a `wire::string`: `count`, `replace`, `left_of` and
  `right_of`, all built on `std::string::find`. `count` and `replace`
  run a cursor through the text and never look back, so occurrences are
  counted and replaced left to right without overlapping, and replaced
  text is never searched again.
*/
module Search {
  import opened Wrappers

  /** `w` occurs in `s` at `i`. */
  predicate OccursAt(s: string, w: string, i: nat) {
    i + |w| <= |s| && forall k :: 0 <= k < |w| ==> s[i + k] == w[k]
  }

  /** `find(w, from)`: the first occurrence at or after `from`; `None` stands for `npos`. */
  function Find(s: string, w: string, from: nat): (r: Option<nat>)
    ensures r.Some? ==> from <= r.value && r.value + |w| <= |s|
    decreases |s| - from
  {
    if from + |w| > |s| then None
    else if OccursAt(s, w, from) then Some(from)
    else Find(s, w, from + 1)
  }

  /** `find` returns the first occurrence at or after `from`, and `npos` only when there is none. */
  lemma {:induction false} FindFirst(s: string, w: string, from: nat)
    ensures Find(s, w, from).Some? ==> OccursAt(s, w, Find(s, w, from).value)
    ensures Find(s, w, from).Some? ==> forall j :: from <= j < Find(s, w, from).value ==> !OccursAt(s, w, j)
    ensures Find(s, w, from).None? ==> forall j :: from <= j ==> !OccursAt(s, w, j)
    decreases |s| - from
  {
    if from + |w| <= |s| && !OccursAt(s, w, from) {
      FindFirst(s, w, from + 1);
    }
  }

  /** An occurrence is a slice equal to the searched text. */
  lemma {:induction false} OccursSlice(s: string, w: string, i: nat)
    requires OccursAt(s, w, i)
    ensures s[i..i + |w|] == w
  {
    assert forall k :: 0 <= k < |w| ==> s[i..i + |w|][k] == w[k];
  }

  /** Searching a suffix finds the same occurrences, shifted. */
  lemma {:induction false} FindInSuffix(s: string, w: string, from: nat)
    requires from <= |s|
    ensures Find(s, w, from).None? <==> Find(s[from..], w, 0).None?
    ensures Find(s, w, from).Some? ==> Find(s, w, from).value == from + Find(s[from..], w, 0).value
  {
    var t := s[from..];
    forall j: nat
      ensures OccursAt(s, w, from + j) <==> OccursAt(t, w, j)
    {
      if from + j + |w| <= |s| {
        assert forall k :: 0 <= k < |w| ==> (t[j + k] == w[k] <==> s[from + j + k] == w[k]);
      }
    }
    FindFirst(s, w, from);
    FindFirst(t, w, 0);
    var a := Find(s, w, from);
    var b := Find(t, w, 0);
    if a.Some? {
      assert OccursAt(t, w, a.value - from);
    }
    if b.Some? {
      assert OccursAt(s, w, from + b.value);
    }
  }

  // ---------------------------------------------------------------------
  // count
  // ---------------------------------------------------------------------

  /** The number of occurrences met by a left-to-right scan that skips each match. */
  function Occurrences(s: string, w: string): nat
    requires |w| > 0
    decreases |s|
  {
    match Find(s, w, 0)
    case None => 0
    case Some(i) => 1 + Occurrences(s[i + |w|..], w)
  }

  /** `count(w)`: the loop of the source; an empty `w` would never end. */
  method Count(s: string, w: string) returns (n: nat)
    requires |w| > 0
    ensures n == Occurrences(s, w)
  {
    n := 0;
    var pos: nat := 0;
    var found := Find(s, w, pos);
    FindInSuffix(s, w, pos);
    while found.Some?
      invariant pos <= |s|
      invariant found == Find(s, w, pos)
      invariant n + Occurrences(s[pos..], w) == Occurrences(s, w)
      decreases |s| - pos
    {
      FindInSuffix(s, w, pos);
      var i := found.value;
      assert s[pos..][i - pos + |w|..] == s[i + |w|..];
      n := n + 1;
      pos := i + |w|;
      found := Find(s, w, pos);
    }
    FindInSuffix(s, w, pos);
  }

  /** One more occurrence adds one more length. */
  lemma {:induction false} OneMore(n: int, m: int)
    ensures (1 + n) * m == m + n * m
  {
  }

  /** Occurrences do not overlap: they fit in the text side by side. */
  lemma {:induction false} OccurrencesFit(s: string, w: string)
    requires |w| > 0
    ensures Occurrences(s, w) * |w| <= |s|
    decreases |s|
  {
    match Find(s, w, 0)
    case None =>
    case Some(i) =>
      var tail := s[i + |w|..];
      OccurrencesFit(tail, w);
      var n := Occurrences(tail, w);
      assert Occurrences(s, w) == 1 + n;
      OneMore(n, |w|);
  }

  // ---------------------------------------------------------------------
  // replace
  // ---------------------------------------------------------------------

  /**
    Every occurrence met by a left-to-right scan replaced by `r`; the scan
    resumes after the inserted text.
  */
  function ReplaceAll(s: string, w: string, r: string): string
    requires |w| > 0
    decreases |s|
  {
    match Find(s, w, 0)
    case None => s
    case Some(i) => s[..i] + r + ReplaceAll(s[i + |w|..], w, r)
  }

  /**
    `replace(target, replacement)`: the text is edited in place and the
    search resumes after each inserted replacement. An empty target would
    never end.
  */
  method Replace(text: string, target: string, replacement: string) returns (s: string)
    requires |target| > 0
    ensures s == ReplaceAll(text, target, replacement)
  {
    s := text;
    var found: nat := 0;
    ghost var done: string := [];
    ghost var rest := text;
    var at := Find(s, target, found);
    while at.Some?
      invariant s == done + rest && found == |done|
      invariant at == Find(s, target, found)
      invariant done + ReplaceAll(rest, target, replacement) == ReplaceAll(text, target, replacement)
      decreases |rest|
    {
      var i := at.value;
      ghost var k := i - found;
      FindAfter(done, rest, target);
      ReplaceStep(done, rest, k, target, replacement);
      Splice(done, rest, k, |target|, replacement);
      s := s[..i] + replacement + s[i + |target|..];
      done := done + rest[..k] + replacement;
      rest := rest[k + |target|..];
      found := i + |replacement|;
      at := Find(s, target, found);
    }
    FindAfter(done, rest, target);
  }

  /** Searching after `done` is searching `rest`. */
  lemma {:induction false} FindAfter(done: string, rest: string, w: string)
    ensures Find(done + rest, w, |done|).None? ==> Find(rest, w, 0).None?
    ensures Find(done + rest, w, |done|).Some? ==> Find(rest, w, 0) == Some(Find(done + rest, w, |done|).value - |done|)
  {
    FindInSuffix(done + rest, w, |done|);
    assert (done + rest)[|done|..] == rest;
  }

  /** Splicing `r` over `rest[k..k + n]` behind `done`. */
  lemma {:induction false} Splice(done: string, rest: string, k: nat, n: nat, r: string)
    requires k + n <= |rest|
    ensures var s := done + rest;
      s[..|done| + k] + r + s[|done| + k + n..] == (done + rest[..k] + r) + rest[k + n..]
  {
    var s := done + rest;
    assert s[..|done| + k] == done + rest[..k];
    assert s[|done| + k + n..] == rest[k + n..];
  }

  /**
    One turn of `replace`: with `pre` already finished and the first
    occurrence of `w` in `t` at `k`, splicing `r` over it moves the
    finished part past the replacement.
  */
  lemma {:induction false} ReplaceStep(pre: string, t: string, k: nat, w: string, r: string)
    requires |w| > 0 && Find(t, w, 0) == Some(k)
    ensures (pre + t[..k] + r) + ReplaceAll(t[k + |w|..], w, r) == pre + ReplaceAll(t, w, r)
  {
    ReplaceFirst(t, w, r, k);
    Regroup(pre, t[..k], r, ReplaceAll(t[k + |w|..], w, r));
  }

  lemma {:induction false} Regroup(a: string, b: string, c: string, d: string)
    ensures (a + b + c) + d == a + (b + c + d)
  {
  }

  /** The replacement of a text begins with its first occurrence replaced. */
  lemma {:induction false} ReplaceFirst(t: string, w: string, r: string, k: nat)
    requires |w| > 0 && Find(t, w, 0) == Some(k)
    ensures ReplaceAll(t, w, r) == t[..k] + r + ReplaceAll(t[k + |w|..], w, r)
  {
  }

  /** Replacing a text by itself changes nothing. */
  lemma {:induction false} ReplaceSame(s: string, w: string)
    requires |w| > 0
    ensures ReplaceAll(s, w, w) == s
    decreases |s|
  {
    match Find(s, w, 0)
    case None =>
    case Some(i) =>
      ReplaceSame(s[i + |w|..], w);
      FindFirst(s, w, 0);
      OccursSlice(s, w, i);
      assert s == s[..i] + s[i..i + |w|] + s[i + |w|..];
  }

  /** Each replaced occurrence changes the length by the difference of the two texts. */
  lemma {:induction false} ReplaceLength(s: string, w: string, r: string)
    requires |w| > 0
    ensures |ReplaceAll(s, w, r)| == |s| + Occurrences(s, w) * (|r| - |w|)
    decreases |s|
  {
    match Find(s, w, 0)
    case None =>
    case Some(i) =>
      var tail := s[i + |w|..];
      ReplaceLength(tail, w, r);
      var n := Occurrences(tail, w);
      assert Occurrences(s, w) == 1 + n;
      assert ReplaceAll(s, w, r) == s[..i] + r + ReplaceAll(tail, w, r);
      OneMore(n, |r| - |w|);
  }

  /** A text that does not begin with `w` has its first character kept by `replace`. */
  lemma {:induction false} ReplaceSkip(c: char, u: string, w: string, r: string)
    requires |w| > 0 && !OccursAt([c] + u, w, 0)
    ensures ReplaceAll([c] + u, w, r) == [c] + ReplaceAll(u, w, r)
  {
    FindShift(c, u, w);
    match Find(u, w, 0)
    case None =>
      assert ReplaceAll(u, w, r) == u;
    case Some(k) =>
      ReplaceShifted(c, u, w, r, k);
  }

  /** The shifted first occurrence is replaced at the same place of the rest. */
  lemma {:induction false} ReplaceShifted(c: char, u: string, w: string, r: string, k: nat)
    requires |w| > 0 && Find([c] + u, w, 0) == Some(1 + k) && Find(u, w, 0) == Some(k)
    ensures ReplaceAll([c] + u, w, r) == [c] + ReplaceAll(u, w, r)
  {
    var s := [c] + u;
    ReplaceFirst(s, w, r, 1 + k);
    ReplaceFirst(u, w, r, k);
    var x, y := u[..k], u[k + |w|..];
    assert s[..1 + k] == [c] + x;
    assert s[1 + k + |w|..] == y;
    Regroup([c], x, r, ReplaceAll(y, w, r));
  }

  /** Past a first character where `w` does not occur, the search finds what it finds in the rest, one further on. */
  lemma {:induction false} FindShift(c: char, u: string, w: string)
    requires !OccursAt([c] + u, w, 0)
    ensures Find([c] + u, w, 0).None? <==> Find(u, w, 0).None?
    ensures Find(u, w, 0).Some? ==> Find([c] + u, w, 0) == Some(1 + Find(u, w, 0).value)
  {
    FindAfter([c], u, w);
    assert Find([c] + u, w, 0) == Find([c] + u, w, 1);
  }

  /** A text that begins with `w` has it replaced first. */
  lemma {:induction false} ReplaceHere(t: string, w: string, r: string)
    requires |w| > 0 && OccursAt(t, w, 0)
    ensures ReplaceAll(t, w, r) == r + ReplaceAll(t[|w|..], w, r)
  {
    assert Find(t, w, 0) == Some(0);
    assert t[..0] == [];
  }

  /** A run of characters none of which begins `w` is copied by `replace` as it is. */
  lemma {:induction false} ReplaceCopies(x: string, u: string, w: string, r: string)
    requires |w| > 0 && forall k :: 0 <= k < |x| ==> x[k] != w[0]
    ensures ReplaceAll(x + u, w, r) == x + ReplaceAll(u, w, r)
    decreases |x|
  {
    if x == [] {
      assert x + u == u;
    } else {
      var c, y := x[0], x[1..];
      var v := y + u;
      var done := ReplaceAll(u, w, r);
      ReplaceCopies(y, u, w, r);
      ReplaceKeeps(c, v, w, r);
      Regroup2(c, y, u, done, x);
    }
  }

  /** `replace` keeps a first character that is not the first of `w`. */
  lemma {:induction false} ReplaceKeeps(c: char, v: string, w: string, r: string)
    requires |w| > 0 && c != w[0]
    ensures ReplaceAll([c] + v, w, r) == [c] + ReplaceAll(v, w, r)
  {
    assert ([c] + v)[0] == c;
    ReplaceSkip(c, v, w, r);
  }

  lemma {:induction false} Regroup2(c: char, y: string, u: string, d: string, x: string)
    requires x == [c] + y
    ensures x + u == [c] + (y + u) && [c] + (y + d) == x + d
  {
  }

  /** A text that begins with `w` followed by `u` is `r` followed by the replacement of `u`. */
  lemma {:induction false} ReplaceLeading(w: string, u: string, r: string)
    requires |w| > 0
    ensures ReplaceAll(w + u, w, r) == r + ReplaceAll(u, w, r)
  {
    assert OccursAt(w + u, w, 0);
    ReplaceHere(w + u, w, r);
    assert (w + u)[|w|..] == u;
  }

  /**
    Around and between runs that never begin `w`, every `w` of
    `w a w w b w` is replaced.
  */
  lemma {:induction false} ReplaceAround(w: string, a: string, b: string, r: string)
    requires |w| > 0
    requires forall k :: 0 <= k < |a| ==> a[k] != w[0]
    requires forall k :: 0 <= k < |b| ==> b[k] != w[0]
    ensures ReplaceAll(w + (a + (w + (w + (b + w)))), w, r) == r + (a + (r + (r + (b + r))))
  {
    ReplaceLeading(w, [], r);
    assert w + [] == w;
    ReplaceCopies(b, w, w, r);
    ReplaceLeading(w, b + w, r);
    ReplaceLeading(w, w + (b + w), r);
    ReplaceCopies(a, w + (w + (b + w)), w, r);
    ReplaceLeading(w, a + (w + (w + (b + w))), r);
  }

  /**
    The `%25` texts of the tests: every `%25` of `%25hello%25%25world%25`
    is replaced, whatever it is replaced by; `""` gives `helloworld`.
  */
  lemma {:induction false} PercentReplaced(p: string, r: string)
    requires p == "%25"
    ensures ReplaceAll(p + "hello" + p + p + "world" + p, p, r) == r + "hello" + r + r + "world" + r
    ensures r == [] ==> ReplaceAll(p + "hello" + p + p + "world" + p, p, r) == "helloworld"
  {
    ReplaceAround(p, "hello", "world", r);
    assert p + "hello" + p + p + "world" + p == p + ("hello" + (p + (p + ("world" + p))));
    assert r + "hello" + r + r + "world" + r == r + ("hello" + (r + (r + ("world" + r))));
  }

  /** Deleting every occurrence leaves no occurrence that was found. */
  lemma {:induction false} DeleteNoneLeft(s: string, w: string)
    requires |w| > 0 && Find(s, w, 0).None?
    ensures ReplaceAll(s, w, []) == s && Occurrences(s, w) == 0
  {
  }

  // ---------------------------------------------------------------------
  // left_of / right_of
  // ---------------------------------------------------------------------

  /** `left_of(w)`: the text before the first occurrence, or the whole text. */
  function LeftOf(s: string, w: string): (r: string)
    ensures |r| <= |s| && r == s[..|r|]
    ensures Find(s, w, 0).None? ==> r == s
  {
    match Find(s, w, 0)
    case None => s
    case Some(i) => s[..i]
  }

  /** `left_of` stops right before the first occurrence, and none lies inside what it returns. */
  lemma {:induction false} LeftOfFirst(s: string, w: string)
    requires Find(s, w, 0).Some?
    ensures OccursAt(s, w, |LeftOf(s, w)|)
    ensures forall j: nat :: j < |LeftOf(s, w)| ==> !OccursAt(LeftOf(s, w), w, j)
  {
    var i := Find(s, w, 0).value;
    var r := LeftOf(s, w);
    FindFirst(s, w, 0);
    forall j: nat | j < |r| && OccursAt(r, w, j)
      ensures false
    {
      assert forall k :: 0 <= k < |w| ==> (r[j + k] == w[k] ==> s[j + k] == w[k]);
      assert OccursAt(s, w, j);
    }
  }

  /**
    `right_of(w)` as the source writes it: the text after the FIRST
    CHARACTER of the first occurrence (`pos + 1`), or the whole text when
    there is none. `None` is the `out_of_range` that `substr` throws when
    an empty `w` is looked up in an empty text.
  */
  function RightOf(s: string, w: string): (r: Option<string>)
    ensures Find(s, w, 0).None? ==> r == Some(s)
    ensures r.None? <==> s == [] && w == []
    ensures Find(s, w, 0).Some? && r.Some? ==> s == s[..Find(s, w, 0).value + 1] + r.value
  {
    match Find(s, w, 0)
    case None => Some(s)
    case Some(i) => if i + 1 > |s| then None else Some(s[i + 1..])
  }

  /** The text after the whole first occurrence, or the whole text when there is none. */
  function RightOfMatch(s: string, w: string): (r: string)
    ensures |r| <= |s| && r == s[|s| - |r|..]
  {
    match Find(s, w, 0)
    case None => s
    case Some(i) => s[i + |w|..]
  }

  /** Around an occurrence, the two sides and the occurrence rebuild the text. */
  lemma {:induction false} LeftMatchRight(s: string, w: string)
    requires Find(s, w, 0).Some?
    ensures LeftOf(s, w) + w + RightOfMatch(s, w) == s
  {
    var i := Find(s, w, 0).value;
    FindFirst(s, w, 0);
    OccursSlice(s, w, i);
    assert s == s[..i] + s[i..i + |w|] + s[i + |w|..];
  }

  /** With a two-character separator, `right_of` keeps the second character of it. */
  lemma {:induction false} RightOfKeepsSeparatorTail(s: string, w: string)
    requires s == "a==b" && w == "=="
    ensures RightOf(s, w) == Some("=b") && RightOfMatch(s, w) == "b"
  {
    assert s[0] != w[0];
    assert OccursAt(s, w, 1);
    assert Find(s, w, 0) == Some(1);
    assert s[2..] == "=b" && s[3..] == "b";
  }

  /** For one-character separators the two agree. */
  lemma {:induction false} RightOfSingleChar(s: string, w: string)
    requires |w| == 1
    ensures RightOf(s, w) == Some(RightOfMatch(s, w))
  {
  }
}
