/**
  `strip`, `lstrip` and `rstrip` of `wire::string` (`ltrim`, `rtrim` and
  `trim` are the same calls under other names): leading and/or trailing
  characters drawn from `chars` are cut off; an empty `chars` stands for
  the white space of C `isspace`.
*/
module Strip {
  import opened Decimal

  /** A character the call removes: white space by default, otherwise one listed in `chars`. */
  predicate Strippable(c: char, chars: string) {
    if |chars| == 0 then IsSpace(c) else c in chars
  }

  predicate AllStrippable(s: string, chars: string) {
    forall k :: 0 <= k < |s| ==> Strippable(s[k], chars)
  }

  /** Where the kept text begins when stripping on the left: the first character that stays. */
  function Start(s: string, chars: string, i: nat): (lo: nat)
    requires i <= |s|
    ensures i <= lo <= |s|
    decreases |s| - i
  {
    if i < |s| && Strippable(s[i], chars) then Start(s, chars, i + 1) else i
  }

  /** Where the kept text ends when stripping on the right, never before `lo`. */
  function End(s: string, chars: string, lo: nat, j: nat): (hi: nat)
    requires lo <= j <= |s|
    ensures lo <= hi <= j
    decreases j
  {
    if j > lo && Strippable(s[j - 1], chars) then End(s, chars, lo, j - 1) else j
  }

  /**
    The text `strip(chars, left, right)` returns. Stripping on the right
    starts from the end and stops at the first character that stays, or
    at the start of what the left stripping kept.
  */
  function Stripped(s: string, chars: string, left: bool, right: bool): (r: string)
  {
    var lo := if left then Start(s, chars, 0) else 0;
    var hi := if right then End(s, chars, lo, |s|) else |s|;
    s[lo..hi]
  }

  /**
    The call terminates on every text but one kind: stripping only on the
    right a non-empty text made entirely of strippable characters walks
    the unsigned cursor below zero.
  */
  predicate Defined(s: string, chars: string, left: bool, right: bool) {
    left || !right || |s| == 0 || !AllStrippable(s, chars)
  }

  /** The private `strip(chars, strip_left, strip_right)`: the two cursor loops of the source. */
  method StripBy(s: string, chars: string, left: bool, right: bool) returns (r: string)
    requires Defined(s, chars, left, right)
    ensures r == Stripped(s, chars, left, right)
  {
    var len := |s|;
    var i: nat := 0;
    var j: nat := len;
    if left {
      while i < len && Strippable(s[i], chars)
        invariant i <= len && Start(s, chars, i) == Start(s, chars, 0)
      {
        i := i + 1;
      }
    }
    if right && j > 0 {
      assert i > 0 || exists k :: 0 <= k < |s| && !Strippable(s[k], chars);
      j := j - 1;
      while j >= i && Strippable(s[j], chars)
        invariant j < len && j + 1 >= i
        invariant End(s, chars, i, j + 1) == End(s, chars, i, len)
        invariant i > 0 || exists k :: 0 <= k <= j && !Strippable(s[k], chars)
      {
        j := j - 1;
      }
      j := j + 1;
    }
    r := s[i..j];
  }

  /** `lstrip(chars)` and `ltrim(chars)` */
  method LStrip(s: string, chars: string) returns (r: string)
    ensures r == Stripped(s, chars, true, false)
  {
    r := StripBy(s, chars, true, false);
  }

  /** `rstrip(chars)` and `rtrim(chars)` */
  method RStrip(s: string, chars: string) returns (r: string)
    requires |s| == 0 || !AllStrippable(s, chars)
    ensures r == Stripped(s, chars, false, true)
  {
    r := StripBy(s, chars, false, true);
  }

  /** `strip(chars)` and `trim(chars)` */
  method StripBoth(s: string, chars: string) returns (r: string)
    ensures r == Stripped(s, chars, true, true)
  {
    r := StripBy(s, chars, true, true);
  }

  // ---------------------------------------------------------------------
  // What the cursors stop at
  // ---------------------------------------------------------------------

  /** The left cursor passes only strippable characters and stops at one that stays. */
  lemma {:induction false} StartStops(s: string, chars: string, i: nat)
    requires i <= |s|
    ensures forall k :: i <= k < Start(s, chars, i) ==> Strippable(s[k], chars)
    ensures Start(s, chars, i) < |s| ==> !Strippable(s[Start(s, chars, i)], chars)
    decreases |s| - i
  {
    if i < |s| && Strippable(s[i], chars) {
      StartStops(s, chars, i + 1);
    }
  }

  /** The right cursor passes only strippable characters and stops after one that stays. */
  lemma {:induction false} EndStops(s: string, chars: string, lo: nat, j: nat)
    requires lo <= j <= |s|
    ensures forall k :: End(s, chars, lo, j) <= k < j ==> Strippable(s[k], chars)
    ensures End(s, chars, lo, j) > lo ==> !Strippable(s[End(s, chars, lo, j) - 1], chars)
    decreases j
  {
    if j > lo && Strippable(s[j - 1], chars) {
      EndStops(s, chars, lo, j - 1);
    }
  }

  /** A cursor that meets only characters that stay does not move. */
  lemma {:induction false} StartAt(s: string, chars: string, i: nat)
    requires i <= |s| && (i < |s| ==> !Strippable(s[i], chars))
    ensures Start(s, chars, i) == i
  {
  }

  /**
    The result is a contiguous piece `s[lo..hi]` of the text: everything
    cut on either side is strippable, the piece neither begins nor ends
    with a strippable character on a side that is stripped, and a side
    that is not stripped is kept whole.
  */
  lemma {:induction false} StrippedShape(s: string, chars: string, left: bool, right: bool)
    ensures exists lo: nat, hi: nat ::
              && lo <= hi <= |s| && Stripped(s, chars, left, right) == s[lo..hi]
              && (forall k :: 0 <= k < lo ==> Strippable(s[k], chars))
              && (forall k :: hi <= k < |s| ==> Strippable(s[k], chars))
              && (!left ==> lo == 0) && (!right ==> hi == |s|)
              && (left && lo < hi ==> !Strippable(s[lo], chars))
              && (right && lo < hi ==> !Strippable(s[hi - 1], chars))
  {
    var lo := if left then Start(s, chars, 0) else 0;
    var hi := if right then End(s, chars, lo, |s|) else |s|;
    StartStops(s, chars, 0);
    EndStops(s, chars, lo, |s|);
    assert Stripped(s, chars, left, right) == s[lo..hi];
  }

  /** Stripping twice on the same sides is stripping once. */
  lemma {:induction false} StripIdempotent(s: string, chars: string, left: bool, right: bool)
    ensures Stripped(Stripped(s, chars, left, right), chars, left, right) == Stripped(s, chars, left, right)
  {
    var lo := if left then Start(s, chars, 0) else 0;
    var hi := if right then End(s, chars, lo, |s|) else |s|;
    var t := s[lo..hi];
    StartStops(s, chars, 0);
    EndStops(s, chars, lo, |s|);
    var lo2 := if left then Start(t, chars, 0) else 0;
    if left {
      if lo < hi {
        assert t[0] == s[lo];
      }
      StartAt(t, chars, 0);
    }
    assert lo2 == 0;
    if right {
      if 0 < |t| {
        assert t[|t| - 1] == s[hi - 1];
      }
      assert End(t, chars, 0, |t|) == |t|;
    }
    assert t[0..|t|] == t;
  }

  // ---------------------------------------------------------------------
  // The strip tests
  // ---------------------------------------------------------------------

  /** " a b c " loses its outer blanks and keeps the inner ones. */
  lemma {:induction false} SpacedLetters(s: string)
    requires s == " a b c "
    ensures Stripped(s, "", true, true) == "a b c"
    ensures Stripped(s, "", true, false) == "a b c "
    ensures Stripped(s, "", false, true) == " a b c"
  {
    assert Start(s, "", 1) == 1;
    assert Start(s, "", 0) == 1;
    assert End(s, "", 0, 6) == 6;
    assert End(s, "", 1, 6) == 6;
    assert End(s, "", 0, 7) == 6;
    assert End(s, "", 1, 7) == 6;
  }

  /** The empty text strips to the empty text; "abc" has nothing to strip. */
  lemma {:induction false} NothingToStrip(s: string)
    requires s == "abc"
    ensures Stripped([], "", true, true) == [] && Stripped(s, "", true, true) == s
  {
    assert Start(s, "", 0) == 0;
    assert End(s, "", 0, 3) == 3;
  }

  /** A listed character set replaces white space: "xxabcxx" stripped of 'x' is "abc". */
  lemma {:induction false} StripListed(s: string, chars: string)
    requires s == "xxabcxx" && chars == "x"
    ensures Stripped(s, chars, true, true) == "abc"
  {
    assert Start(s, chars, 2) == 2;
    assert Start(s, chars, 0) == 2;
    assert End(s, chars, 2, 5) == 5;
    assert End(s, chars, 2, 7) == 5;
  }
}
