/**
  `wire::string::replace_map`: a single left-to-right pass over the text
  that, at each position, tries the keys of a `std::map` from the
  greatest down, emits the value of the first key found there and jumps
  past it, or else copies one character.
*/
module ReplaceMap {
  import opened Wrappers
  import opened Search

  /** The map's entries in its own (increasing key) order. */
  type Entries = seq<(string, string)>

  /** `std::string` ordering: a proper prefix comes first, else the first differing character decides. */
  predicate LexLess(a: string, b: string)
    decreases |a|
  {
    |b| > 0 && (|a| == 0 || a[0] < b[0] || (a[0] == b[0] && LexLess(a[1..], b[1..])))
  }

  /** The keys strictly increase, as they do in a `std::map`. */
  predicate Sorted(e: Entries) {
    forall i, j :: 0 <= i < j < |e| ==> LexLess(e[i].0, e[j].0)
  }

  /** An empty key would make `target.at(0)` throw. */
  predicate NonEmptyKeys(e: Entries) {
    forall i :: 0 <= i < |e| ==> |e[i].0| > 0
  }

  /**
    The entry chosen at position `i` of `t` when entries `e[..j]` remain to
    be tried, greatest index first: the last of them whose key occurs at `i`.
  */
  function Pick(t: string, e: Entries, i: nat, j: nat): (r: Option<nat>)
    requires j <= |e|
    ensures r.Some? ==> r.value < j && i + |e[r.value].0| <= |t|
    decreases j
  {
    if j == 0 then None
    else if OccursAt(t, e[j - 1].0, i) then Some(j - 1)
    else Pick(t, e, i, j - 1)
  }

  /**
    The entry picked is one whose key occurs at `i`, no entry tried before
    it has a key that does, and nothing is picked only when no key among
    those tried occurs there.
  */
  lemma {:induction false} PickFirst(t: string, e: Entries, i: nat, j: nat)
    requires j <= |e|
    ensures Pick(t, e, i, j).Some? ==> OccursAt(t, e[Pick(t, e, i, j).value].0, i)
    ensures Pick(t, e, i, j).Some? ==> forall n :: Pick(t, e, i, j).value < n < j ==> !OccursAt(t, e[n].0, i)
    ensures Pick(t, e, i, j).None? ==> forall n :: 0 <= n < j ==> !OccursAt(t, e[n].0, i)
    decreases j
  {
    if j > 0 && !OccursAt(t, e[j - 1].0, i) {
      PickFirst(t, e, i, j - 1);
    }
  }

  /** What the pass emits from position `i` of `t` on. */
  function MapFrom(t: string, e: Entries, i: nat): string
    requires NonEmptyKeys(e)
    decreases |t| - i
  {
    if i >= |t| then []
    else
      match Pick(t, e, i, |e|)
      case Some(m) => e[m].1 + MapFrom(t, e, i + |e[m].0|)
      case None => [t[i]] + MapFrom(t, e, i + 1)
  }

  /** The text `replace_map` builds from `t`. */
  function MapAll(t: string, e: Entries): string
    requires NonEmptyKeys(e)
  {
    MapFrom(t, e, 0)
  }

  /** `memcmp` over `n` characters of the text at `i` and of the key. */
  predicate SameBytes(t: string, i: nat, w: string, n: nat)
    requires i + n <= |t| && n <= |w|
  {
    forall k :: 0 <= k < n ==> t[i + k] == w[k]
  }

  /**
    One turn of the outer loop: with `out` holding what the text before
    `i` turned into, emitting the piece chosen at `i` and moving `n`
    characters on keeps that so.
  */
  lemma {:induction false} Emit(s: string, i: nat, e: Entries, out: string, n: nat, piece: string)
    requires NonEmptyKeys(e) && i < |s|
    requires match Pick(s, e, i, |e|)
             case Some(m) => n == |e[m].0| && piece == e[m].1
             case None => n == 1 && piece == [s[i]]
    requires out + MapFrom(s, e, i) == MapAll(s, e)
    ensures (out + piece) + MapFrom(s, e, i + n) == MapAll(s, e)
  {
    var rest := MapFrom(s, e, i + n);
    assert MapFrom(s, e, i) == piece + rest;
    Associate(out, piece, rest);
  }

  lemma {:induction false} Associate(a: string, b: string, c: string)
    ensures (a + b) + c == a + (b + c)
  {
  }

  /** `replace_map(replacements)`: the nested loops of the source. */
  method ReplaceMap(text: string, e: Entries) returns (out: string)
    requires NonEmptyKeys(e)
    ensures out == MapAll(text, e)
  {
    out := [];
    var i: nat := 0;
    while i < |text|
      invariant out + MapFrom(text, e, i) == MapAll(text, e)
    {
      ghost var i0, out0 := i, out;
      ghost var here := Pick(text, e, i, |e|);
      var found := false;
      var matchLength: nat := 0;
      var j: nat := |e|;
      while !found && j > 0
        invariant j <= |e|
        invariant !found ==> i == i0 && out == out0 && Pick(text, e, i0, j) == here
        invariant found ==> here == Some(j) && i == i0 + |e[j].0| && out == out0 + e[j].1
      {
        j := j - 1;
        var target := e[j].0;
        var replacement := e[j].1;
        if matchLength != |target| {
          matchLength := |target|;
        }
        if |text| - i >= |target| && SameBytes(text, i, target, matchLength) {
          i := i + |target|;
          out := out + replacement;
          found := true;
        }
      }
      if !found {
        Emit(text, i0, e, out0, 1, [text[i0]]);
        out := out + [text[i]];
        i := i + 1;
      } else {
        Emit(text, i0, e, out0, i - i0, e[j].1);
      }
    }
    assert MapFrom(text, e, i) == [];
  }

  // ---------------------------------------------------------------------
  // What the pass computes
  // ---------------------------------------------------------------------

  /** With no entries the text is copied unchanged. */
  lemma {:induction false} NoEntries(t: string, i: nat)
    requires i <= |t|
    ensures MapFrom(t, [], i) == t[i..]
    decreases |t| - i
  {
    if i < |t| {
      NoEntries(t, i + 1);
      assert t[i..] == [t[i]] + t[i + 1..];
    }
  }

  /** An occurrence at `i` is an occurrence at the start of the rest of the text. */
  lemma {:induction false} OccursInRest(t: string, w: string, i: nat)
    requires i <= |t|
    ensures OccursAt(t, w, i) <==> OccursAt(t[i..], w, 0)
  {
    if i + |w| <= |t| {
      assert forall k :: 0 <= k < |w| ==> t[i..][k] == t[i + k];
    }
  }

  /** A map with a single entry does what `replace` does with that entry. */
  lemma {:induction false} SingleEntry(t: string, w: string, r: string, i: nat)
    requires |w| > 0 && i <= |t|
    ensures MapFrom(t, [(w, r)], i) == ReplaceAll(t[i..], w, r)
    decreases |t| - i
  {
    var e := [(w, r)];
    var u := t[i..];
    OccursInRest(t, w, i);
    if i == |t| {
      assert Find(u, w, 0) == None;
    } else if OccursAt(t, w, i) {
      assert Pick(t, e, i, 1) == Some(0);
      SingleEntry(t, w, r, i + |w|);
      ReplaceHere(u, w, r);
      assert u[|w|..] == t[i + |w|..];
    } else {
      assert Pick(t, e, i, 1) == None;
      SingleEntry(t, w, r, i + 1);
      assert u == [t[i]] + t[i + 1..];
      ReplaceSkip(t[i], t[i + 1..], w, r);
    }
  }

  // ---------------------------------------------------------------------
  // Which key wins
  // ---------------------------------------------------------------------

  /** A proper prefix sorts first. */
  lemma {:induction false} PrefixLess(a: string, b: string)
    requires |a| < |b| && b[..|a|] == a
    ensures LexLess(a, b)
    decreases |a|
  {
    if |a| > 0 {
      assert a[0] == b[0];
      assert b[1..][..|a| - 1] == a[1..];
      PrefixLess(a[1..], b[1..]);
    }
  }

  /** The ordering is asymmetric. */
  lemma {:induction false} LexAsymmetric(a: string, b: string)
    requires LexLess(a, b)
    ensures !LexLess(b, a)
    decreases |a|
  {
    if |a| > 0 && a[0] == b[0] {
      LexAsymmetric(a[1..], b[1..]);
    }
  }

  /**
    The key chosen at a position is the longest key found there: two keys
    that both occur there are prefixes of one another, and the longer one
    is the greater, so it is tried first.
  */
  lemma {:induction false} LongestKeyWins(t: string, e: Entries, i: nat)
    requires Sorted(e)
    ensures Pick(t, e, i, |e|).Some? ==>
              forall n :: 0 <= n < |e| && OccursAt(t, e[n].0, i) ==> |e[n].0| <= |e[Pick(t, e, i, |e|).value].0|
  {
    var r := Pick(t, e, i, |e|);
    PickFirst(t, e, i, |e|);
    if r.Some? {
      var m := r.value;
      forall n | 0 <= n < |e| && OccursAt(t, e[n].0, i)
        ensures |e[n].0| <= |e[m].0|
      {
        if n < m && |e[n].0| > |e[m].0| {
          var a, b := e[m].0, e[n].0;
          assert b[..|a|] == a by {
            assert forall k :: 0 <= k < |a| ==> b[k] == t[i + k] == a[k];
          }
          PrefixLess(a, b);
          LexAsymmetric(e[n].0, e[m].0);
          assert false;
        }
      }
    }
  }

  /** "abc" with keys "a" and "ab": the longer key is used, then "c" is copied. */
  lemma {:induction false} LongerKeyFirst(t: string, e: Entries)
    requires t == "abc" && e == [("a", "1"), ("ab", "2")]
    ensures Sorted(e) && MapAll(t, e) == "2c"
  {
    assert LexLess("a", "ab");
    assert OccursAt(t, "ab", 0);
    assert Pick(t, e, 0, 2) == Some(1);
    assert !OccursAt(t, "ab", 2) && !OccursAt(t, "a", 2);
    assert Pick(t, e, 2, 2) == None;
    assert MapFrom(t, e, 3) == [];
    assert MapFrom(t, e, 2) == "c";
    assert MapFrom(t, e, 0) == "2" + "c";
  }
}
