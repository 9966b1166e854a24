/**
  The symbol table and the `$name` interpolator of wire.cpp.

  The source keeps one process-wide `std::map` from keys to text values.
  Keys carry the `$` sigil, because the `$(name)` macro looks up "$name".
  `translate` scans a text once and replaces every `$identifier` found in
  the table by the translation of its value. It quotes a reference that is
  undefined, or that names the symbol whose value is being translated.

  Only direct self-reference is blocked. A cycle through two or more symbols
  recurses without end in the source. The specification functions therefore
  take a `fuel` bound on the nesting of expansions and return `None` when
  it runs out. The lemmas show three things: the result does not depend on
  the fuel once there is enough; a table whose references are ranked always
  has enough; and a two-symbol cycle never has enough.
*/
module Symbols {
  import opened Wrappers

  type Table = map<string, string>

  /** Characters that continue a reference after the sigil: `[A-Za-z0-9_-]`. */
  predicate IsIdentChar(c: char) {
    'a' <= c <= 'z' || 'A' <= c <= 'Z' || '0' <= c <= '9' || c == '-' || c == '_'
  }

  /** A complete reference: the sigil followed by identifier characters. */
  predicate IsRef(r: string) {
    1 <= |r| && r[0] == '$' && forall k :: 1 <= k < |r| ==> IsIdentChar(r[k])
  }

  /** The accumulator `id` of the scan: empty, or a reference being read. */
  predicate IsPending(id: string) {
    id == [] || IsRef(id)
  }

  // ---------------------------------------------------------------------
  // Specification of `translate`
  // ---------------------------------------------------------------------

  /**
    What a complete reference `id` becomes: the translation of its value,
    with `id` as the new parent, when `id` is a key other than `parent`;
    otherwise `id` itself, sigil included.
  */
  function Resolve(m: Table, id: string, parent: string, fuel: nat): Option<string>
    decreases fuel, 0, 0
  {
    if id in m && id != parent then
      (if fuel == 0 then None else TranslateFrom(m, m[id], [], id, fuel - 1))
    else Some(id)
  }

  /**
    The output `translate` appends for the remaining input `s` when the
    accumulator holds `id`. A non-identifier character ends the pending
    reference; it is appended after the reference's replacement and never
    starts a new reference. A reference pending at the end is flushed.
  */
  function TranslateFrom(m: Table, s: string, id: string, parent: string, fuel: nat): Option<string>
    decreases fuel, |s|, 1
  {
    if s == [] then
      (if id == [] then Some([]) else Resolve(m, id, parent, fuel))
    else if id == [] then
      (if s[0] == '$' then TranslateFrom(m, s[1..], "$", parent, fuel)
       else Concat(Some([s[0]]), TranslateFrom(m, s[1..], [], parent, fuel)))
    else if IsIdentChar(s[0]) then
      TranslateFrom(m, s[1..], id + [s[0]], parent, fuel)
    else
      Concat(Resolve(m, id, parent, fuel), Concat(Some([s[0]]), TranslateFrom(m, s[1..], [], parent, fuel)))
  }

  /** `translate(text, parent)` with at most `fuel` nested expansions. */
  function Translation(m: Table, text: string, parent: string, fuel: nat): Option<string> {
    TranslateFrom(m, text, [], parent, fuel)
  }

  // ---------------------------------------------------------------------
  // Specification of `extract`
  // ---------------------------------------------------------------------

  /**
    The tokens `extract` pushes for the remaining input `s` with accumulator
    `id`. A token starts at `sep0` or `sep1` and runs over identifier
    characters. The character that ends a token is dropped.
  */
  function ExtractFrom(s: string, id: string, sep0: char, sep1: char): seq<string>
    decreases |s|
  {
    if s == [] then
      (if id == [] then [] else [id])
    else if id != [] then
      (if IsIdentChar(s[0]) then ExtractFrom(s[1..], id + [s[0]], sep0, sep1)
       else [id] + ExtractFrom(s[1..], [], sep0, sep1))
    else if s[0] == sep0 || s[0] == sep1 then ExtractFrom(s[1..], [s[0]], sep0, sep1)
    else ExtractFrom(s[1..], [], sep0, sep1)
  }

  /** The references `translate` sees are the tokens of `extract(text, '$', '$')`. */
  function References(s: string, id: string): seq<string> {
    ExtractFrom(s, id, '$', '$')
  }

  /** A token `extract` returns: a separator and then identifier characters only. */
  predicate IsToken(t: string, sep0: char, sep1: char) {
    1 <= |t| && (t[0] == sep0 || t[0] == sep1) && forall k :: 1 <= k < |t| ==> IsIdentChar(t[k])
  }

  // ---------------------------------------------------------------------
  // The table and the two scanners as the source runs them
  // ---------------------------------------------------------------------

  class SymbolTable {
    var entries: Table

    /** The table starts empty. */
    constructor ()
      ensures entries == map[]
    {
      entries := map[];
    }

    /**
      `locate`: the value stored under `key`. A missing key is first
      inserted with the empty value. No other key changes.
    */
    method Locate(key: string) returns (value: string)
      modifies this
      ensures key in old(entries) ==> entries == old(entries)
      ensures key !in old(entries) ==> entries == old(entries)[key := ""]
      ensures key in entries && value == entries[key]
    {
      if key !in entries {
        entries := entries[key := ""];
      }
      value := entries[key];
    }

    /**
      `$(name) = value`: `locate` the key, then overwrite the value through
      the returned reference.
    */
    method Assign(key: string, value: string)
      modifies this
      ensures entries == old(entries)[key := value]
    {
      var _ := Locate(key);
      entries := entries[key := value];
    }

    /**
      `translate`. It only looks keys up and never changes the table: the
      method has no `modifies` clause. The ghost `fuel` bounds the nesting of
      expansions. It is a termination witness only: see `FuelMonotone`.
    */
    method Translate(text: string, parent: string, ghost fuel: nat) returns (out: string)
      requires Translation(entries, text, parent, fuel).Some?
      ensures Translation(entries, text, parent, fuel) == Some(out)
      decreases fuel
    {
      out := [];
      var id: string := [];
      var i := 0;
      assert text[0..] == text;
      while i < |text|
        invariant 0 <= i <= |text|
        invariant TranslateFrom(entries, text[i..], id, parent, fuel).Some?
        invariant out + TranslateFrom(entries, text[i..], id, parent, fuel).value
               == Translation(entries, text, parent, fuel).value
      {
        var c := text[i];
        assert text[i..][0] == c && text[i..][1..] == text[i + 1..];
        if id != [] {
          if IsIdentChar(c) {
            id := id + [c];
          } else {
            var replacement: string;
            if id in entries && id != parent {
              replacement := Translate(entries[id], id, fuel - 1);
            } else {
              replacement := id;
            }
            out := out + replacement + [c];
            id := [];
          }
        } else if c == '$' {
          id := "$";
        } else {
          out := out + [c];
        }
        i := i + 1;
      }
      assert text[i..] == [];
      if id != [] {
        var replacement: string;
        if id in entries && id != parent {
          replacement := Translate(entries[id], id, fuel - 1);
        } else {
          replacement := id;
        }
        out := out + replacement;
      } else {
        assert out + [] == out;
      }
    }
  }

  /** `extract(text, sep0, sep1)`: the tokens, in input order. */
  method Extract(text: string, sep0: char, sep1: char) returns (out: seq<string>)
    ensures out == ExtractFrom(text, [], sep0, sep1)
    ensures forall t :: t in out ==> IsToken(t, sep0, sep1)
    ensures InOrder(out, text)
  {
    out := [];
    var id: string := [];
    var i := 0;
    assert text[0..] == text;
    while i < |text|
      invariant 0 <= i <= |text|
      invariant out + ExtractFrom(text[i..], id, sep0, sep1) == ExtractFrom(text, [], sep0, sep1)
    {
      var c := text[i];
      assert text[i..][0] == c && text[i..][1..] == text[i + 1..];
      if id != [] {
        if IsIdentChar(c) {
          id := id + [c];
        } else {
          out := out + [id];
          id := [];
        }
      } else if c == sep0 || c == sep1 {
        id := [c];
      }
      i := i + 1;
    }
    assert text[i..] == [];
    if id != [] {
      out := out + [id];
    }
    ExtractTokens(text, [], sep0, sep1);
    ExtractInOrder(text, sep0, sep1);
  }

  // ---------------------------------------------------------------------
  // Properties of `extract`
  // ---------------------------------------------------------------------

  /** Every token is a separator followed by identifier characters only. */
  lemma {:induction false} ExtractTokens(s: string, id: string, sep0: char, sep1: char)
    requires id == [] || IsToken(id, sep0, sep1)
    ensures forall t :: t in ExtractFrom(s, id, sep0, sep1) ==> IsToken(t, sep0, sep1)
    decreases |s|
  {
    if s != [] {
      if id != [] {
        if IsIdentChar(s[0]) {
          ExtractTokens(s[1..], id + [s[0]], sep0, sep1);
        } else {
          ExtractTokens(s[1..], [], sep0, sep1);
        }
      } else if s[0] == sep0 || s[0] == sep1 {
        ExtractTokens(s[1..], [s[0]], sep0, sep1);
      } else {
        ExtractTokens(s[1..], [], sep0, sep1);
      }
    }
  }

  /** A text without either separator has no tokens. */
  lemma {:induction false} ExtractWithoutSeparator(s: string, sep0: char, sep1: char)
    requires sep0 !in s && sep1 !in s
    ensures ExtractFrom(s, [], sep0, sep1) == []
  {
    if s != [] {
      assert s[0] in s;
      assert forall c :: c in s[1..] ==> c in s;
      ExtractWithoutSeparator(s[1..], sep0, sep1);
    }
  }

  /**
    A character that is neither a separator nor an identifier character
    ends any pending token and starts none: the text splits there into
    two texts extracted one after the other.
  */
  lemma {:induction false} ExtractSplit(a: string, c: char, b: string, sep0: char, sep1: char)
    requires c != sep0 && c != sep1 && !IsIdentChar(c)
    ensures ExtractFrom(a + [c] + b, [], sep0, sep1) == ExtractFrom(a, [], sep0, sep1) + ExtractFrom(b, [], sep0, sep1)
  {
    ExtractSplitPending(a, c, b, [], sep0, sep1);
  }

  /** `ExtractSplit` with a token pending before `a`. */
  lemma {:induction false} ExtractSplitPending(a: string, c: char, b: string, id: string, sep0: char, sep1: char)
    requires c != sep0 && c != sep1 && !IsIdentChar(c)
    ensures ExtractFrom(a + [c] + b, id, sep0, sep1) == ExtractFrom(a, id, sep0, sep1) + ExtractFrom(b, [], sep0, sep1)
    decreases |a|
  {
    var s := a + [c] + b;
    var tail := ExtractFrom(b, [], sep0, sep1);
    if a == [] {
      assert s[0] == c && s[1..] == b;
      assert [] + tail == tail;
    } else {
      assert s[0] == a[0] && s[1..] == a[1..] + [c] + b;
      if id != [] && !IsIdentChar(a[0]) {
        ExtractSplitPending(a[1..], c, b, [], sep0, sep1);
        assert [id] + (ExtractFrom(a[1..], [], sep0, sep1) + tail) == ([id] + ExtractFrom(a[1..], [], sep0, sep1)) + tail;
      } else {
        var next := if id != [] then id + [a[0]] else if a[0] == sep0 || a[0] == sep1 then [a[0]] else [];
        ExtractSplitPending(a[1..], c, b, next, sep0, sep1);
      }
    }
  }

  /**
    The tokens `ts` occur in `s` one after another, left to right and
    without overlapping: either the first token begins `s` and the others
    follow it, or all of them occur after the first character.
  */
  predicate InOrder(ts: seq<string>, s: string)
    decreases |ts| + |s|
  {
    ts == [] ||
    (|s| > 0 &&
     ((|ts[0]| <= |s| && s[..|ts[0]|] == ts[0] && InOrder(ts[1..], s[|ts[0]|..])) ||
      InOrder(ts, s[1..])))
  }

  /** Tokens in order in a text stay in order behind any prefix. */
  lemma {:induction false} InOrderPrefix(ts: seq<string>, pre: string, u: string)
    requires InOrder(ts, u)
    ensures InOrder(ts, pre + u)
    decreases |pre|
  {
    if ts != [] && pre != [] {
      InOrderPrefix(ts, pre[1..], u);
      assert (pre + u)[1..] == pre[1..] + u;
    } else if pre == [] {
      assert pre + u == u;
    }
  }

  /** A token at the start of a text, followed by tokens in order in the rest. */
  lemma {:induction false} InOrderFirst(t: string, ts: seq<string>, s: string)
    requires 0 < |t| <= |s| && s[..|t|] == t && InOrder(ts, s[|t|..])
    ensures InOrder([t] + ts, s)
  {
    var all := [t] + ts;
    assert all[0] == t && all[1..] == ts;
  }

  /** The tokens of `extract` occur in the text in the order of the result. */
  lemma {:induction false} ExtractInOrder(s: string, sep0: char, sep1: char)
    ensures InOrder(ExtractFrom(s, [], sep0, sep1), s)
  {
    ExtractInOrderPending(s, [], sep0, sep1);
    assert [] + s == s;
  }

  /** `ExtractInOrder` with the pending token `id` written just before `s`. */
  lemma {:induction false} ExtractInOrderPending(s: string, id: string, sep0: char, sep1: char)
    ensures InOrder(ExtractFrom(s, id, sep0, sep1), id + s)
    decreases |s|
  {
    if s == [] {
      if id != [] {
        assert id + s == id && (id + s)[..|id|] == id && (id + s)[|id|..] == [];
        InOrderFirst(id, [], id + s);
        assert [id] + [] == [id];
      }
    } else if id != [] && IsIdentChar(s[0]) {
      ExtractInOrderPending(s[1..], id + [s[0]], sep0, sep1);
      assert (id + [s[0]]) + s[1..] == id + s;
    } else if id != [] {
      var rest := ExtractFrom(s[1..], [], sep0, sep1);
      ExtractInOrderPending(s[1..], [], sep0, sep1);
      assert [] + s[1..] == s[1..];
      InOrderPrefix(rest, [s[0]], s[1..]);
      assert [s[0]] + s[1..] == s;
      assert (id + s)[..|id|] == id && (id + s)[|id|..] == s;
      InOrderFirst(id, rest, id + s);
    } else if s[0] == sep0 || s[0] == sep1 {
      ExtractInOrderPending(s[1..], [s[0]], sep0, sep1);
      assert [s[0]] + s[1..] == id + s;
    } else {
      ExtractInOrderPending(s[1..], [], sep0, sep1);
      assert [] + s[1..] == s[1..];
      InOrderPrefix(ExtractFrom(s[1..], [], sep0, sep1), [s[0]], s[1..]);
      assert [s[0]] + s[1..] == id + s;
    }
  }

  // ---------------------------------------------------------------------
  // Properties of `translate`
  // ---------------------------------------------------------------------

  /** Identifier characters extend the pending reference and emit nothing. */
  lemma {:induction false} ScanIdent(m: Table, w: string, rest: string, id: string, parent: string, fuel: nat)
    requires id != [] && forall k :: 0 <= k < |w| ==> IsIdentChar(w[k])
    ensures TranslateFrom(m, w + rest, id, parent, fuel) == TranslateFrom(m, rest, id + w, parent, fuel)
    decreases |w|
  {
    if w == [] {
      assert w + rest == rest && id + w == id;
    } else {
      assert (w + rest)[0] == w[0] && (w + rest)[1..] == w[1..] + rest;
      ScanIdent(m, w[1..], rest, id + [w[0]], parent, fuel);
      assert id + [w[0]] + w[1..] == id + w;
    }
  }

  /** A text that is one reference translates to that reference's replacement. */
  lemma {:induction false} RefAlone(m: Table, r: string, parent: string, fuel: nat)
    requires IsRef(r)
    ensures Translation(m, r, parent, fuel) == Resolve(m, r, parent, fuel)
  {
    ScanIdent(m, r[1..], [], "$", parent, fuel);
    assert r[1..] + [] == r[1..] && r == [r[0]] + r[1..];
  }

  /**
    A reference ended by the character `c`: its replacement, then `c`, then
    the translation of the rest, which starts afresh outside any reference.
  */
  lemma {:induction false} RefThen(m: Table, r: string, c: char, rest: string, parent: string, fuel: nat)
    requires IsRef(r) && !IsIdentChar(c)
    ensures Translation(m, r + [c] + rest, parent, fuel)
         == Concat(Resolve(m, r, parent, fuel), Concat(Some([c]), Translation(m, rest, parent, fuel)))
  {
    var s := r + [c] + rest;
    assert s[0] == '$' && s[1..] == r[1..] + ([c] + rest);
    ScanIdent(m, r[1..], [c] + rest, "$", parent, fuel);
    assert "$" + r[1..] == r;
    assert ([c] + rest)[1..] == rest;
  }

  /** Text without `$` before a reference is copied as it is. */
  lemma {:induction false} LiteralThen(m: Table, w: string, rest: string, parent: string, fuel: nat)
    requires '$' !in w
    ensures Translation(m, w + rest, parent, fuel) == Concat(Some(w), Translation(m, rest, parent, fuel))
  {
    if w == [] {
      assert w + rest == rest;
      var t := Translation(m, rest, parent, fuel);
      if t.Some? {
        assert w + t.value == t.value;
      }
    } else {
      assert w[0] in w;
      assert forall c :: c in w[1..] ==> c in w;
      assert (w + rest)[0] == w[0] && (w + rest)[1..] == w[1..] + rest;
      assert Translation(m, w + rest, parent, fuel)
          == Concat(Some([w[0]]), Translation(m, w[1..] + rest, parent, fuel));
      LiteralThen(m, w[1..], rest, parent, fuel);
      var t := Translation(m, rest, parent, fuel);
      if t.Some? {
        assert [w[0]] + (w[1..] + t.value) == w + t.value;
      }
    }
  }

  /** Text without `$` is returned unchanged, whatever the table holds. */
  lemma {:induction false} NoDollarUnchanged(m: Table, s: string, parent: string, fuel: nat)
    requires '$' !in s
    ensures Translation(m, s, parent, fuel) == Some(s)
  {
    if s != [] {
      assert s[0] in s;
      assert forall c :: c in s[1..] ==> c in s;
      NoDollarUnchanged(m, s[1..], parent, fuel);
      assert [s[0]] + s[1..] == s;
    }
  }

  /**
    Quoting: when no reference of the text is a key other than `parent`,
    every reference is emitted verbatim and the text comes back unchanged.
  */
  lemma {:induction false} QuotedUnchanged(m: Table, s: string, id: string, parent: string, fuel: nat)
    requires IsPending(id)
    requires forall r :: r in References(s, id) ==> r !in m || r == parent
    ensures TranslateFrom(m, s, id, parent, fuel) == Some(id + s)
    decreases |s|, 1
  {
    if s == [] {
      if id != [] {
        assert id in References(s, id);
        assert Resolve(m, id, parent, fuel) == Some(id) && id + s == id;
      }
    } else if id == [] {
      QuotedOutside(m, s, parent, fuel);
      assert id + s == s;
    } else {
      QuotedInside(m, s, id, parent, fuel);
    }
  }

  lemma {:induction false} QuotedOutside(m: Table, s: string, parent: string, fuel: nat)
    requires s != []
    requires forall r :: r in References(s, []) ==> r !in m || r == parent
    ensures TranslateFrom(m, s, [], parent, fuel) == Some(s)
    decreases |s|, 0
  {
    if s[0] == '$' {
      assert References(s, []) == References(s[1..], "$") by {
        assert [s[0]] == "$";
      }
      QuotedUnchanged(m, s[1..], "$", parent, fuel);
      assert "$" + s[1..] == s;
    } else {
      assert References(s, []) == References(s[1..], []);
      QuotedUnchanged(m, s[1..], [], parent, fuel);
      assert [] + s[1..] == s[1..] && [s[0]] + s[1..] == s;
    }
  }

  lemma {:induction false} QuotedInside(m: Table, s: string, id: string, parent: string, fuel: nat)
    requires s != [] && IsRef(id)
    requires forall r :: r in References(s, id) ==> r !in m || r == parent
    ensures TranslateFrom(m, s, id, parent, fuel) == Some(id + s)
    decreases |s|, 0
  {
    if IsIdentChar(s[0]) {
      assert References(s, id) == References(s[1..], id + [s[0]]);
      QuotedUnchanged(m, s[1..], id + [s[0]], parent, fuel);
      assert id + [s[0]] + s[1..] == id + s;
    } else {
      assert References(s, id) == [id] + References(s[1..], []);
      assert Resolve(m, id, parent, fuel) == Some(id) by {
        assert id in References(s, id);
      }
      QuotedUnchanged(m, s[1..], [], parent, fuel);
      assert [] + s[1..] == s[1..] && id + ([s[0]] + s[1..]) == id + s;
    }
  }

  /**
    More fuel never changes a translation that already succeeded: the
    `fuel` parameter only bounds the recursion and does not alter the output.
  */
  lemma {:induction false} FuelMonotone(m: Table, s: string, id: string, parent: string, fuel: nat)
    requires TranslateFrom(m, s, id, parent, fuel).Some?
    ensures TranslateFrom(m, s, id, parent, fuel + 1) == TranslateFrom(m, s, id, parent, fuel)
    decreases fuel, |s|, 1
  {
    if s == [] {
      if id != [] {
        ResolveFuelMonotone(m, id, parent, fuel);
      }
    } else if id == [] {
      if s[0] == '$' {
        FuelMonotone(m, s[1..], "$", parent, fuel);
      } else {
        FuelMonotone(m, s[1..], [], parent, fuel);
      }
    } else if IsIdentChar(s[0]) {
      FuelMonotone(m, s[1..], id + [s[0]], parent, fuel);
    } else {
      ResolveFuelMonotone(m, id, parent, fuel);
      FuelMonotone(m, s[1..], [], parent, fuel);
    }
  }

  lemma {:induction false} ResolveFuelMonotone(m: Table, id: string, parent: string, fuel: nat)
    requires Resolve(m, id, parent, fuel).Some?
    ensures Resolve(m, id, parent, fuel + 1) == Resolve(m, id, parent, fuel)
    decreases fuel, 0, 0
  {
    if id in m && id != parent {
      FuelMonotone(m, m[id], [], id, fuel - 1);
    }
  }

  /** Any larger fuel gives the same translation. */
  lemma {:induction false} FuelIrrelevant(m: Table, text: string, parent: string, fuel: nat, more: nat)
    requires Translation(m, text, parent, fuel).Some? && fuel <= more
    ensures Translation(m, text, parent, more) == Translation(m, text, parent, fuel)
    decreases more - fuel
  {
    if fuel < more {
      FuelMonotone(m, text, [], parent, fuel);
      FuelIrrelevant(m, text, parent, fuel + 1, more);
    }
  }

  /**
    A ranking of the table: every reference in a value that is a key other
    than the value's own key has a smaller rank. Such a table has no cycle
    that single-level loop protection misses.
  */
  ghost predicate Ranked(m: Table, rank: map<string, nat>) {
    m.Keys <= rank.Keys &&
    forall k, r :: k in m && r in References(m[k], []) && r in m && r != k ==> rank[r] < rank[k]
  }

  /** Translation of a ranked table succeeds once the fuel exceeds the ranks it reaches. */
  lemma {:induction false} RankedTerminates(m: Table, rank: map<string, nat>, s: string, id: string, parent: string, fuel: nat)
    requires Ranked(m, rank) && IsPending(id)
    requires forall r :: r in References(s, id) && r in m && r != parent ==> rank[r] < fuel
    ensures TranslateFrom(m, s, id, parent, fuel).Some?
    decreases fuel, |s|, 1
  {
    if s == [] {
      if id != [] {
        assert id in References(s, id);
        RankedResolves(m, rank, id, parent, fuel);
      }
    } else if id == [] {
      if s[0] == '$' {
        RankedTerminates(m, rank, s[1..], "$", parent, fuel);
      } else {
        RankedTerminates(m, rank, s[1..], [], parent, fuel);
      }
    } else if IsIdentChar(s[0]) {
      RankedTerminates(m, rank, s[1..], id + [s[0]], parent, fuel);
    } else {
      assert References(s, id) == [id] + References(s[1..], []);
      assert id in References(s, id);
      RankedResolves(m, rank, id, parent, fuel);
      RankedTerminates(m, rank, s[1..], [], parent, fuel);
    }
  }

  lemma {:induction false} RankedResolves(m: Table, rank: map<string, nat>, id: string, parent: string, fuel: nat)
    requires Ranked(m, rank)
    requires id in m && id != parent ==> rank[id] < fuel
    ensures Resolve(m, id, parent, fuel).Some?
    decreases fuel, 0, 0
  {
    if id in m && id != parent {
      RankedTerminates(m, rank, m[id], [], id, fuel - 1);
    }
  }

  /** With fuel above every rank, every text of a ranked table translates. */
  lemma {:induction false} RankedTableTranslates(m: Table, rank: map<string, nat>, text: string, parent: string, fuel: nat)
    requires Ranked(m, rank)
    requires forall k :: k in m ==> rank[k] < fuel
    ensures Translation(m, text, parent, fuel).Some?
  {
    RankedTerminates(m, rank, text, [], parent, fuel);
  }

  /**
    Loop protection is single-level only. When `a` expands to `b` and `b`
    to `a`, translating `a` needs unbounded recursion: no fuel suffices.
  */
  lemma {:induction false} MutualCycleDiverges(m: Table, a: string, b: string, parent: string, fuel: nat)
    requires IsRef(a) && IsRef(b) && a != b && a != parent
    requires a in m && b in m && m[a] == b && m[b] == a
    ensures Translation(m, a, parent, fuel) == None
    decreases fuel
  {
    RefAlone(m, a, parent, fuel);
    if fuel > 0 {
      MutualCycleDiverges(m, b, a, a, fuel - 1);
    }
  }

  /**
    Direct self-reference is quoted: a symbol whose value mentions only
    itself and undefined symbols expands to its value verbatim.
  */
  lemma {:induction false} SelfReferenceQuoted(m: Table, k: string, parent: string)
    requires IsRef(k) && k in m && k != parent
    requires forall r :: r in References(m[k], []) ==> r !in m || r == k
    ensures Translation(m, k, parent, 1) == Some(m[k])
  {
    RefAlone(m, k, parent, 1);
    QuotedUnchanged(m, m[k], [], k, 0);
    assert [] + m[k] == m[k];
  }
}
