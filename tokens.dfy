/**
  `tokenize` and `split` of `wire::string`. `tokenize` cuts the text at
  every delimiter and keeps only the non-empty pieces; `split` keeps every
  delimiter as a one-character token of its own and always ends with the
  (possibly empty) text after the last delimiter.
*/
module Tokens {

  /** The texts of a list, one after the other. */
  function Join(ts: seq<string>): (r: string)
    ensures ts == [] ==> r == []
    decreases |ts|
  {
    if ts == [] then [] else Join(ts[..|ts| - 1]) + ts[|ts| - 1]
  }

  lemma {:induction false} JoinAppend(ts: seq<string>, t: string)
    ensures Join(ts + [t]) == Join(ts) + t
  {
    assert (ts + [t])[..|ts|] == ts;
  }

  /** The characters of `s` that are not delimiters, in order. */
  function Kept(s: string, chars: string): (r: string)
    ensures |r| <= |s|
    decreases |s|
  {
    if s == [] then []
    else if s[|s| - 1] in chars then Kept(s[..|s| - 1], chars)
    else Kept(s[..|s| - 1], chars) + [s[|s| - 1]]
  }

  predicate Delimiter(c: char, chars: string) {
    c in chars
  }

  // ---------------------------------------------------------------------
  // tokenize
  // ---------------------------------------------------------------------

  /**
    The runs after one more character `c` behind the text `p` whose runs
    are `w`: a delimiter adds nothing, a non-delimiter extends the run the
    character before it ended, or starts a new one after a delimiter.
  */
  function Extend(w: seq<string>, p: string, c: char, chars: string): seq<string> {
    if c in chars then w
    else if |p| == 0 || p[|p| - 1] in chars || |w| == 0 then w + [[c]]
    else w[..|w| - 1] + [w[|w| - 1] + [c]]
  }

  /** The maximal runs of non-delimiters of `s`, in order, built from the end of the text. */
  function Words(s: string, chars: string): (ws: seq<string>)
    decreases |s|
  {
    if s == [] then [] else Extend(Words(s[..|s| - 1], chars), s[..|s| - 1], s[|s| - 1], chars)
  }

  /** One more character, in terms of the words before it. */
  lemma {:induction false} WordsSnoc(q: string, x: char, chars: string)
    ensures Words(q + [x], chars) == Extend(Words(q, chars), q, x, chars)
  {
    assert (q + [x])[..|q|] == q;
  }

  /** What the deque holds after the characters of `p`: the runs, and an empty run waiting after a delimiter. */
  function Pending(p: string, chars: string): (ts: seq<string>)
    ensures |ts| > 0 || (|p| > 0 && p[|p| - 1] !in chars)
  {
    Words(p, chars) + (if |p| == 0 || p[|p| - 1] in chars then [[]] else [])
  }

  /** One turn of the loop of `tokenize`, on the deque. */
  lemma {:induction false} PendingStep(p: string, c: char, chars: string)
    ensures var ts := Pending(p, chars);
      |ts| > 0 &&
      Pending(p + [c], chars) ==
        if c !in chars then ts[..|ts| - 1] + [ts[|ts| - 1] + [c]]
        else if |ts[|ts| - 1]| > 0 then ts + [[]]
        else ts
  {
    WordsSnoc(p, c, chars);
    var w := Words(p, chars);
    var ts := Pending(p, chars);
    var q := p + [c];
    assert |q| > 0 && q[|q| - 1] == c;
    var newRun := |p| == 0 || p[|p| - 1] in chars;
    if !newRun {
      WordsEndInRun(p, chars);
      WordsShape(p, chars);
      assert ts == w && |w[|w| - 1]| > 0;
    } else {
      assert ts == w + [[]] && ts[..|ts| - 1] == w && ts[|ts| - 1] == [];
    }
    if c !in chars {
      assert newRun ==> [] + [c] == [c];
      assert Pending(q, chars) == Extend(w, p, c, chars);
    } else {
      assert Pending(q, chars) == w + [[]];
    }
  }

  /** `tokenize(chars)`: the character loop of the source, then the empty tail tokens dropped. */
  method Tokenize(s: string, chars: string) returns (tokens: seq<string>)
    ensures tokens == Words(s, chars)
  {
    tokens := [[]];
    var i := 0;
    while i < |s|
      invariant i <= |s| && tokens == Pending(s[..i], chars)
    {
      var c := s[i];
      assert s[..i + 1] == s[..i] + [c];
      PendingStep(s[..i], c, chars);
      var last := tokens[|tokens| - 1];
      if !Delimiter(c, chars) {
        tokens := tokens[..|tokens| - 1] + [last + [c]];
      } else if |last| > 0 {
        tokens := tokens + [[]];
      }
      i := i + 1;
    }
    assert s[..|s|] == s;
    WordsShape(s, chars);
    while |tokens| > 0 && |tokens[|tokens| - 1]| == 0
      invariant tokens == Words(s, chars) || tokens == Words(s, chars) + [[]]
    {
      tokens := tokens[..|tokens| - 1];
    }
  }

  /** Every word is non-empty and holds no delimiter. */
  lemma {:induction false} WordsShape(s: string, chars: string)
    ensures forall k :: 0 <= k < |Words(s, chars)| ==>
              |Words(s, chars)[k]| > 0 && forall j :: 0 <= j < |Words(s, chars)[k]| ==> Words(s, chars)[k][j] !in chars
    decreases |s|
  {
    if s != [] {
      WordsShape(s[..|s| - 1], chars);
    }
  }

  /** The words, joined, are the text with its delimiters removed. */
  lemma {:induction false} WordsJoin(s: string, chars: string)
    ensures Join(Words(s, chars)) == Kept(s, chars)
    decreases |s|
  {
    if s != [] {
      var p := s[..|s| - 1];
      var c := s[|s| - 1];
      var w := Words(p, chars);
      WordsJoin(p, chars);
      if c !in chars {
        if |p| == 0 || p[|p| - 1] in chars || |w| == 0 {
          JoinAppend(w, [c]);
        } else {
          var init := w[..|w| - 1];
          assert w == init + [w[|w| - 1]];
          JoinAppend(init, w[|w| - 1]);
          JoinAppend(init, w[|w| - 1] + [c]);
        }
      }
    }
  }

  /** A text that ends in a non-delimiter ends in a word. */
  lemma {:induction false} WordsEndInRun(s: string, chars: string)
    requires |s| > 0 && s[|s| - 1] !in chars
    ensures |Words(s, chars)| > 0
  {
  }

  /** A delimiter separates: the words around it are the words of either side. */
  lemma {:induction false} WordsSplit(p: string, c: char, u: string, chars: string)
    requires c in chars
    ensures Words(p + [c] + u, chars) == Words(p, chars) + Words(u, chars)
    decreases |u|
  {
    if u == [] {
      WordsSnoc(p, c, chars);
      assert p + [c] + u == p + [c];
    } else {
      var u' := u[..|u| - 1];
      var x := u[|u| - 1];
      var s' := p + [c] + u';
      assert u == u' + [x];
      assert p + [c] + u == s' + [x];
      assert s'[|s'| - 1] == if u' == [] then c else u'[|u'| - 1];
      WordsSplit(p, c, u', chars);
      if u' != [] && u'[|u'| - 1] !in chars {
        WordsEndInRun(u', chars);
      }
      calc {
        Words(s' + [x], chars);
        { WordsSnoc(s', x, chars); }
        Extend(Words(p, chars) + Words(u', chars), s', x, chars);
        { ExtendAfter(Words(p, chars), Words(u', chars), s', u', x, c, chars); }
        Words(p, chars) + Extend(Words(u', chars), u', x, chars);
        { WordsSnoc(u', x, chars); }
        Words(p, chars) + Words(u, chars);
      }
    }
  }

  /** Extending the runs behind a delimiter extends only the runs after it. */
  lemma {:induction false} ExtendAfter(wp: seq<string>, wu: seq<string>, s': string, u': string, x: char, c: char, chars: string)
    requires c in chars && |s'| > 0
    requires s'[|s'| - 1] == (if u' == [] then c else u'[|u'| - 1])
    requires u' != [] && u'[|u'| - 1] !in chars ==> |wu| > 0
    ensures Extend(wp + wu, s', x, chars) == wp + Extend(wu, u', x, chars)
  {
    var w := wp + wu;
    if x !in chars && u' != [] && u'[|u'| - 1] !in chars {
      assert w[..|w| - 1] == wp + wu[..|wu| - 1];
    }
  }

  /** A run without delimiters is a single word. */
  lemma {:induction false} WordsRun(u: string, chars: string)
    requires |u| > 0 && forall j :: 0 <= j < |u| ==> u[j] !in chars
    ensures Words(u, chars) == [u]
    decreases |u|
  {
    var p := u[..|u| - 1];
    if |p| > 0 {
      WordsRun(p, chars);
      assert p + [u[|u| - 1]] == u;
    } else {
      assert u == [u[0]];
    }
  }

  /** "a,,b" cut at ',' gives "a" and "b". */
  lemma {:induction false} TwoWords(s: string, chars: string)
    requires s == "a,,b" && chars == ","
    ensures Words(s, chars) == ["a", "b"]
  {
    WordsRun("a", chars);
    WordsRun(",b"[1..], chars);
    assert s == "a" + [','] + ",b";
    WordsSplit("a", ',', ",b", chars);
    assert ",b" == [] + [','] + "b";
    WordsSplit([], ',', "b", chars);
  }

  // ---------------------------------------------------------------------
  // split
  // ---------------------------------------------------------------------

  /** The run of non-delimiters at the end of `s`: the `str` of the loop. */
  function Tail(s: string, chars: string): (t: string)
    decreases |s|
  {
    if s == [] || s[|s| - 1] in chars then [] else Tail(s[..|s| - 1], chars) + [s[|s| - 1]]
  }

  /** The tokens pushed so far: each finished run, then each delimiter on its own. */
  function Pushed(s: string, chars: string): seq<string>
    decreases |s|
  {
    if s == [] then []
    else
      var p := s[..|s| - 1];
      var c := s[|s| - 1];
      if c !in chars then Pushed(p, chars)
      else Pushed(p, chars) + (if |Tail(p, chars)| > 0 then [Tail(p, chars)] else []) + [[c]]
  }

  /** `split(delimiters)`: the tokens pushed, and the final run, empty or not. */
  function Split(s: string, chars: string): (ts: seq<string>)
    ensures |ts| > 0
  {
    Pushed(s, chars) + [Tail(s, chars)]
  }

  method SplitBy(s: string, delimiters: string) returns (tokens: seq<string>)
    ensures tokens == Split(s, delimiters)
  {
    tokens := [];
    var str: string := [];
    var i := 0;
    while i < |s|
      invariant i <= |s| && tokens == Pushed(s[..i], delimiters) && str == Tail(s[..i], delimiters)
    {
      var c := s[i];
      assert s[..i + 1] == s[..i] + [c];
      SplitSnoc(s[..i], c, delimiters);
      if !Delimiter(c, delimiters) {
        str := str + [c];
      } else {
        if |str| > 0 {
          tokens := tokens + [str];
        }
        tokens := tokens + [[c]];
        str := [];
      }
      i := i + 1;
    }
    assert s[..|s|] == s;
    tokens := tokens + [str];
  }

  /** One more character, in terms of the run and the tokens before it. */
  lemma {:induction false} SplitSnoc(q: string, x: char, chars: string)
    ensures Tail(q + [x], chars) == if x in chars then [] else Tail(q, chars) + [x]
    ensures Pushed(q + [x], chars) ==
      if x !in chars then Pushed(q, chars)
      else Pushed(q, chars) + (if |Tail(q, chars)| > 0 then [Tail(q, chars)] else []) + [[x]]
  {
    assert (q + [x])[..|q|] == q;
  }

  /** A token that is one delimiter. */
  predicate DelimiterToken(t: string, chars: string) {
    |t| == 1 && t[0] in chars
  }

  /** A token without delimiters, possibly empty. */
  predicate DelimiterFree(t: string, chars: string) {
    forall j :: 0 <= j < |t| ==> t[j] !in chars
  }

  /**
    The shape of a `split` result: every token before the last is a
    delimiter alone or a non-empty run without delimiters, the last is a
    run without delimiters, possibly empty, and no two runs are adjacent:
    a delimiter lies between them.
  */
  predicate SplitShaped(ts: seq<string>, chars: string) {
    && |ts| > 0
    && (forall k :: 0 <= k < |ts| - 1 ==> DelimiterToken(ts[k], chars) || (|ts[k]| > 0 && DelimiterFree(ts[k], chars)))
    && DelimiterFree(ts[|ts| - 1], chars)
    && (forall k :: 0 <= k < |ts| - 1 ==> DelimiterToken(ts[k], chars) || DelimiterToken(ts[k + 1], chars))
  }

  /** The pushed tokens joined, then the pending run, give back the text. */
  lemma {:induction false} PushedJoin(s: string, chars: string)
    ensures Join(Pushed(s, chars)) + Tail(s, chars) == s
    decreases |s|
  {
    if s != [] {
      var p := s[..|s| - 1];
      var c := s[|s| - 1];
      assert s == p + [c];
      PushedJoin(p, chars);
      SplitSnoc(p, c, chars);
      var t := Tail(p, chars);
      var d := Pushed(p, chars);
      if c in chars {
        assert Tail(s, chars) == [];
        if |t| > 0 {
          assert Pushed(s, chars) == d + [t] + [[c]];
          JoinAppend(d, t);
          JoinAppend(d + [t], [c]);
        } else {
          assert Pushed(s, chars) == d + [[c]];
          JoinAppend(d, [c]);
        }
      }
    }
  }

  /** `split` loses nothing: its tokens joined are the text. */
  lemma {:induction false} SplitJoin(s: string, chars: string)
    ensures Join(Split(s, chars)) == s
  {
    PushedJoin(s, chars);
    JoinAppend(Pushed(s, chars), Tail(s, chars));
  }

  /** Extending the last run keeps the shape. */
  lemma {:induction false} ShapeExtend(d: seq<string>, t: string, x: char, chars: string)
    requires SplitShaped(d + [t], chars) && x !in chars
    ensures SplitShaped(d + [t + [x]], chars)
  {
    var ts := d + [t + [x]];
    forall k | 0 <= k < |ts| - 1
      ensures DelimiterToken(ts[k], chars) || DelimiterToken(ts[k + 1], chars)
    {
      assert ts[k] == (d + [t])[k];
      if k + 1 < |d| {
        assert ts[k + 1] == (d + [t])[k + 1];
      }
    }
    assert forall k :: 0 <= k < |d| ==> ts[k] == (d + [t])[k];
  }

  /** A delimiter closes the pending run, stands alone, and opens an empty one. */
  lemma {:induction false} ShapeClose(d: seq<string>, t: string, x: char, chars: string)
    requires SplitShaped(d + [t], chars) && x in chars
    ensures SplitShaped(d + (if |t| > 0 then [t] else []) + [[x]] + [[]], chars)
  {
    var ts := d + (if |t| > 0 then [t] else []) + [[x]] + [[]];
    var m := |ts| - 2;
    assert ts[m] == [x] && DelimiterToken(ts[m], chars);
    assert forall k :: 0 <= k < |d| ==> ts[k] == (d + [t])[k];
    if |t| > 0 {
      assert ts[|d|] == t;
    }
  }

  /** Every `split` result has the shape above. */
  lemma {:induction false} SplitShape(s: string, chars: string)
    ensures SplitShaped(Split(s, chars), chars)
    decreases |s|
  {
    if s != [] {
      var p := s[..|s| - 1];
      var c := s[|s| - 1];
      assert s == p + [c];
      SplitShape(p, chars);
      SplitSnoc(p, c, chars);
      if c in chars {
        ShapeClose(Pushed(p, chars), Tail(p, chars), c, chars);
      } else {
        ShapeExtend(Pushed(p, chars), Tail(p, chars), c, chars);
      }
    }
  }

  /** "a,b" splits into "a", ",", "b"; "a," ends with an empty token; "" gives one empty token. */
  lemma {:induction false} SplitSamples(s: string, t: string, chars: string)
    requires s == "a,b" && t == "a," && chars == ","
    ensures Split(s, chars) == ["a", ",", "b"]
    ensures Split(t, chars) == ["a", ",", ""]
    ensures Split([], chars) == [[]]
  {
    var a: string := "a";
    assert a == [] + ['a'] && t == a + [','] && s == t + ['b'];
    assert 'a' !in chars && ',' in chars && 'b' !in chars;
    SplitSnoc([], 'a', chars);
    assert Tail(a, chars) == a && Pushed(a, chars) == [];
    SplitSnoc(a, ',', chars);
    assert Tail(t, chars) == [] && Pushed(t, chars) == [a, ","];
    SplitSnoc(t, 'b', chars);
    assert Tail(s, chars) == "b" && Pushed(s, chars) == [a, ","];
  }
}
