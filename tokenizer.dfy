/**
 * The tokenizer of `SimSearch::tokenize`: case-fold every fragment unless the
 * search is case sensitive, split on whitespace when `stop_whitespace` is set,
 * split every piece on each stop word in turn (`split_terminator`), and drop
 * the empty strings. `Tokens` is the specification; the engine's `Tokenize`
 * method follows the source's loop and is proved equal to it.
 */
module Tokenizer {
  import opened Wrappers
  import opened Text
  import opened Options

  /** Rust's `char::is_whitespace`: the characters with the Unicode White_Space property. */
  predicate IsWhitespace(c: char)
  {
    || ('\t' <= c <= '\r')
    || c == ' '
    || c == '\U{85}'
    || c == '\U{A0}'
    || c == '\U{1680}'
    || ('\U{2000}' <= c <= '\U{200A}')
    || c == '\U{2028}'
    || c == '\U{2029}'
    || c == '\U{202F}'
    || c == '\U{205F}'
    || c == '\U{3000}'
  }

  predicate NoWhitespace(t: string)
  {
    forall k :: 0 <= k < |t| ==> !IsWhitespace(t[k])
  }

  /** Lower-casing of one character, restricted to ASCII letters. */
  function LowerChar(c: char): char
  {
    if 'A' <= c <= 'Z' then (c as int + 32) as char else c
  }

  function Lower(s: string): string
  {
    seq(|s|, k requires 0 <= k < |s| => LowerChar(s[k]))
  }

  /** The first step of `tokenize` on one fragment: `to_lowercase` unless case sensitive. */
  function Fold(o: SearchOptions, s: string): string
  {
    if o.caseSensitive then s else Lower(s)
  }

  function FoldAll(o: SearchOptions, frags: seq<string>): seq<string>
  {
    seq(|frags|, k requires 0 <= k < |frags| => Fold(o, frags[k]))
  }

  /** Length of the longest prefix of `s` without whitespace. */
  function WordLength(s: string): (n: nat)
    ensures n <= |s|
    ensures forall k :: 0 <= k < n ==> !IsWhitespace(s[k])
    ensures s != [] && !IsWhitespace(s[0]) ==> n >= 1
    ensures n < |s| ==> IsWhitespace(s[n])
  {
    if s == [] || IsWhitespace(s[0]) then 0 else 1 + WordLength(s[1..])
  }

  /** `str::split_whitespace`: the maximal runs of non-whitespace characters, in order. */
  function SplitWhitespace(s: string): seq<string>
    decreases |s|
  {
    if s == [] then []
    else if IsWhitespace(s[0]) then SplitWhitespace(s[1..])
    else
      var n := WordLength(s);
      [s[..n]] + SplitWhitespace(s[n..])
  }

  /** The characters of `s`, each as a one-character string. */
  function Chars(s: string): seq<string>
  {
    seq(|s|, k requires 0 <= k < |s| => [s[k]])
  }

  /**
   * `str::split` on the pattern `w`: the pieces between the leftmost
   * non-overlapping occurrences of `w`. An empty pattern matches at every
   * character boundary, giving "" then each character then "".
   */
  function SplitOn(s: string, w: string): (r: seq<string>)
    ensures r != []
    decreases |s|
  {
    if w == [] then [[]] + Chars(s) + [[]]
    else
      match Find(s, w)
      case None => [s]
      case Some(i) => [s[..i]] + SplitOn(s[i + |w|..], w)
  }

  /** `str::split_terminator`: as `split`, but a trailing empty piece is skipped. */
  function SplitTerminator(s: string, w: string): seq<string>
  {
    var p := SplitOn(s, w);
    if p[|p| - 1] == [] then p[..|p| - 1] else p
  }

  /** `flat_map(split_whitespace)` over a vector of strings. */
  function SplitAllWhitespace(ts: seq<string>): seq<string>
  {
    if ts == [] then []
    else SplitAllWhitespace(ts[..|ts| - 1]) + SplitWhitespace(ts[|ts| - 1])
  }

  /** `flat_map(|t| t.split_terminator(w))` over a vector of strings. */
  function SplitAllTerminator(ts: seq<string>, w: string): seq<string>
  {
    if ts == [] then []
    else SplitAllTerminator(ts[..|ts| - 1], w) + SplitTerminator(ts[|ts| - 1], w)
  }

  /** The loop over the stop words: one `split_terminator` pass per word, in configuration order. */
  function StopSplit(ts: seq<string>, ws: seq<string>): seq<string>
  {
    if ws == [] then ts
    else SplitAllTerminator(StopSplit(ts, ws[..|ws| - 1]), ws[|ws| - 1])
  }

  /** One more stop word is one more `split_terminator` pass. */
  lemma StopSplitSnoc(ts: seq<string>, ws: seq<string>, i: nat)
    requires i < |ws|
    ensures StopSplit(ts, ws[..i + 1]) == SplitAllTerminator(StopSplit(ts, ws[..i]), ws[i])
  {
    assert ws[..i + 1][..i] == ws[..i];
  }

  /** `retain(|t| !t.is_empty())`. */
  function NonEmptyOnly(ts: seq<string>): (r: seq<string>)
    ensures forall t :: t in r <==> t in ts && t != []
  {
    if ts == [] then []
    else if ts[0] == [] then NonEmptyOnly(ts[1..])
    else [ts[0]] + NonEmptyOnly(ts[1..])
  }

  /** `tokenize`: the tokens of a sequence of text fragments under the options `o`. */
  function Tokens(o: SearchOptions, frags: seq<string>): seq<string>
  {
    var folded := FoldAll(o, frags);
    var split := if o.stopWhitespace then SplitAllWhitespace(folded) else folded;
    NonEmptyOnly(StopSplit(split, o.stopWords))
  }

  // ---------------------------------------------------------------------------
  // Properties of the pieces

  /** `x` is a substring of one of `ts`. */
  ghost predicate FromSome(x: string, ts: seq<string>)
  {
    exists k :: 0 <= k < |ts| && IsInfix(x, ts[k])
  }

  lemma FromSomeTransitive(x: string, ys: seq<string>, zs: seq<string>)
    requires FromSome(x, ys)
    requires forall y :: y in ys ==> FromSome(y, zs)
    ensures FromSome(x, zs)
  {
    var j :| 0 <= j < |ys| && IsInfix(x, ys[j]);
    assert ys[j] in ys;
    var k :| 0 <= k < |zs| && IsInfix(ys[j], zs[k]);
    InfixTransitive(x, ys[j], zs[k]);
  }

  lemma InfixOfSuffix(t: string, s: string, n: nat)
    requires n <= |s| && IsInfix(t, s[n..])
    ensures IsInfix(t, s)
  {
    SliceIsInfix(s, n, |s|);
    assert s[n..|s|] == s[n..];
    InfixTransitive(t, s[n..], s);
  }

  lemma NoWhitespaceInfix(x: string, y: string)
    requires NoWhitespace(y) && IsInfix(x, y)
    ensures NoWhitespace(x)
  {
    var i: nat :| OccursAt(y, x, i);
    assert forall k :: 0 <= k < |x| ==> x[k] == y[i + k];
  }

  /** Every piece of `split_whitespace` is non-empty, holds no whitespace and is a substring of its input. */
  lemma {:induction false} SplitWhitespacePieces(s: string)
    ensures forall t :: t in SplitWhitespace(s) ==> t != [] && NoWhitespace(t) && IsInfix(t, s)
    decreases |s|
  {
    if s == [] {
    } else if IsWhitespace(s[0]) {
      SplitWhitespacePieces(s[1..]);
      forall t | t in SplitWhitespace(s[1..]) ensures IsInfix(t, s) {
        InfixOfSuffix(t, s, 1);
      }
    } else {
      var n := WordLength(s);
      SplitWhitespacePieces(s[n..]);
      SliceIsInfix(s, 0, n);
      assert s[0..n] == s[..n];
      forall t | t in SplitWhitespace(s[n..]) ensures IsInfix(t, s) {
        InfixOfSuffix(t, s, n);
      }
    }
  }

  /** Every piece of `split` is a substring of its input, and none contains a non-empty pattern. */
  lemma {:induction false} SplitOnPieces(s: string, w: string)
    ensures forall t :: t in SplitOn(s, w) ==> IsInfix(t, s)
    ensures w != [] ==> forall t :: t in SplitOn(s, w) ==> !IsInfix(w, t)
    decreases |s|
  {
    if w == [] {
      CharsAreInfixes(s);
    } else {
      match Find(s, w)
      case None =>
        assert OccursAt(s, s, 0);
      case Some(i) =>
        FirstPieceClean(s, w, i);
        SplitOnPieces(s[i + |w|..], w);
        forall t | t in SplitOn(s[i + |w|..], w) ensures IsInfix(t, s) {
          InfixOfSuffix(t, s, i + |w|);
        }
    }
  }

  /** The pieces of a split on the empty pattern: "", each character, "". */
  lemma CharsAreInfixes(s: string)
    ensures forall t :: t in [[]] + Chars(s) + [[]] ==> IsInfix(t, s)
  {
    assert OccursAt(s, [], 0);
    forall t | t in Chars(s) ensures IsInfix(t, s) {
      var k :| 0 <= k < |s| && Chars(s)[k] == t;
      assert t == s[k..k + 1];
      SliceIsInfix(s, k, k + 1);
    }
  }

  /** The text before the leftmost occurrence is a substring free of the pattern. */
  lemma FirstPieceClean(s: string, w: string, i: nat)
    requires w != [] && Find(s, w) == Some(i)
    ensures IsInfix(s[..i], s) && !IsInfix(w, s[..i])
  {
    SliceIsInfix(s, 0, i);
    assert s[0..i] == s[..i];
    forall j: nat | OccursAt(s[..i], w, j) ensures false {
      assert s[..i][j..j + |w|] == s[j..j + |w|];
      assert OccursAt(s, w, j);
    }
  }

  lemma SplitTerminatorPieces(s: string, w: string)
    ensures forall t :: t in SplitTerminator(s, w) ==> IsInfix(t, s)
    ensures w != [] ==> forall t :: t in SplitTerminator(s, w) ==> !IsInfix(w, t)
  {
    SplitOnPieces(s, w);
    var p := SplitOn(s, w);
    assert forall t :: t in p[..|p| - 1] ==> t in p;
  }

  lemma {:induction false} SplitAllWhitespaceSound(ts: seq<string>)
    ensures forall x :: x in SplitAllWhitespace(ts) ==> x != [] && NoWhitespace(x) && FromSome(x, ts)
    decreases |ts|
  {
    if ts != [] {
      var init, last := ts[..|ts| - 1], ts[|ts| - 1];
      SplitAllWhitespaceSound(init);
      SplitWhitespacePieces(last);
      forall x | x in SplitAllWhitespace(ts) ensures FromSome(x, ts) {
        if x in SplitAllWhitespace(init) {
          var k :| 0 <= k < |init| && IsInfix(x, init[k]);
          assert init[k] == ts[k];
        } else {
          assert IsInfix(x, ts[|ts| - 1]);
        }
      }
    }
  }

  lemma {:induction false} SplitAllTerminatorSound(ts: seq<string>, w: string)
    ensures forall x :: x in SplitAllTerminator(ts, w) ==> FromSome(x, ts)
    ensures w != [] ==> forall x :: x in SplitAllTerminator(ts, w) ==> !IsInfix(w, x)
    decreases |ts|
  {
    if ts != [] {
      var init, last := ts[..|ts| - 1], ts[|ts| - 1];
      SplitAllTerminatorSound(init, w);
      SplitTerminatorPieces(last, w);
      forall x | x in SplitAllTerminator(ts, w) ensures FromSome(x, ts) {
        if x in SplitAllTerminator(init, w) {
          var k :| 0 <= k < |init| && IsInfix(x, init[k]);
          assert init[k] == ts[k];
        } else {
          assert IsInfix(x, ts[|ts| - 1]);
        }
      }
    }
  }

  /** After the stop-word passes every piece is a substring of an input piece and contains none of the non-empty stop words. */
  lemma StopSplitSound(ts: seq<string>, ws: seq<string>)
    ensures forall x :: x in StopSplit(ts, ws) ==> FromSome(x, ts)
    ensures forall x, k :: x in StopSplit(ts, ws) && 0 <= k < |ws| && ws[k] != [] ==> !IsInfix(ws[k], x)
  {
    StopSplitFromInput(ts, ws);
    StopSplitAvoids(ts, ws);
  }

  /** Every piece the stop-word passes leave is a substring of an input piece. */
  lemma {:induction false} StopSplitFromInput(ts: seq<string>, ws: seq<string>)
    ensures forall x :: x in StopSplit(ts, ws) ==> FromSome(x, ts)
    decreases |ws|
  {
    if ws == [] {
      forall x | x in ts ensures FromSome(x, ts) {
        var k :| 0 <= k < |ts| && ts[k] == x;
        assert OccursAt(x, x, 0);
      }
    } else {
      var before := StopSplit(ts, ws[..|ws| - 1]);
      StopSplitFromInput(ts, ws[..|ws| - 1]);
      SplitAllTerminatorSound(before, ws[|ws| - 1]);
      forall x | x in StopSplit(ts, ws) ensures FromSome(x, ts) {
        FromSomeTransitive(x, before, ts);
      }
    }
  }

  /** No piece the stop-word passes leave contains a non-empty stop word. */
  lemma {:induction false} StopSplitAvoids(ts: seq<string>, ws: seq<string>)
    ensures forall x, k :: x in StopSplit(ts, ws) && 0 <= k < |ws| && ws[k] != [] ==> !IsInfix(ws[k], x)
    decreases |ws|
  {
    if ws != [] {
      var init, last := ws[..|ws| - 1], ws[|ws| - 1];
      var before := StopSplit(ts, init);
      StopSplitAvoids(ts, init);
      SplitAllTerminatorSound(before, last);
      forall x, k | x in StopSplit(ts, ws) && 0 <= k < |ws| - 1 && ws[k] != [] ensures !IsInfix(ws[k], x) {
        var j :| 0 <= j < |before| && IsInfix(x, before[j]);
        assert before[j] in before && init[k] == ws[k];
        if IsInfix(ws[k], x) {
          InfixTransitive(ws[k], x, before[j]);
        }
      }
    }
  }

  // ---------------------------------------------------------------------------
  // Properties of the tokenizer's output

  /** No token is the empty string. */
  lemma TokensNonEmpty(o: SearchOptions, frags: seq<string>)
    ensures forall t :: t in Tokens(o, frags) ==> t != []
  {
  }

  /** Every token is a contiguous substring of the case-folded form of one of the fragments. */
  lemma TokensAreInfixes(o: SearchOptions, frags: seq<string>)
    ensures forall t :: t in Tokens(o, frags) ==> exists k :: 0 <= k < |frags| && IsInfix(t, Fold(o, frags[k]))
  {
    var folded := FoldAll(o, frags);
    var split := if o.stopWhitespace then SplitAllWhitespace(folded) else folded;
    StopSplitSound(split, o.stopWords);
    SplitAllWhitespaceSound(folded);
    forall t | t in Tokens(o, frags) ensures exists k :: 0 <= k < |frags| && IsInfix(t, Fold(o, frags[k])) {
      assert t in StopSplit(split, o.stopWords);
      if o.stopWhitespace {
        FromSomeTransitive(t, split, folded);
      }
      var k :| 0 <= k < |folded| && IsInfix(t, folded[k]);
      assert folded[k] == Fold(o, frags[k]);
    }
  }

  /** With `stop_whitespace` set, no token contains whitespace. */
  lemma TokensHaveNoWhitespace(o: SearchOptions, frags: seq<string>)
    requires o.stopWhitespace
    ensures forall t :: t in Tokens(o, frags) ==> NoWhitespace(t)
  {
    var split := SplitAllWhitespace(FoldAll(o, frags));
    StopSplitSound(split, o.stopWords);
    SplitAllWhitespaceSound(FoldAll(o, frags));
    forall t | t in Tokens(o, frags) ensures NoWhitespace(t) {
      var j :| 0 <= j < |split| && IsInfix(t, split[j]);
      assert split[j] in split;
      NoWhitespaceInfix(t, split[j]);
    }
  }

  /** No token contains a non-empty configured stop word. */
  lemma TokensAvoidStopWords(o: SearchOptions, frags: seq<string>)
    ensures forall t, w :: t in Tokens(o, frags) && w in o.stopWords && w != [] ==> !IsInfix(w, t)
  {
    var folded := FoldAll(o, frags);
    var split := if o.stopWhitespace then SplitAllWhitespace(folded) else folded;
    StopSplitSound(split, o.stopWords);
    forall t, w | t in Tokens(o, frags) && w in o.stopWords && w != [] ensures !IsInfix(w, t) {
      var k :| 0 <= k < |o.stopWords| && o.stopWords[k] == w;
    }
  }

  // ---------------------------------------------------------------------------
  // Completeness: the pieces account for the whole input

  /** The pieces `ps` with `w` between each two of them: the inverse of `split`. */
  function Join(ps: seq<string>, w: string): string
  {
    if ps == [] then []
    else if |ps| == 1 then ps[0]
    else ps[0] + w + Join(ps[1..], w)
  }

  /** The concatenation of the pieces `ps`. */
  function Concat(ps: seq<string>): string
  {
    if ps == [] then [] else ps[0] + Concat(ps[1..])
  }

  /** The characters of `s` that are not whitespace, in order. */
  function NonWhitespace(s: string): string
  {
    if s == [] then []
    else if IsWhitespace(s[0]) then NonWhitespace(s[1..])
    else [s[0]] + NonWhitespace(s[1..])
  }

  /** Joining the pieces of `split` with the pattern gives back the input, for every pattern. */
  lemma SplitOnJoin(s: string, w: string)
    ensures Join(SplitOn(s, w), w) == s
  {
    if w == [] {
      JoinChars(s);
    } else {
      SplitOnJoinPattern(s, w);
    }
  }

  lemma {:induction false} SplitOnJoinPattern(s: string, w: string)
    requires w != []
    ensures Join(SplitOn(s, w), w) == s
    decreases |s|
  {
    var f := Find(s, w);
    if f.Some? {
      var i := f.value;
      var rest := s[i + |w|..];
      var ps := SplitOn(rest, w);
      assert SplitOn(s, w) == [s[..i]] + ps;
      SplitOnJoinPattern(rest, w);
      JoinCons(s[..i], ps, w);
      AroundOccurrence(s, w, i);
    }
  }

  /** A string is what comes before an occurrence, the occurrence, and what follows it. */
  lemma AroundOccurrence(s: string, w: string, i: nat)
    requires OccursAt(s, w, i)
    ensures s == s[..i] + w + s[i + |w|..]
  {
    assert s == s[..i] + s[i..i + |w|] + s[i + |w|..];
  }

  lemma JoinCons(p: string, ps: seq<string>, w: string)
    requires ps != []
    ensures Join([p] + ps, w) == p + w + Join(ps, w)
  {
    assert ([p] + ps)[1..] == ps;
  }

  /** With the empty pattern the pieces are "", each character, then "". */
  lemma JoinChars(s: string)
    ensures Join([[]] + Chars(s) + [[]], []) == s
  {
    JoinCharsTail(s);
    assert ([[]] + Chars(s) + [[]])[1..] == Chars(s) + [[]];
  }

  lemma {:induction false} JoinCharsTail(s: string)
    ensures Join(Chars(s) + [[]], []) == s
    decreases |s|
  {
    if s != [] {
      JoinCharsTail(s[1..]);
      assert (Chars(s) + [[]])[0] == [s[0]];
      assert (Chars(s) + [[]])[1..] == Chars(s[1..]) + [[]];
      assert s == [s[0]] + s[1..];
    }
  }

  /** The pieces of `split_whitespace`, concatenated, are exactly the input's non-whitespace characters. */
  lemma {:induction false} SplitWhitespaceConcat(s: string)
    ensures Concat(SplitWhitespace(s)) == NonWhitespace(s)
    decreases |s|
  {
    if s != [] {
      if !IsWhitespace(s[0]) {
        var n := WordLength(s);
        SplitWhitespaceConcat(s[n..]);
        NonWhitespaceOfWord(s, n);
        assert SplitWhitespace(s) == [s[..n]] + SplitWhitespace(s[n..]);
      } else {
        SplitWhitespaceConcat(s[1..]);
      }
    }
  }

  /** A prefix without whitespace is kept whole by `NonWhitespace`. */
  lemma {:induction false} NonWhitespaceOfWord(s: string, n: nat)
    requires n <= |s| && forall k :: 0 <= k < n ==> !IsWhitespace(s[k])
    ensures NonWhitespace(s) == s[..n] + NonWhitespace(s[n..])
    decreases n
  {
    if n > 0 {
      NonWhitespaceOfWord(s[1..], n - 1);
      assert s[1..][n - 1..] == s[n..];
      assert s[..n] == [s[0]] + s[1..][..n - 1];
    }
  }

  /** A pattern that does not occur leaves a non-empty string as one piece. */
  lemma SplitTerminatorAbsent(x: string, w: string)
    requires x != [] && !IsInfix(w, x)
    ensures SplitTerminator(x, w) == [x]
  {
    if w == [] {
      assert OccursAt(x, w, 0);
    } else {
      assert Find(x, w).None?;
    }
  }

  /** Stop words that do not occur leave a single non-empty piece alone. */
  lemma {:induction false} StopSplitAbsent(x: string, ws: seq<string>)
    requires x != [] && forall k :: 0 <= k < |ws| ==> !IsInfix(ws[k], x)
    ensures StopSplit([x], ws) == [x]
    decreases |ws|
  {
    if ws != [] {
      StopSplitAbsent(x, ws[..|ws| - 1]);
      SplitTerminatorAbsent(x, ws[|ws| - 1]);
      assert SplitAllTerminator([x], ws[|ws| - 1]) == SplitAllTerminator([], ws[|ws| - 1]) + SplitTerminator(x, ws[|ws| - 1]);
    }
  }

  /** A whitespace-free non-empty string is its own single `split_whitespace` piece. */
  lemma SplitWhitespaceWord(x: string)
    requires x != [] && NoWhitespace(x)
    ensures SplitWhitespace(x) == [x]
  {
    WordLengthOfWord(x);
    assert x[..|x|] == x && x[|x|..] == [];
    assert SplitWhitespace(x) == [x] + SplitWhitespace([]);
  }

  lemma {:induction false} WordLengthOfWord(x: string)
    requires NoWhitespace(x)
    ensures WordLength(x) == |x|
    decreases |x|
  {
    if x != [] {
      WordLengthOfWord(x[1..]);
    }
  }

  /**
   * A fragment whose folded form is non-empty, holds no whitespace when
   * whitespace splits, and contains none of the stop words becomes exactly
   * one token: its folded form.
   */
  lemma TokensOfCleanFragment(o: SearchOptions, f: string)
    requires Fold(o, f) != []
    requires o.stopWhitespace ==> NoWhitespace(Fold(o, f))
    requires forall k :: 0 <= k < |o.stopWords| ==> !IsInfix(o.stopWords[k], Fold(o, f))
    ensures Tokens(o, [f]) == [Fold(o, f)]
  {
    var x := Fold(o, f);
    assert FoldAll(o, [f]) == [x];
    var split := if o.stopWhitespace then SplitAllWhitespace([x]) else [x];
    if o.stopWhitespace {
      SplitWhitespaceWord(x);
      assert [x][..0] == [];
      assert SplitAllWhitespace([x]) == SplitAllWhitespace([]) + SplitWhitespace(x);
    }
    assert split == [x];
    StopSplitAbsent(x, o.stopWords);
    assert Tokens(o, [f]) == NonEmptyOnly(StopSplit(split, o.stopWords));
    assert NonEmptyOnly([x]) == [x] + NonEmptyOnly([]);
  }
}
