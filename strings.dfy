/**
 * The two pieces of Python's `str` behaviour the search engine leans on:
 * the `<` order used to compare keys of the tree map, and `str.split()`
 * with no argument, used to cut a query into terms.
 */
module Strings {

  /** Python's `a < b` on `str`: code points compared left to right, and a
      proper prefix sorts before the longer string. */
  predicate Less(a: string, b: string)
    decreases |a|
  {
    if |a| == 0 then |b| > 0
    else if |b| == 0 then false
    else if a[0] != b[0] then a[0] < b[0]
    else Less(a[1..], b[1..])
  }

  lemma {:induction false} LessIrreflexive(a: string)
    ensures !Less(a, a)
    decreases |a|
  {
    if |a| > 0 {
      LessIrreflexive(a[1..]);
    }
  }

  lemma {:induction false} LessAsymmetric(a: string, b: string)
    requires Less(a, b)
    ensures !Less(b, a)
    decreases |a|
  {
    if |a| > 0 && |b| > 0 && a[0] == b[0] {
      LessAsymmetric(a[1..], b[1..]);
    }
  }

  lemma {:induction false} LessTransitive(a: string, b: string, c: string)
    requires Less(a, b) && Less(b, c)
    ensures Less(a, c)
    decreases |a|
  {
    if |a| > 0 && |b| > 0 && |c| > 0 && a[0] == b[0] && b[0] == c[0] {
      LessTransitive(a[1..], b[1..], c[1..]);
    }
  }

  /** Any two different strings are ordered one way or the other. */
  lemma {:induction false} LessTotal(a: string, b: string)
    requires a != b
    ensures Less(a, b) || Less(b, a)
    decreases |a|
  {
    if |a| > 0 && |b| > 0 && a[0] == b[0] {
      assert a == [a[0]] + a[1..] && b == [b[0]] + b[1..];
      LessTotal(a[1..], b[1..]);
    }
  }

  /** The characters for which Python's `str.isspace()` holds, the
      separators of `str.split()` called without an argument. */
  predicate IsSpace(c: char)
  {
    c == ' ' || ('\t' <= c <= '\r') || ('\U{1C}' <= c <= '\U{1F}') ||
    c == '\U{85}' || c == '\U{A0}' || c == '\U{1680}' ||
    ('\U{2000}' <= c <= '\U{200A}') || c == '\U{2028}' || c == '\U{2029}' ||
    c == '\U{202F}' || c == '\U{205F}' || c == '\U{3000}'
  }

  /** A term `str.split()` can produce: non-empty, without a separator. */
  predicate IsWord(w: string)
  {
    |w| > 0 && forall i :: 0 <= i < |w| ==> !IsSpace(w[i])
  }

  /** The characters of `s` that are not separators, in order. */
  function NonSpace(s: string): string
  {
    if s == [] then [] else (if IsSpace(s[0]) then [] else [s[0]]) + NonSpace(s[1..])
  }

  function Concat(ws: seq<string>): string
  {
    if ws == [] then [] else ws[0] + Concat(ws[1..])
  }

  /** The words of `ws` laid out with `gaps[0]` before the first word,
      `gaps[i]` between word i - 1 and word i, and the last gap after the
      last word. */
  function Join(ws: seq<string>, gaps: seq<string>): (s: string)
    requires |gaps| == |ws| + 1
    ensures |s| >= |gaps[0]|
    decreases |ws|
  {
    gaps[0] + if ws == [] then [] else ws[0] + Join(ws[1..], gaps[1..])
  }

  /** A run of separators, possibly empty. */
  predicate AllSpace(g: string)
  {
    forall i :: 0 <= i < |g| ==> IsSpace(g[i])
  }

  /** `gaps` can surround the words `ws`: every gap is a run of separators,
      and the gaps between two words are not empty. */
  predicate Separates(ws: seq<string>, gaps: seq<string>)
  {
    |gaps| == |ws| + 1 &&
    (forall i :: 0 <= i < |gaps| ==> AllSpace(gaps[i])) &&
    (forall i :: 0 < i < |ws| ==> |gaps[i]| > 0)
  }

  /** Length of the longest prefix of `s` that holds no separator. */
  function WordLength(s: string): (n: nat)
    ensures n <= |s|
    ensures forall i :: 0 <= i < n ==> !IsSpace(s[i])
    ensures n < |s| ==> IsSpace(s[n])
  {
    if s == [] || IsSpace(s[0]) then 0 else 1 + WordLength(s[1..])
  }

  lemma {:induction false} NonSpaceAppend(a: string, b: string)
    ensures NonSpace(a + b) == NonSpace(a) + NonSpace(b)
    decreases |a|
  {
    if a == [] {
      assert a + b == b;
    } else {
      assert (a + b)[1..] == a[1..] + b;
      NonSpaceAppend(a[1..], b);
    }
  }

  lemma {:induction false} NonSpaceOfWord(w: string)
    requires forall i :: 0 <= i < |w| ==> !IsSpace(w[i])
    ensures NonSpace(w) == w
    decreases |w|
  {
    if w != [] {
      NonSpaceOfWord(w[1..]);
    }
  }

  /** Python's `s.split()`: the maximal runs of non-separator characters. The
      words are non-empty, hold no separator, and together spell out every
      non-separator character of `s` in order. */
  function Split(s: string): (words: seq<string>)
    ensures forall i :: 0 <= i < |words| ==> IsWord(words[i])
    ensures Concat(words) == NonSpace(s)
    decreases |s|
  {
    if s == [] then []
    else if IsSpace(s[0]) then Split(s[1..])
    else
      var n := WordLength(s);
      var rest := Split(s[n..]);
      assert s == s[..n] + s[n..];
      NonSpaceAppend(s[..n], s[n..]);
      NonSpaceOfWord(s[..n]);
      assert ([s[..n]] + rest)[1..] == rest;
      [s[..n]] + rest
  }

  lemma {:induction false} WordLengthOfWord(w: string, rest: string)
    requires forall i :: 0 <= i < |w| ==> !IsSpace(w[i])
    requires rest == [] || IsSpace(rest[0])
    ensures WordLength(w + rest) == |w|
    decreases |w|
  {
    if w != [] {
      assert (w + rest)[1..] == w[1..] + rest;
      WordLengthOfWord(w[1..], rest);
    }
  }

  /** Separators in front of the text do not change its split. */
  lemma {:induction false} SplitAfterSpaces(g: string, s: string)
    requires AllSpace(g)
    ensures Split(g + s) == Split(s)
    decreases |g|
  {
    if g != [] {
      assert (g + s)[0] == g[0] && IsSpace(g[0]);
      assert (g + s)[1..] == g[1..] + s;
      SplitAfterSpaces(g[1..], s);
    } else {
      assert g + s == s;
    }
  }

  /** Splitting words laid out with any runs of separators between them,
      and any before or after them, gives exactly those words back. */
  lemma {:induction false} SplitJoin(ws: seq<string>, gaps: seq<string>)
    requires forall i :: 0 <= i < |ws| ==> IsWord(ws[i])
    requires Separates(ws, gaps)
    ensures Split(Join(ws, gaps)) == ws
    decreases |ws|
  {
    if ws == [] {
      assert Join(ws, gaps) == gaps[0] + [];
      SplitAfterSpaces(gaps[0], []);
    } else {
      var w, rest := ws[0], Join(ws[1..], gaps[1..]);
      assert Join(ws, gaps) == gaps[0] + (w + rest);
      SplitAfterSpaces(gaps[0], w + rest);
      assert rest == gaps[1] + if ws[1..] == [] then [] else ws[1] + Join(ws[2..], gaps[2..]);
      if |ws| > 1 {
        assert |gaps[1]| > 0;
      }
      assert rest == [] || IsSpace(rest[0]);
      WordLengthOfWord(w, rest);
      var s := w + rest;
      assert s[..|w|] == w;
      assert s[|w|..] == rest;
      SplitJoin(ws[1..], gaps[1..]);
      assert ws == [w] + ws[1..];
    }
  }

  /** Lengthening the first gap lengthens the text in front. */
  lemma JoinLongerFront(c: string, ws: seq<string>, gaps: seq<string>)
    requires |gaps| == |ws| + 1
    ensures Join(ws, [c + gaps[0]] + gaps[1..]) == c + Join(ws, gaps)
  {
    var gaps' := [c + gaps[0]] + gaps[1..];
    assert gaps'[1..] == gaps[1..];
  }

  /** A word in front with no gap before it. */
  lemma JoinWordFront(w: string, ws: seq<string>, gaps: seq<string>)
    requires |gaps| == |ws| + 1
    ensures Join([w] + ws, [""] + gaps) == w + Join(ws, gaps)
  {
    assert ([w] + ws)[1..] == ws && ([""] + gaps)[1..] == gaps;
  }

  /** The runs of separators that `Split` drops: with them, its words lay
      out `s` again, so by `SplitJoin` every text is split into the maximal
      runs of non-separators it is made of. */
  function Gaps(s: string): (gaps: seq<string>)
    ensures Separates(Split(s), gaps)
    ensures Join(Split(s), gaps) == s
    ensures s != [] && IsSpace(s[0]) ==> |gaps[0]| > 0
    decreases |s|
  {
    if s == [] then [""]
    else if IsSpace(s[0]) then
      var g := Gaps(s[1..]);
      GapsAfterSpace(s, Split(s[1..]), g);
      [[s[0]] + g[0]] + g[1..]
    else
      var n := WordLength(s);
      var g := Gaps(s[n..]);
      GapsAfterWord(s, n, Split(s[n..]), g);
      [""] + g
  }

  /** Separators added to the first gap keep the gaps separating. */
  lemma SeparatesLongerFront(c: string, ws: seq<string>, g: seq<string>)
    requires AllSpace(c) && Separates(ws, g)
    ensures Separates(ws, [c + g[0]] + g[1..])
  {
    var g' := [c + g[0]] + g[1..];
    forall i | 0 < i < |g'| ensures g'[i] == g[i] {
    }
  }

  /** A word in front with an empty first gap keeps the gaps separating,
      when the old first gap is not empty or there was no word. */
  lemma SeparatesWordFront(w: string, ws: seq<string>, g: seq<string>)
    requires Separates(ws, g) && (|ws| > 0 ==> |g[0]| > 0)
    ensures Separates([w] + ws, [""] + g)
  {
    var g' := [""] + g;
    forall i | 0 < i < |g'| ensures g'[i] == g[i - 1] {
    }
  }

  /** A separator in front of a laid-out text joins the first gap. */
  lemma GapsAfterSpace(s: string, ws: seq<string>, g: seq<string>)
    requires s != [] && IsSpace(s[0])
    requires Separates(ws, g) && Join(ws, g) == s[1..]
    ensures Separates(ws, [[s[0]] + g[0]] + g[1..])
    ensures Join(ws, [[s[0]] + g[0]] + g[1..]) == s
  {
    SeparatesLongerFront([s[0]], ws, g);
    JoinLongerFront([s[0]], ws, g);
    assert s == [s[0]] + s[1..];
  }

  /** A word of length `n` in front of a laid-out text comes with an empty
      first gap. */
  lemma GapsAfterWord(s: string, n: nat, ws: seq<string>, g: seq<string>)
    requires 0 < n <= |s| && (n < |s| ==> IsSpace(s[n]))
    requires Separates(ws, g) && Join(ws, g) == s[n..]
    requires s[n..] == [] ==> ws == []
    requires s[n..] != [] && IsSpace(s[n..][0]) ==> |g[0]| > 0
    ensures Separates([s[..n]] + ws, [""] + g)
    ensures Join([s[..n]] + ws, [""] + g) == s
  {
    if |ws| > 0 {
      assert s[n..][0] == s[n];
    }
    SeparatesWordFront(s[..n], ws, g);
    JoinWordFront(s[..n], ws, g);
    assert s == s[..n] + s[n..];
  }
}
