/**
 * One web page's index: an AVL tree map from each word of the page to the
 * increasing list of positions where it occurs, and the page's priority,
 * the number of occurrences of a query's terms, cached per query.
 */
module PageIndex {
  import opened Strings
  import opened AvlTreeMap
  import opened Wrappers

  /** The positions of `w` in `words`, in increasing order: the list the
      index holds for `w` once every word has been seen. */
  function Positions(words: seq<string>, w: string): seq<nat>
  {
    if words == [] then []
    else
      var n := |words| - 1;
      Positions(words[..n], w) + (if words[n] == w then [n] else [])
  }

  /** The list of `w` holds exactly the positions where `w` stands, each
      once, in strictly increasing order, so its length is the number of
      occurrences of `w`. */
  lemma PositionsExact(words: seq<string>, w: string)
    ensures var ps := Positions(words, w);
      (forall j :: 0 <= j < |ps| ==> ps[j] < |words| && words[ps[j]] == w) &&
      (forall i, j :: 0 <= i < j < |ps| ==> ps[i] < ps[j]) &&
      (forall p :: 0 <= p < |words| && words[p] == w ==> p in ps) &&
      |ps| == multiset(words)[w]
  {
    PositionsSorted(words, w);
    PositionsComplete(words, w);
    PositionsCount(words, w);
  }

  /** Every listed position holds `w`, and the list increases strictly. */
  lemma {:induction false} PositionsSorted(words: seq<string>, w: string)
    ensures HoldsAt(Positions(words, w), words, w)
    ensures forall i, j :: 0 <= i < j < |Positions(words, w)| ==> Positions(words, w)[i] < Positions(words, w)[j]
  {
    if words != [] {
      var n := |words| - 1;
      var pre := Positions(words[..n], w);
      PositionsSorted(words[..n], w);
      assert Positions(words, w) == pre + (if words[n] == w then [n] else []);
      forall j | 0 <= j < |pre| ensures pre[j] < n && words[pre[j]] == w {
        assert words[..n][pre[j]] == w;
      }
    }
  }

  /** Each of `ps` is a position of `words` holding `w`. */
  ghost predicate HoldsAt(ps: seq<nat>, words: seq<string>, w: string)
  {
    forall j :: 0 <= j < |ps| ==> ps[j] < |words| && words[ps[j]] == w
  }

  /** Every position holding `w` is listed. */
  lemma {:induction false} PositionsComplete(words: seq<string>, w: string)
    ensures forall p :: 0 <= p < |words| && words[p] == w ==> p in Positions(words, w)
  {
    if words != [] {
      var n := |words| - 1;
      var pre := Positions(words[..n], w);
      PositionsComplete(words[..n], w);
      assert Positions(words, w) == pre + (if words[n] == w then [n] else []);
      forall p | 0 <= p < |words| && words[p] == w ensures p in Positions(words, w) {
        if p < n {
          assert words[..n][p] == w;
          assert p in pre;
        }
      }
    }
  }

  /** The list is as long as `w` occurs. */
  lemma {:induction false} PositionsCount(words: seq<string>, w: string)
    ensures |Positions(words, w)| == multiset(words)[w]
  {
    if words != [] {
      var n := |words| - 1;
      assert words == words[..n] + [words[n]];
      assert multiset(words) == multiset(words[..n]) + multiset{words[n]};
      PositionsCount(words[..n], w);
    }
  }

  /** `t` is the index of `words`: an AVL search tree whose keys are the
      distinct words, each mapped to the list of its positions. */
  ghost predicate IndexOf(t: Tree<seq<nat>>, words: seq<string>)
  {
    IsAvl(t) && IsBst(t) &&
    forall w :: Get(t, w) == if w in words then Some(Positions(words, w)) else None
  }

  function SumLengths(entries: seq<(string, seq<nat>)>): nat
  {
    if entries == [] then 0 else |entries[0].1| + SumLengths(entries[1..])
  }

  /** The total length of the stored position lists. */
  function TotalPositions(t: Tree<seq<nat>>): nat
  {
    SumLengths(InOrder(t))
  }

  lemma {:induction false} SumLengthsAppend(a: seq<(string, seq<nat>)>, b: seq<(string, seq<nat>)>)
    ensures SumLengths(a + b) == SumLengths(a) + SumLengths(b)
    decreases |a|
  {
    if a == [] {
      assert a + b == b;
    } else {
      assert (a + b)[1..] == a[1..] + b;
      SumLengthsAppend(a[1..], b);
    }
  }

  lemma TotalOfNode(t: Tree<seq<nat>>)
    requires t.Node?
    ensures TotalPositions(t) == TotalPositions(t.left) + |t.value| + TotalPositions(t.right)
  {
    SumLengthsAppend(InOrder(t.left), [(t.key, t.value)]);
    SumLengthsAppend(InOrder(t.left) + [(t.key, t.value)], InOrder(t.right));
  }

  /** The length of the list stored under `k`, 0 when there is none. */
  function StoredLength(t: Tree<seq<nat>>, k: string): nat
  {
    match Get(t, k)
    case None => 0
    case Some(ps) => |ps|
  }

  /** `put` swaps the length of the list under `k` for the new one's. */
  lemma {:induction false} PutTotal(t: Tree<seq<nat>>, k: string, v: seq<nat>)
    requires HeightsNonNegative(t) && IsBst(t)
    ensures TotalPositions(Put(t, k, v)) == TotalPositions(t) - StoredLength(t, k) + |v|
  {
    var r := Put(t, k, v);
    if t.Leaf? {
      assert InOrder(r) == [(k, v)];
    } else {
      TotalOfNode(t);
      if k == t.key {
        TotalOfNode(t.(value := v));
      } else if Less(t.key, k) {
        PutTotal(t.right, k, v);
        TotalOfNode(t.(right := Put(t.right, k, v)));
      } else {
        PutTotal(t.left, k, v);
        TotalOfNode(t.(left := Put(t.left, k, v)));
      }
    }
  }

  /** One step of the constructor loop keeps the index exact: appending
      position `i` to the list of `words[i]` and putting it back gives the
      index of one more word. */
  lemma IndexStep(t: Tree<seq<nat>>, words: seq<string>, i: nat, updated: seq<nat>)
    requires i < |words| && IndexOf(t, words[..i]) && TotalPositions(t) == i
    requires updated == match Get(t, words[i]) case None => [i] case Some(ps) => ps + [i]
    ensures IndexOf(Put(t, words[i], updated), words[..i + 1])
    ensures TotalPositions(Put(t, words[i], updated)) == i + 1
  {
    var word := words[i];
    PutAvl(t, word, updated);
    PutBst(t, word, updated);
    PutTotal(t, word, updated);
    PositionsCount(words[..i], word);
    forall x
      ensures Get(Put(t, word, updated), x) == if x in words[..i + 1] then Some(Positions(words[..i + 1], x)) else None
    {
      IndexStepAt(t, words, i, updated, x);
    }
  }

  /** The lookup of one word `x` in the index after that step. */
  lemma IndexStepAt(t: Tree<seq<nat>>, words: seq<string>, i: nat, updated: seq<nat>, x: string)
    requires i < |words| && IndexOf(t, words[..i])
    requires updated == match Get(t, words[i]) case None => [i] case Some(ps) => ps + [i]
    ensures Get(Put(t, words[i], updated), x) == if x in words[..i + 1] then Some(Positions(words[..i + 1], x)) else None
  {
    var word := words[i];
    PutGet(t, word, updated, x);
    assert words[..i + 1] == words[..i] + [word];
    assert words[..i + 1][..i] == words[..i];
    assert Positions(words[..i + 1], x) == Positions(words[..i], x) + (if word == x then [i] else []);
    assert x in words[..i + 1] <==> x in words[..i] || x == word;
    if x == word {
      assert Get(t, word) == if word in words[..i] then Some(Positions(words[..i], word)) else None;
      if word !in words[..i] {
        PositionsCount(words[..i], word);
        assert multiset(words[..i])[word] == 0;
        assert Positions(words[..i], word) == [];
        assert updated == [i];
      } else {
        assert updated == Positions(words[..i], word) + [i];
      }
      assert updated == Positions(words[..i + 1], x);
    } else {
      assert Get(t, x) == if x in words[..i] then Some(Positions(words[..i], x)) else None;
      assert Positions(words[..i + 1], x) == Positions(words[..i], x) + [];
      assert Positions(words[..i], x) + [] == Positions(words[..i], x);
    }
  }

  /** The loop of the page constructor: for each word in turn, fetch the
      word's position list (or start one), append the position, and put the
      list back. */
  method BuildIndex(words: seq<string>) returns (t: Tree<seq<nat>>)
    ensures IndexOf(t, words)
    ensures TotalPositions(t) == |words|
  {
    t := Leaf;
    for i := 0 to |words|
      invariant IndexOf(t, words[..i])
      invariant TotalPositions(t) == i
    {
      var word := words[i];
      var positions := Get(t, word);
      var updated := if positions.None? then [i] else positions.value + [i];
      IndexStep(t, words, i, updated);
      t := Put(t, word, updated);
    }
    assert words[..|words|] == words;
  }

  /** `get_count` over a list of terms, each term counted every time it is
      listed. */
  function TermsCount(t: Tree<seq<nat>>, terms: seq<string>): nat
  {
    if terms == [] then 0
    else TermsCount(t, terms[..|terms| - 1]) + StoredLength(t, terms[|terms| - 1])
  }

  /** The priority of a page with index `t` for `query`. */
  function Score(t: Tree<seq<nat>>, query: string): nat
  {
    TermsCount(t, Split(query))
  }

  /** How often the terms occur in `words`, each term counted every time
      it is listed. */
  function Occurrences(words: seq<string>, terms: seq<string>): nat
  {
    if terms == [] then 0
    else Occurrences(words, terms[..|terms| - 1]) + multiset(words)[terms[|terms| - 1]]
  }

  /** On the index of a page, the count of a term list is the number of
      occurrences of those terms among the page's words. */
  lemma {:induction false} TermsCountIsOccurrences(t: Tree<seq<nat>>, words: seq<string>, terms: seq<string>)
    requires IndexOf(t, words)
    ensures TermsCount(t, terms) == Occurrences(words, terms)
    decreases |terms|
  {
    if terms != [] {
      var last := terms[|terms| - 1];
      TermsCountIsOccurrences(t, words, terms[..|terms| - 1]);
      PositionsExact(words, last);
      assert Get(t, last) == if last in words then Some(Positions(words, last)) else None;
    }
  }

  /** A page of the search engine. */
  class WebPageIndex {
    const fileName: string
    ghost const words: seq<string>
    const tree: Tree<seq<nat>>
    var priority: int

    ghost predicate Valid()
    {
      IndexOf(tree, words)
    }

    /** The page constructor given its file name and its word list, as the
        file's text comes out of punctuation removal, lower-casing and
        splitting. */
    constructor (fileName: string, words: seq<string>)
      ensures Valid() && this.fileName == fileName && this.words == words
      ensures TotalPositions(tree) == |words|
      ensures priority == 0
    {
      priority := 0;
      this.fileName := fileName;
      this.words := words;
      var t := BuildIndex(words);
      tree := t;
    }

    function GetPriority(): int
      reads this
    {
      priority
    }

    /** `get_count`: for each whitespace-separated term of `query`, add the
        length of its position list, or 0 when the term is not indexed. */
    method GetCount(query: string) returns (count: nat)
      ensures count == Score(tree, query)
    {
      var terms := Split(query);
      count := 0;
      for i := 0 to |terms|
        invariant count == TermsCount(tree, terms[..i])
      {
        var positions := Get(tree, terms[i]);
        count := count + if positions.None? then 0 else |positions.value|;
        assert terms[..i + 1][..i] == terms[..i];
      }
      assert terms[..|terms|] == terms;
    }

    /** `set_priority`: cache the count of `query` as the priority. */
    method SetPriority(query: string)
      modifies this`priority
      ensures GetPriority() == Score(tree, query)
    {
      var count := GetCount(query);
      priority := count;
    }
  }

  /** The characters `remove_punctuation` blanks out. */
  const PunctuationList: seq<char> := [',', '(', ')', '.', '\'', '"', '[', ']', ':']

  /** Python's `s.replace(c, " ")` for a single character `c`. */
  function ReplaceWithBlank(s: string, c: char): (r: string)
    ensures |r| == |s|
    ensures c != ' ' ==> c !in r
    ensures forall i :: 0 <= i < |s| && s[i] != c ==> r[i] == s[i]
  {
    seq(|s|, i requires 0 <= i < |s| => if s[i] == c then ' ' else s[i])
  }

  /** `remove_punctuation`: one replacement pass per listed character. The
      text keeps its length, every listed character becomes a blank and
      every other character stays. */
  method RemovePunctuation(data: string) returns (r: string)
    ensures |r| == |data|
    ensures forall i :: 0 <= i < |data| ==> r[i] == if data[i] in PunctuationList then ' ' else data[i]
  {
    r := data;
    for k := 0 to |PunctuationList|
      invariant |r| == |data|
      invariant forall i :: 0 <= i < |data| ==> r[i] == if data[i] in PunctuationList[..k] then ' ' else data[i]
    {
      r := ReplaceWithBlank(r, PunctuationList[k]);
    }
    assert PunctuationList[..|PunctuationList|] == PunctuationList;
  }

  /** The query of the page's demonstration splits into its four terms. */
  lemma DemoQueryTerms()
    ensures Split("collection array in an") == ["collection", "array", "in", "an"]
  {
    var terms := ["collection", "array", "in", "an"];
    DemoTermsAreWords();
    DemoSeparates();
    DemoJoin();
    SplitJoin(terms, DemoGaps);
  }

  /** Each term of the demonstration query is a word. */
  lemma DemoTermsAreWords()
    ensures forall k :: 0 <= k < 4 ==> IsWord(["collection", "array", "in", "an"][k])
  {
    var terms := ["collection", "array", "in", "an"];
    forall k | 0 <= k < |terms| ensures IsWord(terms[k]) {
      var w := terms[k];
      forall j | 0 <= j < |w| ensures !IsSpace(w[j]) {
        assert 'a' <= w[j] <= 'z';
      }
    }
  }

  /** The gaps of the demonstration query: one blank between terms. */
  const DemoGaps: seq<string> := ["", " ", " ", " ", ""]

  /** The demonstration query is its terms with one blank between
      neighbours. */
  lemma DemoJoin()
    ensures Join(["collection", "array", "in", "an"], DemoGaps) == "collection array in an"
  {
    var terms := ["collection", "array", "in", "an"];
    calc {
      Join(terms, DemoGaps);
      "" + ("collection" + Join(terms[1..], DemoGaps[1..]));
      "collection" + (" " + ("array" + Join(terms[2..], DemoGaps[2..])));
      "collection" + (" " + ("array" + (" " + ("in" + Join(terms[3..], DemoGaps[3..])))));
      "collection" + (" " + ("array" + (" " + ("in" + (" " + ("an" + Join(terms[4..], DemoGaps[4..])))))));
      "collection array in an";
    }
  }

  /** The gaps of the demonstration query separate its terms. */
  lemma DemoSeparates()
    ensures Separates(["collection", "array", "in", "an"], DemoGaps)
  {
    forall i | 0 <= i < |DemoGaps| ensures AllSpace(DemoGaps[i]) {
    }
  }

  /** How often the demonstration query's terms occur in a page with
      "collection" once, "array" twice and neither "in" nor "an". */
  lemma QueryOccurrences(words: seq<string>)
    requires multiset(words)["collection"] == 1 && multiset(words)["array"] == 2
    requires multiset(words)["in"] == 0 && multiset(words)["an"] == 0
    ensures Occurrences(words, ["collection", "array", "in", "an"]) == 3
  {
    var terms := ["collection", "array", "in", "an"];
    var t1, t2, t3 := terms[..1], terms[..2], terms[..3];
    assert t1[..0] == [] && t2[..1] == t1 && t3[..2] == t2 && terms[..3] == t3;
    assert Occurrences(words, t1) == 1;
    assert Occurrences(words, t2) == 3;
    assert Occurrences(words, t3) == 3;
  }

  /** A page with "collection" once and "array" twice, and neither "in"
      nor "an", scores 1 + 2 + 0 + 0 for the query
      "collection array in an". */
  lemma CollectionArrayScore(t: Tree<seq<nat>>, words: seq<string>)
    requires IndexOf(t, words)
    requires multiset(words)["collection"] == 1 && multiset(words)["array"] == 2
    requires multiset(words)["in"] == 0 && multiset(words)["an"] == 0
    ensures Score(t, "collection array in an") == 3
  {
    DemoQueryTerms();
    TermsCountIsOccurrences(t, words, ["collection", "array", "in", "an"]);
    QueryOccurrences(words);
  }
}
