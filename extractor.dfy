/**
 * The collocation extractor (`TextProcessor.extract_collocations`): the
 * lower-cased text is split into sentences, each sentence into tokens, each
 * token filtered down to a lemma, and every two neighbouring lemmas of one
 * sentence are recorded as partners of each other.
 */
module Extractor {

  import opened Wrappers
  import opened Strings
  import opened Tokenizer
  import opened Normalizer
  import opened Graph

  /** The lemma sequence of one sentence: the lemmas of its tokens in order, dropped tokens left out. */
  function SentenceLemmas(words: seq<string>, res: Resources): (r: seq<string>)
    ensures |r| <= |words|
  {
    if words == [] then []
    else
      var init := SentenceLemmas(words[..|words| - 1], res);
      match TokenLemma(words[|words| - 1], res)
      case Some(l) => init + [l]
      case None => init
  }

  /** The lemma sequence of every sentence of the lower-cased text. */
  function DocumentLemmas(text: string, res: Resources): (r: seq<seq<string>>)
    ensures |r| == |res.segment(Lower(text))|
  {
    var sentences := res.segment(Lower(text));
    seq(|sentences|, k requires 0 <= k < |sentences| => SentenceLemmas(Tokenize(sentences[k]), res))
  }

  /** Neighbouring lemmas `x`, `y` make the collocation `a`–`b`: distinct and both long enough. */
  predicate Collocates(x: string, y: string, a: string, b: string) {
    && x != y && |x| >= MinLength && |y| >= MinLength
    && ((a == x && b == y) || (a == y && b == x))
  }

  /** The lemmas at `i` and `i + 1` make the collocation `a`–`b`. */
  predicate PairAt(lemmas: seq<string>, i: int, a: string, b: string) {
    0 <= i && i + 1 < |lemmas| && Collocates(lemmas[i], lemmas[i + 1], a, b)
  }

  /** Some pair of neighbours starting before position `n` makes the collocation `a`–`b`. */
  ghost predicate PairBefore(lemmas: seq<string>, n: int, a: string, b: string) {
    exists i :: 0 <= i < n && PairAt(lemmas, i, a, b)
  }

  /** One of the first `n` sentences has neighbours making the collocation `a`–`b`. */
  ghost predicate LinkedBefore(doc: seq<seq<string>>, n: int, a: string, b: string) {
    exists k, i :: 0 <= k < n && k < |doc| && PairAt(doc[k], i, a, b)
  }

  /** `a` and `b` are neighbours, in either order, in the lemma sequence of one sentence of `doc`. */
  ghost predicate Linked(doc: seq<seq<string>>, a: string, b: string) {
    LinkedBefore(doc, |doc|, a, b)
  }

  /**
   * A link joins two distinct lemmas of at least four characters that occur
   * in the same sentence, and it holds in both directions.
   */
  lemma LinkedShape(doc: seq<seq<string>>, a: string, b: string)
    requires Linked(doc, a, b)
    ensures Linked(doc, b, a)
    ensures a != b && |a| >= MinLength && |b| >= MinLength
    ensures exists k :: 0 <= k < |doc| && a in doc[k] && b in doc[k]
  {
    var k, i :| 0 <= k < |doc| && PairAt(doc[k], i, a, b);
    assert PairAt(doc[k], i, b, a);
    assert a in doc[k] && b in doc[k];
  }

  /** Lemmas of different sentences are never linked, however close they stand in the text. */
  lemma NoCrossSentenceLink(doc: seq<seq<string>>, a: string, b: string)
    requires forall k :: 0 <= k < |doc| ==> !(a in doc[k] && b in doc[k])
    ensures !Linked(doc, a, b)
  {
    if Linked(doc, a, b) {
      LinkedShape(doc, a, b);
    }
  }

  /** The lemma sequence of a run of tokens is the concatenation of those of its parts. */
  lemma {:induction false} SentenceLemmasAppend(ws1: seq<string>, ws2: seq<string>, res: Resources)
    ensures SentenceLemmas(ws1 + ws2, res) == SentenceLemmas(ws1, res) + SentenceLemmas(ws2, res)
    decreases |ws2|
  {
    if ws2 != [] {
      var ws := ws1 + ws2;
      assert ws[..|ws| - 1] == ws1 + ws2[..|ws2| - 1];
      SentenceLemmasAppend(ws1, ws2[..|ws2| - 1], res);
    } else {
      assert ws1 + ws2 == ws1;
    }
  }

  /**
   * A dropped token leaves no gap: the lemmas on either side of it become
   * neighbours, exactly as if the token were not there.
   */
  lemma DroppedTokenInvisible(ws1: seq<string>, x: string, ws2: seq<string>, res: Resources)
    requires TokenLemma(x, res).None?
    ensures SentenceLemmas(ws1 + [x] + ws2, res) == SentenceLemmas(ws1 + ws2, res)
  {
    SentenceLemmasAppend(ws1 + [x], ws2, res);
    SentenceLemmasAppend(ws1, [x], res);
    SentenceLemmasAppend(ws1, ws2, res);
    assert SentenceLemmas([x], res) == [] by {
      assert [x][..0] == [];
    }
  }

  /** Every lemma of a sentence is the lemma the token filter gives one of its tokens. */
  lemma {:induction false} SentenceLemmasFromTokens(words: seq<string>, res: Resources)
    ensures forall l :: l in SentenceLemmas(words, res) ==>
      exists w :: w in words && TokenLemma(w, res) == Some(l)
  {
    if words != [] {
      var init := words[..|words| - 1];
      SentenceLemmasFromTokens(init, res);
      forall l | l in SentenceLemmas(words, res)
        ensures exists w :: w in words && TokenLemma(w, res) == Some(l)
      {
        if l in SentenceLemmas(init, res) {
          var w :| w in init && TokenLemma(w, res) == Some(l);
          assert w in words;
        } else {
          assert words[|words| - 1] in words;
        }
      }
    }
  }

  /** A sentence of short tokens and stopwords only contributes no lemma, hence no link. */
  lemma {:induction false} StopwordSentence(words: seq<string>, res: Resources)
    requires forall i :: 0 <= i < |words| ==> |words[i]| < MinLength || words[i] in Stopwords(res)
    ensures SentenceLemmas(words, res) == []
  {
    if words != [] {
      StopwordSentence(words[..|words| - 1], res);
    }
  }

  /** A lexicon of nouns whose only non-trivial entry reduces "доме" to "дом". */
  function HouseResources(): Resources {
    Resources({}, s => [s], w => [Analysis(if w == "доме" then "дом" else w, "NOUN", 1.0)])
  }

  /** A token outside the stopwords whose single noun parse has a lower-case lemma outside them is kept as that lemma. */
  lemma NounKept(w: string, lem: string, res: Resources)
    requires |w| >= MinLength && w !in Stopwords(res)
    requires res.parse(w) == [Analysis(lem, "NOUN", 1.0)]
    requires Lower(lem) == lem && lem !in Stopwords(res)
    ensures TokenLemma(w, res) == Some(lem)
  {
    assert BestIndex(res.parse(w)) == 0;
    ArtefactsAreStopwords(res);
  }

  /** No stopword of `HouseResources` starts with с, д or о. */
  lemma HouseStopwords(w: string)
    requires w in Stopwords(HouseResources())
    ensures w != [] && w[0] != 'с' && w[0] != 'д' && w[0] != 'о'
  {
  }

  /** The tokens "стол" and "окно" are kept as their own lemmas. */
  lemma KeptAsItself(w: string)
    requires w == "стол" || w == "окно"
    ensures TokenLemma(w, HouseResources()) == Some(w)
  {
    var res := HouseResources();
    assert w[0] != "доме"[0];
    assert res.parse(w) == [Analysis(w, "NOUN", 1.0)];
    assert Lower(w) == w by {
      if w == "стол" {
        assert Lower("стол") == "стол";
      } else {
        assert Lower("окно") == "окно";
      }
    }
    if w in Stopwords(res) {
      HouseStopwords(w);
    }
    NounKept(w, w, res);
  }

  /** The token "доме" is kept as the three-letter lemma "дом". */
  lemma HouseKept()
    ensures TokenLemma("доме", HouseResources()) == Some("дом")
  {
    var res := HouseResources();
    assert res.parse("доме") == [Analysis("дом", "NOUN", 1.0)];
    assert Lower("дом") == "дом";
    if "доме" in Stopwords(res) {
      HouseStopwords("доме");
    }
    if "дом" in Stopwords(res) {
      HouseStopwords("дом");
    }
    NounKept("доме", "дом", res);
  }

  /**
   * A token of four letters can have a three-letter lemma: the token filter
   * keeps it, so it stays in the sentence's lemma sequence.
   */
  lemma ShortLemmaKept()
    ensures SentenceLemmas(["стол", "доме", "окно"], HouseResources()) == ["стол", "дом", "окно"]
  {
    KeptAsItself("стол");
    HouseKept();
    KeptAsItself("окно");
    ThreeKept("стол", "доме", "окно", "стол", "дом", "окно", HouseResources());
  }

  /** Three tokens that are all kept give their three lemmas in order. */
  lemma ThreeKept(w0: string, w1: string, w2: string, l0: string, l1: string, l2: string, res: Resources)
    requires TokenLemma(w0, res) == Some(l0) && TokenLemma(w1, res) == Some(l1) && TokenLemma(w2, res) == Some(l2)
    ensures SentenceLemmas([w0, w1, w2], res) == [l0, l1, l2]
  {
    assert [w0][..0] == [];
    assert SentenceLemmas([w0], res) == [l0];
    assert [w0, w1][..1] == [w0];
    assert SentenceLemmas([w0, w1], res) == [l0, l1];
    assert [w0, w1, w2][..2] == [w0, w1];
  }

  /**
   * The kept short lemma still breaks adjacency: its neighbours, though both
   * long enough, are not linked, and neither is linked to it.
   */
  lemma ShortLemmaSeparates()
    ensures !Linked([["стол", "дом", "окно"]], "стол", "окно")
    ensures !Linked([["стол", "дом", "окно"]], "стол", "дом")
    ensures !Linked([["стол", "дом", "окно"]], "окно", "дом")
  {
    var lemmas := ["стол", "дом", "окно"];
    assert |lemmas[1]| < MinLength;
    assert forall i :: 0 <= i < 2 ==> lemmas[i] == lemmas[1] || lemmas[i + 1] == lemmas[1];
  }

  /** The links of `colloc` are those of the first `k` sentences plus the pairs before `i` in `lemmas`. */
  ghost predicate Tracks(colloc: Lexicon, doc: seq<seq<string>>, k: int, lemmas: seq<string>, i: int) {
    forall a, b :: HasLink(colloc, a, b) <==> LinkedBefore(doc, k, a, b) || PairBefore(lemmas, i, a, b)
  }

  /** One step of the pairing loop keeps `Tracks` and the non-empty entries. */
  lemma PairStep(colloc: Lexicon, doc: seq<seq<string>>, k: int, lemmas: seq<string>, i: nat)
    requires i + 1 < |lemmas|
    requires NoEmptyEntries(colloc) && Tracks(colloc, doc, k, lemmas, i)
    ensures var a, b := lemmas[i], lemmas[i + 1];
      var next := if a != b && |a| >= MinLength && |b| >= MinLength then Link(colloc, a, b) else colloc;
      NoEmptyEntries(next) && Tracks(next, doc, k, lemmas, i + 1)
  {
    var a, b := lemmas[i], lemmas[i + 1];
    LinkLinks(colloc, a, b);
    forall x, y ensures PairBefore(lemmas, i + 1, x, y) <==> PairBefore(lemmas, i, x, y) || PairAt(lemmas, i, x, y) {
      if PairBefore(lemmas, i + 1, x, y) {
        var j :| 0 <= j < i + 1 && PairAt(lemmas, j, x, y);
        if j < i { assert PairBefore(lemmas, i, x, y); }
      }
    }
  }

  /** Once the pairing loop is over, `Tracks` covers this sentence: move on to the next one. */
  lemma SentenceDone(colloc: Lexicon, doc: seq<seq<string>>, k: nat, i: nat)
    requires k < |doc| && |doc[k]| <= i + 1
    requires Tracks(colloc, doc, k, doc[k], i)
    ensures Tracks(colloc, doc, k + 1, [], 0)
  {
    forall a, b ensures LinkedBefore(doc, k + 1, a, b) <==> LinkedBefore(doc, k, a, b) || PairBefore(doc[k], i, a, b) {
      if LinkedBefore(doc, k + 1, a, b) {
        var k', j :| 0 <= k' < k + 1 && k' < |doc| && PairAt(doc[k'], j, a, b);
        if k' == k {
          assert PairBefore(doc[k], i, a, b);
        } else {
          assert LinkedBefore(doc, k, a, b);
        }
      }
      if PairBefore(doc[k], i, a, b) {
        var j :| 0 <= j < i && PairAt(doc[k], j, a, b);
        assert 0 <= k < k + 1 && k < |doc| && PairAt(doc[k], j, a, b);
      }
      if LinkedBefore(doc, k, a, b) {
        var k', j :| 0 <= k' < k && k' < |doc| && PairAt(doc[k'], j, a, b);
        assert 0 <= k' < k + 1;
      }
    }
  }

  /**
   * `extract_collocations`: the returned map links `a` to `b` exactly when
   * they are distinct neighbours, both at least four characters long, in
   * the lemma sequence of one sentence; no key maps to an empty set.
   */
  method ExtractCollocations(text: string, res: Resources) returns (colloc: Lexicon)
    ensures forall a, b :: HasLink(colloc, a, b) <==> Linked(DocumentLemmas(text, res), a, b)
    ensures Valid(colloc)
    ensures forall a :: a in colloc ==> |a| >= MinLength
  {
    var sentences := res.segment(Lower(text));
    ghost var doc := DocumentLemmas(text, res);
    colloc := map[];
    assert Tracks(colloc, doc, 0, [], 0);
    for k := 0 to |sentences|
      invariant NoEmptyEntries(colloc)
      invariant Tracks(colloc, doc, k, [], 0)
    {
      var words := Tokenize(sentences[k]);
      var lemmas: seq<string> := [];
      for w := 0 to |words|
        invariant lemmas == SentenceLemmas(words[..w], res)
      {
        assert words[..w + 1][..w] == words[..w];
        var lem := TokenLemma(words[w], res);
        if lem.Some? {
          lemmas := lemmas + [lem.value];
        }
      }
      assert words[..|words|] == words;
      assert lemmas == doc[k];
      var i := 0;
      while i + 1 < |lemmas|
        invariant i <= |lemmas|
        invariant NoEmptyEntries(colloc)
        invariant Tracks(colloc, doc, k, lemmas, i)
      {
        PairStep(colloc, doc, k, lemmas, i);
        var a, b := lemmas[i], lemmas[i + 1];
        if a != b && |a| >= MinLength && |b| >= MinLength {
          colloc := Link(colloc, a, b);
        }
        i := i + 1;
      }
      SentenceDone(colloc, doc, k, i);
    }
    forall a, b | HasLink(colloc, a, b) ensures HasLink(colloc, b, a) {
      LinkedShape(doc, a, b);
    }
    forall a | a in colloc ensures a !in colloc[a] && |a| >= MinLength {
      var b :| b in colloc[a];
      LinkedShape(doc, a, b);
      if a in colloc[a] {
        LinkedShape(doc, a, a);
      }
    }
  }
}
