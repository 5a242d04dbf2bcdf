/**
 * Lemma normalisation and the per-token filter of the collocation
 * extractor. The linguistic resources the program loads once at start-up
 * (the sentence splitter, the morphological analyser and the NLTK stopword
 * list) are not modelled; they are passed in as a `Resources` value.
 */
module Normalizer {

  import opened Wrappers
  import opened Strings

  /** One analysis returned by the morphological analyser for a surface form. */
  datatype Analysis = Analysis(normalForm: string, pos: string, score: real)

  /**
   * The external collaborators: NLTK's Russian stopword list, its sentence
   * splitter and the morphological analyser's `parse`.
   */
  datatype Resources = Resources(
    nltkStopwords: set<string>,
    segment: string -> seq<string>,
    parse: string -> seq<Analysis>)

  /** The particles and degenerate normal forms the program adds to NLTK's list. */
  const ExtraStopwords: set<string> := {
    "бы", "же", "ли", "быть", "нибудь", "кое", "то", "либо", "таки",
    "нибыть", "либыть", "тобыть", "когда-нибудь", "где-нибудь"
  }

  /** Normal forms the extractor drops as analyser artefacts. */
  const Artefacts: set<string> := {"нибыть", "либыть", "тобыть", "кое"}

  /** Part-of-speech tags of content words: nouns, verbs, infinitives, adjectives, participles. */
  const ContentTags: set<string> := {"NOUN", "VERB", "INFN", "ADJF", "ADJS", "PRTF", "PRTS"}

  /** The minimum length of a token (and of each lemma of a collocation). */
  const MinLength: nat := 4

  /** The program's stopword set: NLTK's list extended with `ExtraStopwords`. */
  function Stopwords(res: Resources): (r: set<string>)
    ensures ExtraStopwords <= r && res.nltkStopwords <= r
    ensures forall w :: w in r ==> w in res.nltkStopwords || w in ExtraStopwords
  {
    res.nltkStopwords + ExtraStopwords
  }

  /**
   * Every artefact is also a stopword, so the artefact test of the filter
   * never drops a lemma the stopword test would have kept.
   */
  lemma ArtefactsAreStopwords(res: Resources)
    ensures Artefacts <= Stopwords(res)
    ensures forall l :: l in Artefacts ==> l in ExtraStopwords
  {
  }

  /** `i` is the first analysis of maximal score: the one Python's `max(..., key=score)` returns. */
  predicate IsFirstBest(ps: seq<Analysis>, i: int) {
    && 0 <= i < |ps|
    && (forall j :: 0 <= j < |ps| ==> ps[j].score <= ps[i].score)
    && (forall j :: 0 <= j < i ==> ps[j].score < ps[i].score)
  }

  /** At most one index is the first maximum. */
  lemma FirstBestUnique(ps: seq<Analysis>, i: int, k: int)
    requires IsFirstBest(ps, i) && IsFirstBest(ps, k)
    ensures i == k
  {
    var first, second := ps[i], ps[k];
  }

  /**
   * Python's `max` with a key: a left-to-right scan that replaces the
   * current best only by a strictly larger score.
   */
  function BestIndex(ps: seq<Analysis>): (i: nat)
    requires ps != []
    ensures IsFirstBest(ps, i)
  {
    if |ps| == 1 then 0
    else
      var j := BestIndex(ps[..|ps| - 1]);
      if ps[|ps| - 1].score > ps[j].score then |ps| - 1 else j
  }

  /** The analysis Python's `max(parses, key=lambda p: p.score)` selects. */
  function Best(ps: seq<Analysis>): Analysis
    requires ps != []
  {
    ps[BestIndex(ps)]
  }

  /**
   * The filter one token of a sentence goes through: it yields its lemma,
   * or nothing when the token is dropped.
   */
  function TokenLemma(word: string, res: Resources): Option<string> {
    if |word| < MinLength || word in Stopwords(res) then None
    else
      var parses := res.parse(word);
      if parses == [] then None
      else
        var parsed := Best(parses);
        var lem := Lower(parsed.normalForm);
        if lem in Artefacts || lem in Stopwords(res) then None
        else if parsed.pos in ContentTags then Some(lem)
        else None
  }

  /**
   * When a token yields `lemma`, stated without the scan: the token is long
   * enough and no stopword, and `lemma` is the lower-cased normal form of the
   * first analysis of maximal score, whose tag is a content tag and whose
   * normal form is neither a stopword nor an artefact.
   */
  ghost predicate Accepts(word: string, res: Resources, lem: string) {
    && |word| >= MinLength
    && word !in Stopwords(res)
    && (exists i :: IsFirstBest(res.parse(word), i)
         && lem == Lower(res.parse(word)[i].normalForm)
         && res.parse(word)[i].pos in ContentTags)
    && lem !in Stopwords(res)
    && lem !in Artefacts
  }

  /** The token filter keeps exactly the tokens `Accepts` describes, with their lemma. */
  lemma TokenLemmaAccepts(word: string, res: Resources, lem: string)
    ensures TokenLemma(word, res) == Some(lem) <==> Accepts(word, res, lem)
  {
    var ps := res.parse(word);
    if Accepts(word, res, lem) {
      var i :| IsFirstBest(ps, i) && lem == Lower(ps[i].normalForm) && ps[i].pos in ContentTags;
      FirstBestUnique(ps, i, BestIndex(ps));
    }
  }
}
