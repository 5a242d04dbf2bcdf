/**
 * The word tokenizer of the collocation extractor: Python's
 * `re.findall(r'\b[а-яё]+(?:-[а-яё]+)*\b', sent)`.
 *
 * The pattern is matched as Python's backtracking engine does. A match may
 * start only at a letter of the class `[а-яё]` that is not preceded by a
 * word character. The letter run is taken whole (a shorter run would end
 * between two word characters, where `\b` fails); then as many `-run`
 * segments as possible are taken. If the final `\b` fails there, the engine
 * gives back the segments one by one; it succeeds as soon as the match ends
 * just before a hyphen, which is always a word boundary. When no match
 * starts at a position, the search moves on by one character.
 */
module Tokenizer {

  import opened Wrappers

  /** The regex class `[а-яё]`. */
  predicate IsLetter(c: char) {
    ('а' <= c <= 'я') || c == 'ё'
  }

  /**
   * Python's `\w` for `str` patterns (alphanumeric or underscore),
   * for ASCII, Latin-1 and the Cyrillic block.
   */
  predicate IsWordChar(c: char) {
    || ('0' <= c <= '9') || ('A' <= c <= 'Z') || ('a' <= c <= 'z') || c == '_'
    || c == 'ª' || c == '²' || c == '³' || c == 'µ' || c == '¹' || c == 'º'
    || ('¼' <= c <= '¾') || ('À' <= c <= 'Ö') || ('Ø' <= c <= 'ö') || ('ø' <= c <= 'ÿ')
    || ('Ѐ' <= c <= 'ҁ') || ('Ҋ' <= c <= 'ӿ')
  }

  /** A letter of the class is a word character, so `\b` never falls inside a letter run. */
  lemma LetterIsWordChar(c: char)
    ensures IsLetter(c) ==> IsWordChar(c)
  {
  }

  /** `\b` just before position `p`, knowing that `s[p]` is a word character. */
  predicate StartBoundary(s: string, p: nat)
    requires p <= |s|
  {
    p == 0 || !IsWordChar(s[p - 1])
  }

  /** `\b` at position `e`, knowing that `s[e - 1]` is a word character. */
  predicate EndBoundary(s: string, e: nat)
    requires e <= |s|
  {
    e == |s| || !IsWordChar(s[e])
  }

  /** End of the maximal run of letters starting at `i`. */
  function RunEnd(s: string, i: nat): (r: nat)
    requires i <= |s|
    ensures i <= r <= |s|
    ensures forall k :: i <= k < r ==> IsLetter(s[k])
    ensures r == |s| || !IsLetter(s[r])
    decreases |s| - i
  {
    if i < |s| && IsLetter(s[i]) then RunEnd(s, i + 1) else i
  }

  /**
   * The end of a match whose letters so far end at `e`: take one more
   * `-run` segment if one follows and the rest of the match succeeds,
   * otherwise end here if `\b` holds.
   */
  function ChainEnd(s: string, e: nat): (r: Option<nat>)
    requires e <= |s|
    ensures r.Some? ==> e <= r.value <= |s| && EndBoundary(s, r.value)
    decreases |s| - e
  {
    if e + 1 < |s| && s[e] == '-' && IsLetter(s[e + 1]) then
      match ChainEnd(s, RunEnd(s, e + 1))
      case Some(x) => Some(x)
      case None => Some(e)
    else if EndBoundary(s, e) then Some(e)
    else None
  }

  /** Where the pattern matches when the search is at position `p`, if it does. */
  function MatchAt(s: string, p: nat): (r: Option<nat>)
    requires p < |s|
    ensures r.Some? ==> p < r.value <= |s|
  {
    if IsLetter(s[p]) && StartBoundary(s, p) then ChainEnd(s, RunEnd(s, p + 1))
    else None
  }

  datatype Span = Span(start: nat, end: nat)

  /** The spans `re.findall` reports when scanning from position `p`, left to right. */
  function SpansFrom(s: string, p: nat): (r: seq<Span>)
    requires p <= |s|
    decreases |s| - p
  {
    if p == |s| then []
    else
      match MatchAt(s, p)
      case Some(e) => [Span(p, e)] + SpansFrom(s, e)
      case None => SpansFrom(s, p + 1)
  }

  /** `re.findall(...)` on one sentence: the matched substrings in order. */
  function Tokenize(s: string): (r: seq<string>)
    ensures |r| == |SpansFrom(s, 0)|
  {
    var spans := SpansFrom(s, 0);
    seq(|spans|, i requires 0 <= i < |spans| =>
      var sp := spans[i]; if sp.start <= sp.end <= |s| then s[sp.start..sp.end] else [])
  }

  /** The shape `[а-яё]+(?:-[а-яё]+)*`: letters, single hyphens strictly between letters. */
  predicate WellFormed(t: string) {
    && |t| > 0
    && IsLetter(t[0]) && IsLetter(t[|t| - 1])
    && forall k :: 0 <= k < |t| ==>
         IsLetter(t[k]) || (t[k] == '-' && 0 < k < |t| - 1 && IsLetter(t[k - 1]) && IsLetter(t[k + 1]))
  }

  /** A span is a token: well-formed and delimited by `\b` on both sides. */
  predicate IsTokenSpan(s: string, sp: Span) {
    && sp.start < sp.end <= |s|
    && StartBoundary(s, sp.start)
    && EndBoundary(s, sp.end)
    && WellFormed(s[sp.start..sp.end])
  }

  lemma {:induction false} ChainEndWellFormed(s: string, p: nat, e: nat)
    requires p < e <= |s|
    requires WellFormed(s[p..e])
    requires e == |s| || !IsLetter(s[e])
    ensures ChainEnd(s, e).Some? ==> WellFormed(s[p..ChainEnd(s, e).value])
    decreases |s| - e
  {
    if e + 1 < |s| && s[e] == '-' && IsLetter(s[e + 1]) {
      var e' := RunEnd(s, e + 1);
      var t := s[p..e'];
      assert forall k :: 0 <= k < |t| ==> t[k] == s[p + k];
      assert WellFormed(t) by {
        forall k | 0 <= k < |t|
          ensures IsLetter(t[k]) || (t[k] == '-' && 0 < k < |t| - 1 && IsLetter(t[k - 1]) && IsLetter(t[k + 1]))
        {
          if p + k < e {
            assert t[k] == s[p..e][k];
            if k + 1 < e - p { assert t[k + 1] == s[p..e][k + 1]; }
            if 0 < k { assert t[k - 1] == s[p..e][k - 1]; }
            assert s[p..e][e - p - 1] == s[e - 1];
          }
        }
      }
      ChainEndWellFormed(s, p, e');
    }
  }

  /** A match found at `p` is a well-formed token with `\b` on both sides. */
  lemma MatchIsToken(s: string, p: nat)
    requires p < |s| && MatchAt(s, p).Some?
    ensures IsTokenSpan(s, Span(p, MatchAt(s, p).value))
  {
    var e0 := RunEnd(s, p + 1);
    assert WellFormed(s[p..e0]) by {
      var t := s[p..e0];
      assert forall k :: 0 <= k < |t| ==> t[k] == s[p + k];
    }
    ChainEndWellFormed(s, p, e0);
  }

  /** Every reported span is a well-formed token with `\b` on both sides, and spans come left to right. */
  lemma {:induction false} SpansAreTokens(s: string, p: nat)
    requires p <= |s|
    ensures forall i :: 0 <= i < |SpansFrom(s, p)| ==>
      p <= SpansFrom(s, p)[i].start && IsTokenSpan(s, SpansFrom(s, p)[i])
    ensures forall i :: 0 <= i < |SpansFrom(s, p)| - 1 ==>
      SpansFrom(s, p)[i].end <= SpansFrom(s, p)[i + 1].start
    decreases |s| - p
  {
    if p < |s| {
      match MatchAt(s, p)
      case Some(e) =>
        MatchIsToken(s, p);
        SpansAreTokens(s, e);
        var rest := SpansFrom(s, e);
        assert SpansFrom(s, p) == [Span(p, e)] + rest;
        assert rest != [] ==> e <= rest[0].start;
      case None =>
        SpansAreTokens(s, p + 1);
    }
  }


  /**
   * The chain started at a run end `e` reaches at least as far as any token
   * that starts at `p` and ends at or after `e`: the engine takes every
   * `-run` segment it can and gives back only what `\b` refuses.
   */
  lemma {:induction false} ChainEndLongest(s: string, p: nat, e: nat, e': nat)
    requires p < e <= e' <= |s|
    requires WellFormed(s[p..e']) && EndBoundary(s, e')
    requires e == |s| || !IsLetter(s[e])
    ensures ChainEnd(s, e).Some? && e' <= ChainEnd(s, e).value
    decreases |s| - e
  {
    if e < e' {
      var t := s[p..e'];
      assert t[e - p] == s[e] && !IsLetter(t[e - p]);
      assert e + 1 < e' && s[e] == '-' && IsLetter(s[e + 1]) by {
        var k := e - p;
        assert 0 <= k < |t| && WellFormed(t);
        assert IsLetter(t[k]) || (t[k] == '-' && 0 < k < |t| - 1 && IsLetter(t[k - 1]) && IsLetter(t[k + 1]));
        assert t[k + 1] == s[e + 1];
      }
      var e2 := RunEnd(s, e + 1);
      assert e2 <= e' by {
        if e' < |s| { LetterIsWordChar(s[e']); }
      }
      ChainEndLongest(s, p, e2, e');
    }
  }

  /** The match at `p` is the longest token starting at `p`; so there is one whenever a token starts there. */
  lemma MatchIsLongest(s: string, p: nat, e': nat)
    requires p < |s| && IsTokenSpan(s, Span(p, e'))
    ensures MatchAt(s, p).Some? && e' <= MatchAt(s, p).value
  {
    assert s[p..e'][0] == s[p];
    var e := RunEnd(s, p + 1);
    assert e <= e' by {
      if e' < |s| { LetterIsWordChar(s[e']); }
    }
    ChainEndLongest(s, p, e, e');
  }

  /** No token is missed: every position where a token starts lies inside a reported span. */
  lemma {:induction false} SpansComplete(s: string, p: nat, q: nat, e': nat)
    requires p <= q && IsTokenSpan(s, Span(q, e'))
    ensures exists i :: 0 <= i < |SpansFrom(s, p)| && SpansFrom(s, p)[i].start <= q < SpansFrom(s, p)[i].end
    decreases |s| - p
  {
    assert p < |s|;
    if q == p {
      MatchIsLongest(s, p, e');
    }
    match MatchAt(s, p)
    case Some(e) =>
      var rest := SpansFrom(s, e);
      assert SpansFrom(s, p) == [Span(p, e)] + rest;
      if e <= q {
        SpansComplete(s, e, q, e');
        var i :| 0 <= i < |rest| && rest[i].start <= q < rest[i].end;
        assert SpansFrom(s, p)[i + 1] == rest[i];
      } else {
        assert SpansFrom(s, p)[0] == Span(p, e);
      }
    case None =>
      assert p < q && SpansFrom(s, p) == SpansFrom(s, p + 1);
      SpansComplete(s, p + 1, q, e');
  }

  /**
   * Every reported span is a maximal token: no token that starts where a
   * reported span starts ends after it. So `findall` never splits a token.
   */
  lemma {:induction false} SpansMaximal(s: string, p: nat, i: nat, e': nat)
    requires p <= |s| && i < |SpansFrom(s, p)|
    requires IsTokenSpan(s, Span(SpansFrom(s, p)[i].start, e'))
    ensures e' <= SpansFrom(s, p)[i].end
    decreases |s| - p
  {
    match MatchAt(s, p)
    case Some(e) =>
      if i == 0 {
        MatchIsLongest(s, p, e');
      } else {
        assert SpansFrom(s, p)[i] == SpansFrom(s, e)[i - 1];
        SpansMaximal(s, e, i - 1, e');
      }
    case None =>
      assert SpansFrom(s, p) == SpansFrom(s, p + 1);
      SpansMaximal(s, p + 1, i, e');
  }

  /** The tokens of a sentence are well formed (hence at least one letter long). */
  lemma TokensWellFormed(s: string)
    ensures forall i :: 0 <= i < |Tokenize(s)| ==> WellFormed(Tokenize(s)[i])
  {
    SpansAreTokens(s, 0);
  }

  /** A letter run glued to a digit yields no token. */
  lemma GluedRunExample()
    ensures SpansFrom("да1 он", 0) == [Span(4, 6)]
  {
    var s := "да1 он";
    assert MatchAt(s, 0) == None;
    assert SpansFrom(s, 4) == [Span(4, 6)];
  }

  /** A hyphenated word is one token. */
  lemma HyphenatedExample()
    ensures SpansFrom("кое-кто", 0) == [Span(0, 7)]
  {
    var s := "кое-кто";
    assert RunEnd(s, 4) == 7;
    assert ChainEnd(s, 7) == Some(7);
    assert RunEnd(s, 1) == 3;
    assert MatchAt(s, 0) == Some(7);
    assert SpansFrom(s, 7) == [];
  }

  /** When the last segment is glued to a digit, the match gives it back and ends before the hyphen. */
  lemma BacktrackExample()
    ensures SpansFrom("ах-ох1", 0) == [Span(0, 2)]
  {
    var s := "ах-ох1";
    assert ChainEnd(s, 5) == None;
    assert MatchAt(s, 0) == Some(2);
    assert SpansFrom(s, 3) == [];
  }

  /** A text without any letter of the class has no token. */
  lemma {:induction false} NoLetterNoToken(s: string, p: nat)
    requires p <= |s|
    requires forall k :: p <= k < |s| ==> !IsLetter(s[k])
    ensures SpansFrom(s, p) == []
    decreases |s| - p
  {
    if p < |s| { NoLetterNoToken(s, p + 1); }
  }
}
