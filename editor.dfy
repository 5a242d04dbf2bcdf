/**
 * The lexicon editor (`LexiconEditor`): the lexicon it holds, the merge of
 * a loaded document's collocations into it, the manual addition and removal
 * of a link, clearing, and the data behind the lemma list, the JSON export
 * and the report. Widgets, dialogs and files are not modelled: what the user
 * typed or chose is passed in, and what would be written is returned.
 */
module Editor {

  import opened Wrappers
  import opened Strings
  import opened Normalizer
  import opened Graph
  import opened Views
  import opened Extractor

  /** How a request to add a partner ends: the link is added, or one of the four warnings. */
  datatype AddOutcome =
    | Added(partner: string)
    | TooShort
    | Unrecognised
    | ServiceWord(word: string)
    | SelfLink

  /** How loading a text ends: refused as blank, or merged with the counts the status bar shows. */
  datatype LoadOutcome = EmptyText | Loaded(lemmaCount: nat, linkCount: nat)

  /** How a request to clear the lexicon ends. */
  datatype ClearOutcome = AlreadyEmpty | Cancelled | Cleared

  /** The analyser artefacts refused as partners. */
  const PartnerArtefacts: set<string> := {"нибыть", "либыть", "тобыть"}

  /** The partner check's artefacts are stopwords too: its artefact test never refuses more. */
  lemma PartnerArtefactsAreStopwords(res: Resources)
    ensures PartnerArtefacts <= Stopwords(res)
    ensures PartnerArtefacts <= Artefacts
  {
  }

  /**
   * The checks `add_partner` makes on the typed text once it is stripped and
   * lower-cased: its length, a non-empty analysis, a lemma that is no service
   * word, and no self-link.
   */
  function CheckText(selected: string, text: string, res: Resources): (r: AddOutcome)
    ensures r == TooShort <==> |text| < MinLength
    ensures r == Unrecognised <==> |text| >= MinLength && res.parse(text) == []
    ensures r.ServiceWord? ==> r.word in Stopwords(res) || r.word in PartnerArtefacts
    ensures r.Added? ==> r.partner != selected && r.partner !in Stopwords(res) && r.partner !in PartnerArtefacts
  {
    if text == [] || |text| < MinLength then TooShort
    else
      var parses := res.parse(text);
      if parses == [] then Unrecognised
      else
        var partner := Lower(Best(parses).normalForm);
        if partner in Stopwords(res) || partner in PartnerArtefacts then ServiceWord(partner)
        else if selected == partner then SelfLink
        else Added(partner)
  }

  /** The checks of `add_partner` on what the user typed, stripped and then lower-cased. */
  function CheckPartner(selected: string, typed: string, res: Resources): (r: AddOutcome)
    ensures r == TooShort <==> |Lower(Strip(typed))| < MinLength
    ensures r == Unrecognised <==> |Lower(Strip(typed))| >= MinLength && res.parse(Lower(Strip(typed))) == []
    ensures r.ServiceWord? ==> r.word in Stopwords(res) || r.word in PartnerArtefacts
    ensures r.Added? ==> r.partner != selected && r.partner !in Stopwords(res) && r.partner !in PartnerArtefacts
  {
    CheckText(selected, Lower(Strip(typed)), res)
  }

  /**
   * When the stripped, lower-cased `text` is linked to `selected` as
   * `partner`, stated without the sequence of checks: the text is long
   * enough, and `partner` is the lower-cased normal form of its first best
   * analysis, neither a service word nor `selected` itself.
   */
  ghost predicate PartnerAccepted(selected: string, text: string, res: Resources, partner: string) {
    && |text| >= MinLength
    && (exists i :: IsFirstBest(res.parse(text), i) && partner == Lower(res.parse(text)[i].normalForm))
    && partner !in Stopwords(res)
    && partner !in PartnerArtefacts
    && partner != selected
  }

  /** What `PartnerAccepted` describes passes the checks. */
  lemma AcceptedIsAdded(selected: string, text: string, res: Resources, partner: string)
    requires PartnerAccepted(selected, text, res, partner)
    ensures CheckText(selected, text, res) == Added(partner)
  {
    var ps := res.parse(text);
    var i :| IsFirstBest(ps, i) && partner == Lower(ps[i].normalForm);
    FirstBestUnique(ps, i, BestIndex(ps));
  }

  /** What passes the checks is what `PartnerAccepted` describes. */
  lemma AddedIsAccepted(selected: string, text: string, res: Resources, partner: string)
    requires CheckText(selected, text, res) == Added(partner)
    ensures PartnerAccepted(selected, text, res, partner)
  {
    var ps := res.parse(text);
    assert IsFirstBest(ps, BestIndex(ps));
  }

  /** The checks accept exactly what `PartnerAccepted` describes of the stripped, lower-cased input. */
  lemma CheckPartnerAccepted(selected: string, typed: string, res: Resources, partner: string)
    ensures CheckPartner(selected, typed, res) == Added(partner) <==>
      PartnerAccepted(selected, Lower(Strip(typed)), res, partner)
  {
    var text := Lower(Strip(typed));
    if PartnerAccepted(selected, text, res, partner) {
      AcceptedIsAdded(selected, text, res, partner);
    }
    if CheckText(selected, text, res) == Added(partner) {
      AddedIsAccepted(selected, text, res, partner);
    }
  }

  /**
   * When the checks refuse the text with the service-word warning naming
   * `w`: the text is long enough, `w` is the lower-cased normal form of its
   * first best analysis, and `w` is a stopword or an analyser artefact.
   */
  ghost predicate ServiceWordRefused(text: string, res: Resources, w: string) {
    && |text| >= MinLength
    && (exists i :: IsFirstBest(res.parse(text), i) && w == Lower(res.parse(text)[i].normalForm))
    && (w in Stopwords(res) || w in PartnerArtefacts)
  }

  /**
   * When the checks refuse the text as a self-link: the text is long enough,
   * and the lower-cased normal form of its first best analysis is `selected`
   * itself, which is no service word.
   */
  ghost predicate SelfLinkRefused(selected: string, text: string, res: Resources) {
    && |text| >= MinLength
    && (exists i :: IsFirstBest(res.parse(text), i) && selected == Lower(res.parse(text)[i].normalForm))
    && selected !in Stopwords(res)
    && selected !in PartnerArtefacts
  }

  /** What `ServiceWordRefused` describes gets the service-word warning, naming that word. */
  lemma ServiceWordIsRefused(selected: string, text: string, res: Resources, w: string)
    requires ServiceWordRefused(text, res, w)
    ensures CheckText(selected, text, res) == ServiceWord(w)
  {
    var ps := res.parse(text);
    var i :| IsFirstBest(ps, i) && w == Lower(ps[i].normalForm);
    FirstBestUnique(ps, i, BestIndex(ps));
  }

  /** The service-word warning is given only as `ServiceWordRefused` describes, whatever `selected` is. */
  lemma RefusedIsServiceWord(selected: string, text: string, res: Resources, w: string)
    requires CheckText(selected, text, res) == ServiceWord(w)
    ensures ServiceWordRefused(text, res, w)
  {
    var ps := res.parse(text);
    assert IsFirstBest(ps, BestIndex(ps));
  }

  /** What `SelfLinkRefused` describes gets the self-link warning. */
  lemma SelfLinkIsRefused(selected: string, text: string, res: Resources)
    requires SelfLinkRefused(selected, text, res)
    ensures CheckText(selected, text, res) == SelfLink
  {
    var ps := res.parse(text);
    var i :| IsFirstBest(ps, i) && selected == Lower(ps[i].normalForm);
    FirstBestUnique(ps, i, BestIndex(ps));
  }

  /** The self-link warning is given only as `SelfLinkRefused` describes. */
  lemma RefusedIsSelfLink(selected: string, text: string, res: Resources)
    requires CheckText(selected, text, res) == SelfLink
    ensures SelfLinkRefused(selected, text, res)
  {
    var ps := res.parse(text);
    assert IsFirstBest(ps, BestIndex(ps));
  }

  /** On what the user typed, the two warnings after the analysis are given exactly as the predicates describe. */
  lemma CheckPartnerRefused(selected: string, typed: string, res: Resources, w: string)
    ensures CheckPartner(selected, typed, res) == ServiceWord(w) <==>
      ServiceWordRefused(Lower(Strip(typed)), res, w)
    ensures CheckPartner(selected, typed, res) == SelfLink <==>
      SelfLinkRefused(selected, Lower(Strip(typed)), res)
  {
    var text := Lower(Strip(typed));
    if ServiceWordRefused(text, res, w) {
      ServiceWordIsRefused(selected, text, res, w);
    }
    if CheckText(selected, text, res) == ServiceWord(w) {
      RefusedIsServiceWord(selected, text, res, w);
    }
    if SelfLinkRefused(selected, text, res) {
      SelfLinkIsRefused(selected, text, res);
    }
    if CheckText(selected, text, res) == SelfLink {
      RefusedIsSelfLink(selected, text, res);
    }
  }

  /** A word without capitals and without surrounding whitespace is its own normalised text. */
  lemma PlainWord(s: string)
    requires s != [] && !IsSpace(s[0]) && !IsSpace(s[|s| - 1])
    requires forall i :: 0 <= i < |s| ==> !IsCapital(s[i])
    ensures Lower(Strip(s)) == s
  {
    StripUntrimmed(s);
    LowerWithoutCapitals(s);
  }

  /**
   * Unlike the extractor, the partner check measures the typed word and not
   * its lemma, and applies no part-of-speech filter: a five-letter word whose
   * lemma has three letters, analysed with a non-content tag, is accepted.
   */
  lemma ShortPartnerExample()
    ensures "CONJ" !in ContentTags
    ensures CheckPartner("собака", "котом",
      Resources({}, s => [s], s => [Analysis("кот", "CONJ", 1.0)])) == Added("кот")
  {
    assert forall t :: t in ContentTags ==> t[0] != 'C';
    var res := Resources({}, s => [s], s => [Analysis("кот", "CONJ", 1.0)]);
    assert CheckText("собака", "котом", res) == Added("кот") by {
      var ps := res.parse("котом");
      assert ps == [Analysis("кот", "CONJ", 1.0)];
      assert BestIndex(ps) == 0;
      assert Lower("кот") == "кот";
    }
    assert CheckPartner("собака", "котом", res) == CheckText("собака", "котом", res) by {
      TypedWordNormalised();
    }
  }

  /** `PlainWord` for the typed word of `ShortPartnerExample`. */
  lemma TypedWordNormalised()
    ensures Lower(Strip("котом")) == "котом"
  {
    var w := "котом";
    assert w == ['к', 'о', 'т', 'о', 'м'];
    PlainWord(w);
  }

  class LexiconEditor {

    /** Lemma to partners. */
    var lexicon: Lexicon

    /** The linguistic resources loaded at start-up. */
    const res: Resources

    /** The lexicon invariant: links are symmetric, no self-links, no lemma without partners. */
    ghost predicate Valid()
      reads this
    {
      Graph.Valid(lexicon)
    }

    /** A new editor holds an empty lexicon. */
    constructor(res: Resources)
      ensures this.res == res && lexicon == map[]
      ensures Valid()
    {
      this.res := res;
      lexicon := map[];
    }

    /** The merge loop of `load_file`: every found lemma's partners are added to its entry. */
    method Merge(found: Lexicon)
      modifies this
      ensures lexicon == Merged(old(lexicon), found)
      ensures old(Valid()) && Graph.Valid(found) ==> Valid()
    {
      var pending := found.Keys;
      assert lexicon == Merged(old(lexicon), found - pending) by {
        assert found - pending == map[];
        MergedNothing(lexicon);
      }
      while pending != {}
        invariant pending <= found.Keys
        invariant lexicon == Merged(old(lexicon), found - pending)
        decreases |pending|
      {
        var k :| k in pending;
        var entry := if k in lexicon then lexicon[k] else {};
        lexicon := lexicon[k := entry + found[k]];
        assert lexicon == Merged(old(lexicon), found - (pending - {k})) by {
          MergedStep(old(lexicon), found, pending, k);
        }
        pending := pending - {k};
      }
      assert found - pending == found;
      if old(Valid()) && Graph.Valid(found) {
        MergedKeepsValid(old(lexicon), found);
      }
    }

    /**
     * `load_file` once the file's text is read: a blank text is refused and
     * the lexicon is left as it was; otherwise the text's collocations are
     * extracted and merged in. `found` is what the extractor returned.
     */
    method LoadText(text: string) returns (outcome: LoadOutcome, found: Lexicon)
      requires Valid()
      modifies this
      ensures Valid()
      ensures IsBlank(text) ==> outcome == EmptyText && found == map[] && lexicon == old(lexicon)
      ensures !IsBlank(text) ==>
        && (forall a, b :: HasLink(found, a, b) <==> Linked(DocumentLemmas(text, res), a, b))
        && Graph.Valid(found)
        && lexicon == Merged(old(lexicon), found)
        && outcome == Loaded(|found|, LinkCount(found))
    {
      if Strip(text) == [] {
        return EmptyText, map[];
      }
      found := ExtractCollocations(text, res);
      MergedKeepsValid(lexicon, found);
      Merge(found);
      outcome := Loaded(|found|, LinkCount(found));
    }

    /**
     * `add_partner`: after the checks of `CheckPartner`, links the selected
     * lemma and the partner's lemma both ways, creating the partner's entry
     * if needed; on a warning nothing changes.
     */
    method AddPartner(selected: string, typed: string) returns (outcome: AddOutcome)
      requires Valid() && selected in lexicon
      modifies this
      ensures Valid()
      ensures outcome == CheckPartner(selected, typed, res)
      ensures outcome.Added? ==> lexicon == Link(old(lexicon), selected, outcome.partner)
      ensures !outcome.Added? ==> lexicon == old(lexicon)
    {
      outcome := CheckPartner(selected, typed, res);
      if outcome.Added? {
        Connect(selected, outcome.partner);
      }
    }

    /** The two-way link `add_partner` records, the partner's entry created first if missing. */
    method Connect(selected: string, partner: string)
      requires Valid() && selected in lexicon && selected != partner
      modifies this
      ensures Valid()
      ensures lexicon == Link(old(lexicon), selected, partner)
    {
      ghost var m0 := lexicon;
      ghost var linked := Link(m0, selected, partner);
      LinkKeepsValid(m0, selected, partner);
      if partner !in lexicon {
        lexicon := lexicon[partner := {}];
      }
      lexicon := lexicon[selected := lexicon[selected] + {partner}];
      ghost var m1 := m0[selected := Partners(m0, selected) + {partner}];
      assert lexicon.Keys == m1.Keys + {partner} && lexicon[partner] == Partners(m1, partner);
      lexicon := lexicon[partner := lexicon[partner] + {selected}];
      assert lexicon.Keys == linked.Keys;
      assert forall k :: k in lexicon ==> lexicon[k] == linked[k];
      assert lexicon == linked;
    }

    /**
     * `remove_partner`: discards the link both ways, then deletes either
     * entry that is left without partners.
     */
    method RemovePartner(selected: string, partner: string)
      requires Valid() && selected in lexicon && partner in lexicon
      modifies this
      ensures Valid()
      ensures lexicon == Unlink(old(lexicon), selected, partner)
    {
      UnlinkKeepsValid(lexicon, selected, partner);
      lexicon := lexicon[selected := lexicon[selected] - {partner}];
      lexicon := lexicon[partner := lexicon[partner] - {selected}];
      if selected in lexicon && lexicon[selected] == {} {
        lexicon := lexicon - {selected};
      }
      if partner in lexicon && lexicon[partner] == {} {
        lexicon := lexicon - {partner};
      }
    }

    /** `clear_all`: an empty lexicon is reported as such; otherwise it is emptied only when confirmed. */
    method ClearAll(confirmed: bool) returns (outcome: ClearOutcome)
      requires Valid()
      modifies this
      ensures Valid()
      ensures old(lexicon) == map[] ==> outcome == AlreadyEmpty
      ensures old(lexicon) != map[] ==> outcome == (if confirmed then Cleared else Cancelled)
      ensures lexicon == (if outcome == Cleared then map[] else old(lexicon))
    {
      if lexicon == map[] {
        return AlreadyEmpty;
      }
      if confirmed {
        lexicon := map[];
        return Cleared;
      }
      return Cancelled;
    }

    /** `save_lexicon`: nothing when the lexicon is empty, otherwise the mapping to serialise. */
    method SaveLexicon() returns (r: Option<map<string, seq<string>>>)
      ensures r.None? <==> lexicon == map[]
      ensures r.Some? ==> r.value == ExportMap(lexicon)
    {
      if lexicon == map[] {
        return None;
      }
      return Some(ExportMap(lexicon));
    }

    /** `document_lexicon`: nothing when the lexicon is empty, otherwise the report. */
    method DocumentLexicon() returns (r: Option<Report>)
      ensures r.None? <==> lexicon == map[]
      ensures r.Some? ==> r.value == BuildReport(lexicon)
    {
      if lexicon == map[] {
        return None;
      }
      var entries := ReportEntries(Sorted(lexicon.Keys));
      return Some(Report(|lexicon|, Total(lexicon) / 2, entries));
    }

    /** The loop of `document_lexicon` over the sorted lemmas: one numbered entry per lemma. */
    method ReportEntries(lemmas: seq<string>) returns (entries: seq<Entry>)
      requires forall i :: 0 <= i < |lemmas| ==> lemmas[i] in lexicon
      ensures entries == Numbered(lexicon, lemmas)
    {
      entries := [];
      for i := 0 to |lemmas|
        invariant entries == Numbered(lexicon, lemmas[..i])
      {
        entries := entries + [Entry(i + 1, lemmas[i], Sorted(lexicon[lemmas[i]]))];
        assert entries == Numbered(lexicon, lemmas[..i + 1]) by {
          assert lemmas[..i + 1] == lemmas[..i] + [lemmas[i]];
          NumberedAppend(lexicon, lemmas[..i], lemmas[i]);
        }
      }
      assert lemmas[..|lemmas|] == lemmas;
    }
  }
}
