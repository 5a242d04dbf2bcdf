# Collocation lexicon (EYAZIIS1) in Dafny

The program builds a dictionary of collocations from Russian text. A loaded
document is lower-cased and split into sentences. Each sentence is split
into Cyrillic word tokens (`re.findall(r'\b[а-яё]+(?:-[а-яё]+)*\b', ...)`).
Every token is then filtered down to a lemma:
- the token must have at least four characters and must not be a stopword;
- the morphological analyser must return at least one analysis;
- the analysis used is the first one with the maximal score;
- its normal form must be no stopword and no analyser artefact;
- its part of speech must be a content word.

Two lemmas that stand next to each other in the same sentence become
partners. This holds both ways, and only when they differ and both have at
least four characters. The `LexiconEditor` window keeps the lemma-to-partners
map (the lexicon). It merges each document's collocations into the lexicon,
lets the user add and remove a link by hand, and clears the lexicon. It lists
the lemmas, filtered by a search text. It exports the lexicon as a JSON
mapping and writes a numbered plain-text report.

The model is split into these modules:
- `Strings`: the Python `str` behaviour the program relies on:
  - `lower()` and `strip()`;
  - the substring test;
  - code-point order and `sorted()` on a set of strings.
- `Tokenizer`: the regular expression, matched the way Python's
  backtracking engine matches it.
- `Normalizer`: the stopword set and the first-maximum choice of analysis.
  The external linguistic resources are passed in as a `Resources` value.
  These are NLTK's stopword list, the sentence splitter and the analyser's
  `parse`.
- `Extractor`: `extract_collocations`, as a method with the source's nested
  loops.
- `Graph`: the lexicon as a value. It gives the lexicon invariant (symmetric
  links, no self-link, no lemma without partners) and the value-level meaning
  of merge, link and unlink.
- `Views`: the lemma listing, the export map and the report.
- `Editor`: the partner checks of `add_partner` and the `LexiconEditor`
  class. The class has a `lexicon` field that its methods update in place.

Each editor method states its whole new state. `LoadText`, `AddPartner`,
`Connect` and `RemovePartner` keep the lexicon invariant outright. `Merge`
keeps it when the merged collocations satisfy it too, as extracted
collocations do.

The length check of `add_partner` (main.py:281-282) measures the stripped,
lower-cased typed text, not its lemma. `ShortPartnerExample` shows a
five-letter word whose lemma has three letters being accepted.

## Model

| member | source | states |
|---|---|---|
| Strings.LowerChar | main.py:74 | `lower()` sends the Latin capitals, the Russian capitals and `Ё` into the matching small-letter ranges |
| Strings.LowerCharMatches | main.py:74 | each capital (ASCII, U+0400–U+042F) becomes the small letter at the same position in its alphabet; small letters and uncased characters are unchanged; the result is never a capital, so lowering twice is lowering once |
| Strings.Lower | main.py:74 | `lower()` keeps the length and lower-cases each character on its own |
| Strings.TrimLeft | main.py:281 | the result is a suffix of the input; everything dropped is whitespace; the result does not start with whitespace |
| Strings.TrimRight | main.py:281 | the result is a prefix of the input; everything dropped is whitespace; the result does not end with whitespace |
| Strings.Strip | main.py:221 | `strip()` is empty exactly when the text is blank (`not text.strip()`); otherwise it neither starts nor ends with whitespace |
| Strings.StripSlice | main.py:281 | `strip()` is the slice of the input that starts after the leading whitespace, character for character; everything before and after that slice is whitespace |
| Strings.StripUntrimmed | main.py:281 | a text that neither starts nor ends with whitespace is its own `strip()` |
| Strings.Contains | main.py:252 | Python's `in` on strings; ContainsSlice states its meaning |
| Strings.ContainsSlice | main.py:252 | `needle in hay` holds exactly when `needle` is the slice of `hay` starting at some position |
| Strings.Below | main.py:250 | Python's `<` on strings, which `sorted()` uses: a strict total order, as BelowIrreflexive, BelowAsymmetric, BelowTransitive and BelowTotal state |
| Strings.BelowIrreflexive | main.py:250 | no string is below itself |
| Strings.BelowAsymmetric | main.py:250 | two strings are never below each other |
| Strings.BelowTransitive | main.py:250 | Python's string order is transitive |
| Strings.BelowTotal | main.py:250 | any two different strings are ordered one way or the other |
| Strings.Least | main.py:250 | every non-empty set of lemmas has an element below all the others |
| Strings.Sorted | main.py:250 | `sorted()` of a set is strictly increasing and has exactly the set's elements, each once |
| Strings.IncreasingUnique | main.py:250 | only one increasing sequence holds a given set of strings, so the sorted listing is fully determined |
| Tokenizer.RunEnd | main.py:79 | `[а-яё]+` takes the maximal run of letters |
| Tokenizer.ChainEnd | main.py:79 | after the optional `-run` segments, a match ends only where `\b` holds |
| Tokenizer.MatchAt | main.py:79 | a match found at a position is non-empty |
| Tokenizer.MatchIsToken | main.py:79 | wherever the engine finds a match, the matched text has `\b` on both sides and the shape `[а-яё]+(?:-[а-яё]+)*` |
| Tokenizer.SpansAreTokens | main.py:79 | every reported span has `\b` on both sides and the shape `[а-яё]+(?:-[а-яё]+)*`; spans come left to right without overlap |
| Tokenizer.TokensWellFormed | main.py:79 | every token is well formed: letters, with single hyphens strictly between letters |
| Tokenizer.GluedRunExample | main.py:79 | a letter run glued to a digit yields no token |
| Tokenizer.HyphenatedExample | main.py:79 | a hyphenated word is one token |
| Tokenizer.BacktrackExample | main.py:79 | when the last segment is glued to a digit, the match gives that segment back and ends before the hyphen |
| Tokenizer.NoLetterNoToken | main.py:79 | a text without a letter of `[а-яё]` has no token |
| Tokenizer.ChainEndLongest | main.py:79 | the greedy `(?:-[а-яё]+)*` with backtracking ends no earlier than any well-formed match that ends at a `\b` |
| Tokenizer.MatchIsLongest | main.py:79 | wherever some token could start and end, the engine finds a match there, and it is the longest one |
| Tokenizer.SpansComplete | main.py:79 | no token is missed: wherever, from the scan position on, a well-formed span bounded by `\b` starts, that position lies inside a span that `findall` reports |
| Tokenizer.SpansMaximal | main.py:79 | every reported span is a maximal token: no token that starts where it starts ends later, so a hyphenated word is never split |
| Tokenizer.SpansFrom | main.py:79 | the spans `findall` reports from a position: tokens, left to right (SpansAreTokens), none missed (SpansComplete), each maximal (SpansMaximal) |
| Tokenizer.Tokenize | main.py:79 | one token per reported span, each well formed (TokensWellFormed) |
| Normalizer.Stopwords | main.py:38-43 | the program's stopword set is NLTK's Russian list extended with the fourteen additions; ArtefactsAreStopwords and TokenLemmaAccepts state what it means for the filter |
| Normalizer.ArtefactsAreStopwords | main.py:98 | the four artefact lemmas of the extraction filter are all among the fourteen added stopwords, so the artefact test never rejects a lemma the stopword test keeps |
| Normalizer.FirstBestUnique | main.py:93 | at most one index is the first analysis of maximal score |
| Normalizer.BestIndex | main.py:93 | `max(parses, key=score)` picks the first analysis of maximal score |
| Normalizer.TokenLemma | main.py:84-103 | the token filter; it yields a lemma exactly as TokenLemmaAccepts states |
| Normalizer.TokenLemmaAccepts | main.py:84-103 | a token yields a lemma exactly when all of these hold: the token has at least four characters and is no stopword; the lemma is the lower-cased normal form of the first best analysis; that analysis has a content tag; the lemma is no stopword and no artefact |
| Graph.Link | main.py:109-110 | the two `add` calls; LinkLinks and LinkKeepsValid state what they do |
| Graph.LinkLinks | main.py:109-110 | the two `add` calls add exactly the link `a`–`b` in both directions; no other entry changes |
| Graph.LinkKeepsValid | main.py:304-307 | adding a link between two different lemmas keeps the lexicon symmetric, without self-links and without empty entries |
| Graph.Unlink | main.py:325-332 | the two `discard` calls and the deletion of emptied keys; UnlinkUnlinks and UnlinkKeepsValid state what they do |
| Graph.UnlinkUnlinks | main.py:325-332 | removal drops exactly the link `a`–`b` in both directions; every other entry stays as it was; a deleted key is one of the two endpoints that had no other partner |
| Graph.UnlinkKeepsValid | main.py:325-332 | removing a link keeps the invariant, because the emptied endpoints are deleted |
| Graph.UnlinkOnlyLink | main.py:325-332 | a lexicon holding only the link `a`–`b` is empty once that link is removed |
| Graph.Merged | main.py:227-230 | the merged lexicon; MergedUnions, MergedIdempotent, MergedCommutes and MergedKeepsValid state its properties, and `LexiconEditor.Merge` is proved to compute it |
| Graph.MergedUnions | main.py:227-230 | the merge unions partner sets and keeps every old link; keys outside the document keep their entry |
| Graph.MergedNothing | main.py:227-230 | merging an empty document mapping changes nothing |
| Graph.MergedStep | main.py:227-230 | one iteration of the merge loop unites one more document entry into its key's entry |
| Graph.MergedIdempotent | main.py:227-230 | merging the same collocations twice gives the same lexicon as merging them once |
| Graph.MergedCommutes | main.py:227-230 | two documents' collocations give the same lexicon whichever is merged first |
| Graph.MergedKeepsValid | main.py:227-230 | merging valid collocations into a valid lexicon gives a valid lexicon |
| Extractor.SentenceLemmas | main.py:81-103 | a sentence has at most one lemma per token |
| Extractor.DocumentLemmas | main.py:74-103 | the document has one lemma sequence per sentence of the lower-cased text |
| Extractor.LinkedShape | main.py:106-110 | a link joins two different lemmas of at least four characters from the same sentence, and it holds both ways |
| Extractor.NoCrossSentenceLink | main.py:74-110 | lemmas that never share a sentence are never linked |
| Extractor.SentenceLemmasAppend | main.py:81-103 | the lemmas of a run of tokens are the lemmas of its parts, concatenated |
| Extractor.DroppedTokenInvisible | main.py:84-103 | a dropped token leaves no gap: its two neighbours become adjacent |
| Extractor.SentenceLemmasFromTokens | main.py:81-103 | every lemma of a sentence is the filter's lemma for one of its tokens |
| Extractor.StopwordSentence | main.py:84-85 | a sentence of short tokens and stopwords only yields no lemma |
| Extractor.NounKept | main.py:84-103 | a long enough non-stopword token whose only analysis is a noun with a lower-case, non-stopword normal form yields that normal form |
| Extractor.ThreeKept | main.py:81-103 | three tokens that each yield a lemma give those three lemmas, in order |
| Extractor.ShortLemmaKept | main.py:84-103 | the length test is on the token: "доме" (four letters) is kept as its three-letter lemma "дом", between "стол" and "окно" |
| Extractor.ShortLemmaSeparates | main.py:106-110 | the kept short lemma separates its neighbours: "стол" and "окно" are not linked, and neither is linked to "дом" |
| Extractor.ExtractCollocations | main.py:64-112 | `b` is a partner of `a` exactly when they are different neighbours, both of at least four characters, in the lemma sequence of one sentence; the result is symmetric, has no self-links and no empty entries; every key has at least four characters |
| Views.KeepContaining | main.py:251-252 | the comprehension keeps exactly the lemmas containing the search text; an increasing input gives an increasing result |
| Views.LexemeList | main.py:248-252 | the listing is increasing and holds exactly the lexicon's lemmas that contain the stripped, lower-cased search text (all lemmas when that text is empty) |
| Views.Counted | main.py:254-256 | the rows pair exactly the given lemmas with their partner counts; increasing lemmas give increasing rows |
| Views.ListRows | main.py:248-256 | the rows are exactly the selected lemmas, each with its number of partners, in increasing lemma order |
| Views.PartnerList | main.py:269-271 | the partners shown are sorted and are exactly the lemma's partners; an unknown lemma has none |
| Views.ExportMap | main.py:351 | the export has the lexicon's keys, each mapped to the increasing list of exactly its partners |
| Views.Total | main.py:374 | the partner total `sum(len(v) ...)`; TotalWithout and TotalEven state its properties |
| Views.LinkCount | main.py:374 | the reported `sum // 2` links; LinkCountExact states it is exact |
| Views.TotalWithout | main.py:374 | removing a lemma from every partner set lowers the partner total by the number of sets that held it |
| Views.HoldersArePartners | main.py:374 | in a symmetric lexicon without self-links, the other lemmas whose sets hold `k` are exactly `k`'s partners |
| Views.TotalEven | main.py:374 | in a symmetric lexicon without self-links, the partner total is even |
| Views.LinkCountExact | main.py:374 | for a valid lexicon, the reported link count `sum // 2` is exact: twice it is the partner total |
| Views.Numbered | main.py:380-383 | the entries are numbered from 1 in the order given, each with the increasing list of exactly its partners |
| Views.NumberedAppend | main.py:380-383 | numbering one more lemma appends its entry |
| Views.BuildReport | main.py:370-383 | the report gives the lemma count and `sum // 2` links, then every lemma once, in increasing order, numbered from 1, each with its sorted partners |
| Editor.PartnerArtefactsAreStopwords | main.py:295 | the three artefacts `add_partner` tests are among the stopwords and the extraction filter's artefacts |
| Editor.CheckText | main.py:282-301 | on the normalised text: too short exactly below four characters; unrecognised exactly when long enough with no analysis; a refused service word is a stopword or artefact; an accepted partner is neither and differs from the selected lemma; the service-word warning (naming the lemma) and the self-link warning are given exactly as ServiceWordIsRefused, RefusedIsServiceWord, SelfLinkIsRefused and RefusedIsSelfLink state |
| Editor.CheckPartner | main.py:281-301 | the typed partner is too short exactly when its stripped, lower-cased text has fewer than four characters; it is unrecognised exactly when that text has no analysis; a refused service word is a stopword or artefact; an accepted partner is neither, and differs from the selected lemma; CheckPartnerAccepted and CheckPartnerRefused characterise the added, service-word and self-link outcomes |
| Editor.AcceptedIsAdded | main.py:282-301 | a normalised text that passes every check yields its lemma as the partner |
| Editor.AddedIsAccepted | main.py:282-301 | a text the checks accept passes every check, and the partner is the lower-cased normal form of its first best analysis |
| Editor.CheckPartnerAccepted | main.py:281-301 | the checks accept exactly this: input of at least four characters whose first best analysis has a normal form that is no service word and not the selected lemma |
| Editor.ServiceWordIsRefused | main.py:292-297 | a long-enough text whose first best analysis has a normal form that is a stopword or artefact gets the service-word warning naming that lemma, whatever lemma is selected |
| Editor.RefusedIsServiceWord | main.py:292-297 | the service-word warning is given only for such a text, and names the lemma of its first best analysis |
| Editor.SelfLinkIsRefused | main.py:292-301 | a long-enough text whose first best analysis lowers to the selected lemma, which is no service word, gets the self-link warning |
| Editor.RefusedIsSelfLink | main.py:292-301 | the self-link warning is given only for such a text, so the service-word test comes first |
| Editor.CheckPartnerRefused | main.py:281-301 | on the typed input, stripped and lower-cased: the service-word warning naming `w` is given exactly when `w` is the first best analysis's lower-cased normal form and a service word; the self-link warning exactly when that form is the selected lemma and no service word |
| Editor.PlainWord | main.py:281 | a word with no capital and no whitespace at either end is its own normalised text |
| Editor.ShortPartnerExample | main.py:281-301 | the length check is on the typed text: "котом" with the three-letter lemma "кот" is accepted; its tag `CONJ` is no content tag, since `add_partner` checks no part of speech |
| Editor.LexiconEditor.constructor | main.py:122 | a new editor starts with an empty, valid lexicon |
| Editor.LexiconEditor.Merge | main.py:227-230 | the merge loop leaves the lexicon equal to the union-merge of the old lexicon and the document's collocations; a valid lexicon stays valid when the collocations are valid |
| Editor.LexiconEditor.LoadText | main.py:219-240 | a blank text is refused and the lexicon is unchanged; otherwise the extracted collocations are merged in, the lexicon stays valid, and the counts are the document's lemma count and `sum // 2` links |
| Editor.LexiconEditor.AddPartner | main.py:273-311 | the outcome is the check's verdict; on success exactly the link `selected`–`partner` is added; on a warning the lexicon is unchanged; the lexicon stays valid |
| Editor.LexiconEditor.Connect | main.py:304-307 | the partner's entry is created if missing, and the link is added both ways; the lexicon stays valid |
| Editor.LexiconEditor.RemovePartner | main.py:314-336 | the lexicon becomes the old one without the link, with emptied endpoints deleted; it stays valid |
| Editor.LexiconEditor.ClearAll | main.py:391-407 | an empty lexicon is reported as already empty; otherwise it is emptied exactly when confirmed and kept otherwise |
| Editor.LexiconEditor.SaveLexicon | main.py:338-351 | nothing is saved exactly when the lexicon is empty; otherwise the saved mapping is the export map |
| Editor.LexiconEditor.DocumentLexicon | main.py:358-383 | no report exactly when the lexicon is empty; otherwise the report is `BuildReport` of the lexicon |
| Editor.LexiconEditor.ReportEntries | main.py:380-383 | the `enumerate` loop builds the numbered entries of the sorted lemmas |

## Left out

- The PyQt5 window is not modelled: widgets, signal wiring, message boxes, status-bar texts, `show_guide` and `show_about`. It is presentation only. The selected lemma, the selected partner, the typed text and the answer to the confirmation dialog are parameters.
- The selected lemma is not recovered from the list item text (`split(' (')`); it is a parameter instead.
- File input is not modelled: `read_file`, RTF decoding (main.py:51-61) and the file dialogs. `LoadText` starts from the text that was read.
- File output is not modelled: `json.dump` and writing the report. The model returns the data that would be written (`ExportMap`, `Report`), not its formatting.
- The exception handler of `load_file` (main.py:241-243) is not modelled. The only error raised inside the core is the blank-text refusal, which is modelled as `EmptyText`. Errors from reading files are not part of this model.
- `setup_nltk` and the contents of NLTK's stopword list are external resources; the list is a parameter. The sentence splitter (Punkt) and the morphological analyser are external libraries: they are uninterpreted functions in `Resources`.
- Analysis scores are Dafny `real`, not floating point. Only the first-maximum rule of `max` is kept.
- Strings.LowerChar: `str.lower()` is modelled for the ASCII capitals and the Cyrillic capitals U+0400–U+042F only. The paired capitals U+0460–U+04FF, the Latin-1 capitals and other scripts are left as they are, where Python lowers them.
- Unicode `\w` is modelled for ASCII, Latin-1 and the Cyrillic block only. Characters outside these ranges count as non-word characters, so `\b` can differ from Python's. For example, "котα" gives the token "кот" in the model but no token in Python, where α is a word character.
- A missing part of speech (`None`) is any string outside the content tags.
- The unused `total_new` computation (main.py:233) and the wording of messages are left out.
- The order of iteration over Python dictionaries is not modelled. The merge loop takes the document's keys in an arbitrary order, and the result is proved not to depend on it.
- `update_lexeme_list` and `show_partners` fill list widgets one item at a time; that loop is not modelled. The model gives the rows as functions (`ListRows`, `PartnerList`).
- Editor.LexiconEditor.AddPartner: requires the selected lemma to be a key. The code raises `KeyError` otherwise, but the window only offers lemmas listed from the lexicon.
- Editor.LexiconEditor.RemovePartner: requires both lemmas to be keys. The code raises `KeyError` otherwise, but the window only offers a listed lemma and one of its partners, which is a key in a valid lexicon.
