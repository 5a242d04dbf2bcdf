/**
 * The read-only projections of the lexicon: the filtered lemma listing of
 * the main window, the map written to the JSON export, and the contents of
 * the plain-text report.
 */
module Views {

  import opened Strings
  import opened Graph

  /** Keeps, in order, the strings that contain `q` once lower-cased. */
  function KeepContaining(xs: seq<string>, q: string): (r: seq<string>)
    ensures forall x :: x in r <==> x in xs && Contains(Lower(x), q)
    ensures Increasing(xs) ==> Increasing(r)
  {
    if xs == [] then []
    else
      var rest := KeepContaining(xs[1..], q);
      assert Increasing(xs) ==> forall j :: 0 <= j < |rest| ==> Below(xs[0], rest[j]) by {
        if Increasing(xs) {
          forall j | 0 <= j < |rest| ensures Below(xs[0], rest[j]) {
            assert rest[j] in xs[1..];
            var i :| 0 <= i < |xs| - 1 && xs[1..][i] == rest[j];
            assert xs[i + 1] == rest[j];
          }
        }
      }
      if Contains(Lower(xs[0]), q) then [xs[0]] + rest else rest
  }

  /** `x` is a lemma of `m` that the search text selects. */
  predicate Selected(m: Lexicon, search: string, x: string) {
    x in m && Contains(Lower(x), Strip(Lower(search)))
  }

  /**
   * `update_lexeme_list`: the sorted lemmas, restricted to those containing
   * the lower-cased, stripped search text when that text is not empty.
   */
  function LexemeList(m: Lexicon, search: string): (r: seq<string>)
    ensures Increasing(r)
    ensures forall x :: x in r <==> Selected(m, search, x)
    ensures forall i :: 0 <= i < |r| ==> r[i] in m
  {
    var q := Strip(Lower(search));
    var lemmas := Sorted(m.Keys);
    if q == [] then lemmas else KeepContaining(lemmas, q)
  }

  /** Each of `lemmas`, in order, paired with its number of partners. */
  function Counted(m: Lexicon, lemmas: seq<string>): (rows: seq<(string, nat)>)
    requires forall i :: 0 <= i < |lemmas| ==> lemmas[i] in m
    ensures forall x, n :: (x, n) in rows <==> x in lemmas && x in m && n == |m[x]|
    ensures Increasing(lemmas) ==> forall i, j :: 0 <= i < j < |rows| ==> Below(rows[i].0, rows[j].0)
  {
    var rows := seq(|lemmas|, i requires 0 <= i < |lemmas| => (lemmas[i], |m[lemmas[i]]|));
    assert forall i :: 0 <= i < |rows| ==> rows[i].0 == lemmas[i];
    assert forall x :: x in lemmas ==> (x, |m[x]|) in rows by {
      forall x | x in lemmas ensures (x, |m[x]|) in rows {
        var i :| 0 <= i < |lemmas| && lemmas[i] == x;
        assert rows[i] == (x, |m[x]|);
      }
    }
    rows
  }

  /**
   * The rows of the lemma list: exactly the selected lemmas, each with its
   * number of partners, in increasing order.
   */
  function ListRows(m: Lexicon, search: string): (rows: seq<(string, nat)>)
    ensures forall x, n :: (x, n) in rows <==> Selected(m, search, x) && n == |m[x]|
    ensures forall i, j :: 0 <= i < j < |rows| ==> Below(rows[i].0, rows[j].0)
  {
    Counted(m, LexemeList(m, search))
  }

  /** The sorted partners `show_partners` lists for a lemma; none for an unknown one. */
  function PartnerList(m: Lexicon, word: string): (r: seq<string>)
    ensures Increasing(r)
    ensures forall x :: x in r <==> HasLink(m, word, x)
  {
    Sorted(Partners(m, word))
  }

  /** The mapping `save_lexicon` serialises: every lemma with the sorted list of its partners. */
  function ExportMap(m: Lexicon): (r: map<string, seq<string>>)
    ensures r.Keys == m.Keys
    ensures forall k :: k in r ==> Increasing(r[k]) && forall x :: x in r[k] <==> x in m[k]
  {
    map k | k in m :: Sorted(m[k])
  }

  /** The sum of the sizes of all partner sets (`sum(len(v) for v in lexicon.values())`). */
  function Total(m: Lexicon): nat
    decreases |m.Keys|
  {
    if m == map[] then 0
    else
      var k := Least(m.Keys);
      assert (m - {k}).Keys == m.Keys - {k};
      |m[k]| + Total(m - {k})
  }

  /** The number of links the report states: half the partner total, by integer division. */
  function LinkCount(m: Lexicon): nat {
    Total(m) / 2
  }

  /** `m` with `k` taken out of every partner set. */
  function Without(m: Lexicon, k: string): Lexicon {
    map x | x in m :: m[x] - {k}
  }

  /** The keys whose partner set holds `k`. */
  function HoldersOf(m: Lexicon, k: string): set<string> {
    set x | x in m && k in m[x]
  }

  /** Removing one key commutes with `Without`. */
  lemma WithoutDrop(m: Lexicon, k: string, j: string)
    requires j in m
    ensures Without(m, k).Keys == m.Keys && Without(m, k)[j] == m[j] - {k}
    ensures Without(m - {j}, k) == Without(m, k) - {j}
  {
  }

  /** Removing key `j` removes it from the holders of `k`, if it was one. */
  lemma HoldersDrop(m: Lexicon, k: string, j: string)
    requires j in m
    ensures |HoldersOf(m, k)| == |HoldersOf(m - {j}, k)| + (if k in m[j] then 1 else 0)
  {
    var h := HoldersOf(m - {j}, k);
    assert j !in h;
    if k in m[j] {
      assert HoldersOf(m, k) == h + {j};
    } else {
      assert HoldersOf(m, k) == h;
    }
  }

  lemma RemoveCount(s: set<string>, k: string)
    ensures |s| == |s - {k}| + (if k in s then 1 else 0)
  {
    if k in s { assert s == (s - {k}) + {k}; }
  }

  /** Taking `k` out of every set lowers the total by the number of sets that held it. */
  lemma {:induction false} TotalWithout(m: Lexicon, k: string)
    ensures Total(m) == Total(Without(m, k)) + |HoldersOf(m, k)|
    decreases |m.Keys|
  {
    var w := Without(m, k);
    if m != map[] {
      var j := Least(m.Keys);
      WithoutDrop(m, k, j);
      HoldersDrop(m, k, j);
      RemoveCount(m[j], k);
      assert w != map[];
      assert (m - {j}).Keys == m.Keys - {j};
      TotalWithout(m - {j}, k);
    } else {
      assert HoldersOf(m, k) == {};
    }
  }

  /** In a symmetric lexicon without self-links, the other lemmas holding `k` are its partners. */
  lemma HoldersArePartners(m: Lexicon, k: string)
    requires Symmetric(m) && Loopless(m) && k in m
    ensures HoldersOf(m - {k}, k) == m[k]
  {
    forall x ensures x in HoldersOf(m - {k}, k) <==> x in m[k] {
      if x in m[k] {
        assert HasLink(m, k, x);
      }
      if x in HoldersOf(m - {k}, k) {
        assert HasLink(m, x, k);
      }
    }
  }

  /** Taking a lemma out entirely keeps the links symmetric and free of self-links. */
  lemma RemoveLemmaKeepsShape(m: Lexicon, k: string)
    requires Symmetric(m) && Loopless(m) && k in m
    ensures Symmetric(Without(m - {k}, k)) && Loopless(Without(m - {k}, k))
    ensures |Without(m - {k}, k).Keys| < |m.Keys|
  {
    var smaller := Without(m - {k}, k);
    assert smaller.Keys == m.Keys - {k};
    forall a, b | HasLink(smaller, a, b) ensures HasLink(smaller, b, a) {
      assert HasLink(m, a, b);
    }
  }

  /** In a symmetric lexicon without self-links every link is counted twice, so the total is even. */
  lemma {:induction false} TotalEven(m: Lexicon)
    requires Symmetric(m) && Loopless(m)
    ensures Total(m) % 2 == 0
    decreases |m.Keys|
  {
    if m != map[] {
      var k := Least(m.Keys);
      var rest := m - {k};
      assert Total(m) == |m[k]| + Total(rest);
      TotalWithout(rest, k);
      HoldersArePartners(m, k);
      RemoveLemmaKeepsShape(m, k);
      TotalEven(Without(rest, k));
    }
  }

  /** For a valid lexicon the reported link count is exact: twice it is the partner total. */
  lemma LinkCountExact(m: Lexicon)
    requires Valid(m)
    ensures 2 * LinkCount(m) == Total(m)
  {
    TotalEven(m);
  }

  /** One numbered lemma of the report with its sorted partners. */
  datatype Entry = Entry(number: nat, headword: string, partners: seq<string>)

  /** The data `document_lexicon` writes: the two counts and the numbered listing. */
  datatype Report = Report(lemmaCount: nat, linkCount: nat, entries: seq<Entry>)

  /** The numbered entries of `lemmas`, each with the sorted partners it has in `m`. */
  function Numbered(m: Lexicon, lemmas: seq<string>): (r: seq<Entry>)
    requires forall i :: 0 <= i < |lemmas| ==> lemmas[i] in m
    ensures |r| == |lemmas|
    ensures forall i :: 0 <= i < |r| ==>
      && r[i].number == i + 1
      && r[i].headword == lemmas[i]
      && Increasing(r[i].partners)
      && (forall x :: x in r[i].partners <==> x in m[lemmas[i]])
  {
    seq(|lemmas|, i requires 0 <= i < |lemmas| => Entry(i + 1, lemmas[i], Sorted(m[lemmas[i]])))
  }

  /** Numbering one more lemma appends its entry. */
  lemma NumberedAppend(m: Lexicon, lemmas: seq<string>, x: string)
    requires forall i :: 0 <= i < |lemmas| ==> lemmas[i] in m
    requires x in m
    ensures Numbered(m, lemmas + [x]) == Numbered(m, lemmas) + [Entry(|lemmas| + 1, x, Sorted(m[x]))]
  {
  }

  /**
   * The report of `m`: its lemma count, its link count, and every lemma in
   * sorted order, numbered from 1, with the sorted list of its partners.
   */
  function BuildReport(m: Lexicon): (r: Report)
    ensures r.lemmaCount == |m| && r.linkCount == LinkCount(m)
    ensures |r.entries| == |m|
    ensures forall i :: 0 <= i < |r.entries| ==>
      && r.entries[i].number == i + 1
      && r.entries[i].headword in m
      && Increasing(r.entries[i].partners)
      && (forall x :: x in r.entries[i].partners <==> x in m[r.entries[i].headword])
    ensures forall i, j :: 0 <= i < j < |r.entries| ==> Below(r.entries[i].headword, r.entries[j].headword)
    ensures forall k :: k in m ==> exists i :: 0 <= i < |r.entries| && r.entries[i].headword == k
  {
    var lemmas := Sorted(m.Keys);
    assert |m.Keys| == |m|;
    var entries := Numbered(m, lemmas);
    Report(|m|, LinkCount(m), entries)
  }
}
