/**
 * The lexicon as a value: a map from a lemma to the set of its partner
 * lemmas, read as an undirected graph. This module gives the invariant the
 * lexicon keeps and the value-level meaning of every change made to it
 * (merge of a document's collocations, adding and removing a link).
 */
module Graph {

  type Lexicon = map<string, set<string>>

  /** The partners of `a`; none when `a` is not a key (a `defaultdict(set)` lookup). */
  function Partners(m: Lexicon, a: string): set<string> {
    if a in m then m[a] else {}
  }

  /** `b` is a partner of `a`. */
  predicate HasLink(m: Lexicon, a: string, b: string) {
    a in m && b in m[a]
  }

  ghost predicate Symmetric(m: Lexicon) {
    forall a, b :: HasLink(m, a, b) ==> HasLink(m, b, a)
  }

  ghost predicate Loopless(m: Lexicon) {
    forall a :: a in m ==> a !in m[a]
  }

  ghost predicate NoEmptyEntries(m: Lexicon) {
    forall a :: a in m ==> m[a] != {}
  }

  /** The lexicon invariant: symmetric links, no self-links, no isolated keys. */
  ghost predicate Valid(m: Lexicon) {
    Symmetric(m) && Loopless(m) && NoEmptyEntries(m)
  }

  /** The two `add` calls that record a collocation: `m[a].add(b)`, then `m[b].add(a)`. */
  function Link(m: Lexicon, a: string, b: string): Lexicon {
    var m1 := m[a := Partners(m, a) + {b}];
    m1[b := Partners(m1, b) + {a}]
  }

  /**
   * `m[a].discard(b)`, `m[b].discard(a)`, then `del` of whichever of the two
   * keys is left with no partner.
   */
  function Unlink(m: Lexicon, a: string, b: string): Lexicon
    requires a in m && b in m
  {
    var m1 := m[a := m[a] - {b}];
    var m2 := m1[b := m1[b] - {a}];
    var m3 := if a in m2 && m2[a] == {} then m2 - {a} else m2;
    if b in m3 && m3[b] == {} then m3 - {b} else m3
  }

  /** The union-merge of a document's collocations `found` into the lexicon `m`. */
  function Merged(m: Lexicon, found: Lexicon): Lexicon {
    map k | k in m.Keys + found.Keys :: Partners(m, k) + Partners(found, k)
  }

  /** `Link` adds exactly the link `a`–`b`, in both directions, and changes no other entry. */
  lemma LinkLinks(m: Lexicon, a: string, b: string)
    ensures Link(m, a, b).Keys == m.Keys + {a, b}
    ensures forall x, y :: HasLink(Link(m, a, b), x, y) <==>
      HasLink(m, x, y) || (x == a && y == b) || (x == b && y == a)
    ensures forall x :: x in m && x != a && x != b ==> Link(m, a, b)[x] == m[x]
  {
  }

  /** Adding a link between two distinct lemmas keeps the invariant. */
  lemma LinkKeepsValid(m: Lexicon, a: string, b: string)
    requires Valid(m) && a != b
    ensures Valid(Link(m, a, b))
  {
    LinkLinks(m, a, b);
  }

  /** `Unlink` removes exactly the link `a`–`b` and the keys it leaves empty; nothing else changes. */
  lemma UnlinkUnlinks(m: Lexicon, a: string, b: string)
    requires a in m && b in m
    ensures forall x, y :: HasLink(Unlink(m, a, b), x, y) <==>
      HasLink(m, x, y) && !(x == a && y == b) && !(x == b && y == a)
    ensures forall x :: x in m && x != a && x != b ==> x in Unlink(m, a, b) && Unlink(m, a, b)[x] == m[x]
    ensures Unlink(m, a, b).Keys <= m.Keys
    ensures forall x :: x in m && x !in Unlink(m, a, b) ==> (x == a || x == b) && m[x] - {a, b} == {}
    ensures forall x :: x in Unlink(m, a, b) && Unlink(m, a, b)[x] == {} ==> m[x] == {}
  {
    var m1 := m[a := m[a] - {b}];
    var m2 := m1[b := m1[b] - {a}];
    assert m2.Keys == m.Keys;
    assert forall x, y :: HasLink(m2, x, y) <==>
      HasLink(m, x, y) && !(x == a && y == b) && !(x == b && y == a);
    var m3 := if a in m2 && m2[a] == {} then m2 - {a} else m2;
    assert forall x, y :: HasLink(m3, x, y) <==> HasLink(m2, x, y);
  }

  /** Removing a link keeps the invariant: the emptied endpoints are pruned. */
  lemma UnlinkKeepsValid(m: Lexicon, a: string, b: string)
    requires Valid(m) && a in m && b in m
    ensures Valid(Unlink(m, a, b))
  {
    UnlinkUnlinks(m, a, b);
  }

  /** A lexicon holding the single link `a`–`b` is empty once that link is removed. */
  lemma UnlinkOnlyLink(a: string, b: string)
    requires a != b
    ensures Unlink(map[a := {b}, b := {a}], a, b) == map[]
  {
    var m := map[a := {b}, b := {a}];
    var u := Unlink(m, a, b);
    assert u.Keys == {};
  }

  /** Merging unions partner sets and never drops a link: keys outside `found` keep their entry. */
  lemma MergedUnions(m: Lexicon, found: Lexicon)
    ensures Merged(m, found).Keys == m.Keys + found.Keys
    ensures forall x, y :: HasLink(Merged(m, found), x, y) <==> HasLink(m, x, y) || HasLink(found, x, y)
    ensures forall k :: k in m && k !in found ==> Merged(m, found)[k] == m[k]
  {
  }

  /** Merging no collocations leaves the lexicon as it is. */
  lemma MergedNothing(m: Lexicon)
    ensures Merged(m, map[]) == m
  {
    var r := Merged(m, map[]);
    assert r.Keys == m.Keys;
    forall k | k in m ensures r[k] == m[k] {
      assert Partners(map[], k) == {};
    }
  }

  /** One step of the merge loop: the entry of one more found key `k` is united into its own. */
  lemma MergedStep(m: Lexicon, found: Lexicon, pending: set<string>, k: string)
    requires k in pending && pending <= found.Keys
    ensures Merged(m, found - (pending - {k})) ==
      Merged(m, found - pending)[k := Partners(Merged(m, found - pending), k) + found[k]]
  {
    var done, done' := found - pending, found - (pending - {k});
    assert done.Keys == found.Keys - pending;
    assert done'.Keys == done.Keys + {k};
    assert Partners(done, k) == {} && Partners(done', k) == found[k];
    var before, after := Merged(m, done), Merged(m, done');
    var next := before[k := Partners(before, k) + found[k]];
    assert after.Keys == next.Keys;
    forall x | x in after ensures after[x] == next[x] {
      if x != k {
        assert Partners(done, x) == Partners(done', x);
      }
    }
  }

  /** Merging the same collocations twice gives the same lexicon as merging them once. */
  lemma MergedIdempotent(m: Lexicon, found: Lexicon)
    ensures Merged(Merged(m, found), found) == Merged(m, found)
  {
    var once := Merged(m, found);
    var twice := Merged(once, found);
    assert twice.Keys == once.Keys;
    forall k | k in once ensures twice[k] == once[k] {
    }
  }

  /** The partners of `k` after a merge are its old partners and its found ones. */
  lemma MergedPartners(m: Lexicon, found: Lexicon, k: string)
    ensures Partners(Merged(m, found), k) == Partners(m, k) + Partners(found, k)
  {
  }

  /** The entry of `k` after merging `f1` then `f2` does not depend on the order. */
  lemma MergedCommutesAt(m: Lexicon, f1: Lexicon, f2: Lexicon, k: string)
    ensures Partners(Merged(Merged(m, f1), f2), k) == Partners(Merged(Merged(m, f2), f1), k)
  {
    MergedPartners(m, f1, k);
    MergedPartners(m, f2, k);
    MergedPartners(Merged(m, f1), f2, k);
    MergedPartners(Merged(m, f2), f1, k);
  }

  /** Two lexicons with the same keys and the same partners of every key are equal. */
  lemma SameLexicon(a: Lexicon, b: Lexicon)
    requires a.Keys == b.Keys
    requires forall k :: Partners(a, k) == Partners(b, k)
    ensures a == b
  {
    forall k | k in a ensures a[k] == b[k] {
      assert Partners(a, k) == Partners(b, k);
    }
  }

  /** Two documents' collocations give the same lexicon whichever is merged first. */
  lemma MergedCommutes(m: Lexicon, f1: Lexicon, f2: Lexicon)
    ensures Merged(Merged(m, f1), f2) == Merged(Merged(m, f2), f1)
  {
    var a, b := Merged(Merged(m, f1), f2), Merged(Merged(m, f2), f1);
    assert a.Keys == b.Keys by {
      MergedUnions(m, f1);
      MergedUnions(m, f2);
      MergedUnions(Merged(m, f1), f2);
      MergedUnions(Merged(m, f2), f1);
    }
    forall k ensures Partners(a, k) == Partners(b, k) {
      MergedCommutesAt(m, f1, f2, k);
    }
    SameLexicon(a, b);
  }

  /** Merging valid collocations into a valid lexicon gives a valid lexicon. */
  lemma MergedKeepsValid(m: Lexicon, found: Lexicon)
    requires Valid(m) && Valid(found)
    ensures Valid(Merged(m, found))
  {
    MergedUnions(m, found);
  }
}
