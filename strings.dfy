/**
 * The few pieces of Python `str` behaviour the lexicon code relies on:
 * `lower()`, `strip()`, the `in` substring test and the code-point order
 * that `sorted()` uses on strings, together with `sorted()` itself applied
 * to a set of strings.
 */
module Strings {

  /** Python's `str.isspace()`: the characters `str.strip()` removes. */
  predicate IsSpace(c: char) {
    || ('\t' <= c <= '\r') || ('\U{1c}' <= c <= '\U{1f}') || c == ' '
    || c == '\U{85}' || c == '\U{a0}' || c == '\U{1680}'
    || ('\U{2000}' <= c <= '\U{200a}') || c == '\U{2028}' || c == '\U{2029}'
    || c == '\U{202f}' || c == '\U{205f}' || c == '\U{3000}'
  }

  /** The capitals `LowerChar` lowers: Latin `A`-`Z` and Cyrillic U+0400-U+042F. */
  predicate IsCapital(c: char) {
    ('A' <= c <= 'Z') || ('Ѐ' <= c <= 'Я')
  }

  /**
   * `str.lower()` on one character, for ASCII and the Cyrillic capitals
   * U+0400-U+042F: each capital becomes the small letter at the same place
   * in its alphabet; every other character is left as it is.
   */
  function LowerChar(c: char): (r: char)
    ensures ('A' <= c <= 'Z') ==> 'a' <= r <= 'z'
    ensures ('А' <= c <= 'Я') ==> 'а' <= r <= 'я'
    ensures c == 'Ё' ==> r == 'ё'
  {
    if 'A' <= c <= 'Z' then (c as int + 32) as char
    else if 'А' <= c <= 'Я' then (c as int + 32) as char
    else if 'Ѐ' <= c <= 'Џ' then (c as int + 80) as char
    else c
  }

  /**
   * Each capital becomes the small letter at the same place in its alphabet,
   * every other character is left as it is, and lowering twice is lowering once.
   */
  lemma LowerCharMatches(c: char)
    ensures ('A' <= c <= 'Z') ==> 'a' <= LowerChar(c) <= 'z' && LowerChar(c) as int - 'a' as int == c as int - 'A' as int
    ensures ('А' <= c <= 'Я') ==> 'а' <= LowerChar(c) <= 'я' && LowerChar(c) as int - 'а' as int == c as int - 'А' as int
    ensures ('Ѐ' <= c <= 'Џ') ==> 'ѐ' <= LowerChar(c) <= 'џ' && LowerChar(c) as int - 'ѐ' as int == c as int - 'Ѐ' as int
    ensures !IsCapital(c) ==> LowerChar(c) == c
    ensures !IsCapital(LowerChar(c)) && LowerChar(LowerChar(c)) == LowerChar(c)
  {
  }

  function Lower(s: string): (r: string)
    ensures |r| == |s|
    ensures forall i :: 0 <= i < |s| ==> r[i] == LowerChar(s[i])
  {
    if s == [] then [] else [LowerChar(s[0])] + Lower(s[1..])
  }

  /** Text without capitals is its own lower-case form. */
  lemma LowerWithoutCapitals(s: string)
    requires forall i :: 0 <= i < |s| ==> !IsCapital(s[i])
    ensures Lower(s) == s
  {
    forall i | 0 <= i < |s| ensures Lower(s)[i] == s[i] {
      LowerCharMatches(s[i]);
    }
  }

  /** Python's `not s.strip()`: empty or whitespace only. */
  predicate IsBlank(s: string) {
    forall i :: 0 <= i < |s| ==> IsSpace(s[i])
  }

  /** `str.lstrip()`: the suffix of `s` left after dropping leading whitespace. */
  function TrimLeft(s: string): (r: string)
    ensures |r| <= |s| && r == s[|s| - |r|..]
    ensures r != [] ==> !IsSpace(r[0])
    ensures forall i :: 0 <= i < |s| - |r| ==> IsSpace(s[i])
  {
    if s != [] && IsSpace(s[0]) then TrimLeft(s[1..]) else s
  }

  /** `str.rstrip()`: the prefix of `s` left after dropping trailing whitespace. */
  function TrimRight(s: string): (r: string)
    ensures |r| <= |s| && r == s[..|r|]
    ensures r != [] ==> !IsSpace(r[|r| - 1])
    ensures forall i :: |r| <= i < |s| ==> IsSpace(s[i])
  {
    if s != [] && IsSpace(s[|s| - 1]) then TrimRight(s[..|s| - 1]) else s
  }

  /** `str.strip()`: `s` without its leading and trailing whitespace. */
  function Strip(s: string): (r: string)
    ensures |r| <= |s|
    ensures r == [] <==> IsBlank(s)
    ensures r != [] ==> !IsSpace(r[0]) && !IsSpace(r[|r| - 1])
  {
    var t := TrimLeft(s);
    var r := TrimRight(t);
    assert r == [] ==> t == [];
    assert r != [] ==> !IsSpace(s[|s| - |t|]) by {
      if r != [] {
        assert t[0] == s[|s| - |t|];
      }
    }
    r
  }

  /** Text that neither starts nor ends with whitespace is its own `strip()`. */
  lemma StripUntrimmed(s: string)
    requires s != [] && !IsSpace(s[0]) && !IsSpace(s[|s| - 1])
    ensures Strip(s) == s
  {
    assert TrimLeft(s) == s;
    assert TrimRight(s) == s;
  }

  /**
   * `strip()` returns the slice of `s` between its leading and its trailing
   * whitespace: character `k` of the result is character `i + k` of `s`, and
   * what lies before the slice and after it is whitespace.
   */
  lemma StripSlice(s: string)
    ensures var i := |s| - |TrimLeft(s)|;
      && i + |Strip(s)| <= |s|
      && (forall k :: 0 <= k < |Strip(s)| ==> Strip(s)[k] == s[i + k])
      && (forall k :: 0 <= k < i ==> IsSpace(s[k]))
      && (forall k :: i + |Strip(s)| <= k < |s| ==> IsSpace(s[k]))
  {
    StripIsSlice(s);
    StripBetweenSpace(s);
  }

  /** The slice half of `StripSlice`. */
  lemma {:induction false} StripIsSlice(s: string)
    ensures var i := |s| - |TrimLeft(s)|;
      && i + |Strip(s)| <= |s|
      && (forall k :: 0 <= k < |Strip(s)| ==> Strip(s)[k] == s[i + k])
  {
    var t := TrimLeft(s);
    var r := Strip(s);
    assert |r| <= |t| && r == t[..|r|] by {
      assert r == TrimRight(t);
    }
    PrefixOfSuffix(s, t, r);
  }

  /** The whitespace half of `StripSlice`. */
  lemma {:induction false} StripBetweenSpace(s: string)
    ensures forall k :: 0 <= k < |s| - |TrimLeft(s)| ==> IsSpace(s[k])
    ensures forall k :: |s| - |TrimLeft(s)| + |Strip(s)| <= k < |s| ==> IsSpace(s[k])
  {
    var t := TrimLeft(s);
    var r := Strip(s);
    assert |r| <= |t| && forall k :: |r| <= k < |t| ==> IsSpace(t[k]) by {
      assert r == TrimRight(t);
    }
    TrailingSpace(s, t, r);
  }

  /** A prefix `r` of a suffix `t` of `s` is, character by character, the slice of `s` where `t` starts. */
  lemma PrefixOfSuffix(s: string, t: string, r: string)
    requires |t| <= |s| && t == s[|s| - |t|..]
    requires |r| <= |t| && r == t[..|r|]
    ensures |s| - |t| + |r| <= |s|
    ensures forall k :: 0 <= k < |r| ==> r[k] == s[|s| - |t| + k]
  {
  }

  /** Whitespace that follows `r` within a suffix `t` of `s` follows the same slice in `s`. */
  lemma TrailingSpace(s: string, t: string, r: string)
    requires |t| <= |s| && t == s[|s| - |t|..]
    requires |r| <= |t| && forall k :: |r| <= k < |t| ==> IsSpace(t[k])
    ensures forall k :: |s| - |t| + |r| <= k < |s| ==> IsSpace(s[k])
  {
    forall k | |s| - |t| + |r| <= k < |s|
      ensures IsSpace(s[k])
    {
      assert s[k] == t[k - (|s| - |t|)];
    }
  }

  /** Python's `needle in hay` on strings: `needle` occurs somewhere in `hay`. */
  predicate Contains(hay: string, needle: string) {
    needle <= hay || (hay != [] && Contains(hay[1..], needle))
  }

  /** `needle` is the slice of `hay` that starts at `i`. */
  predicate OccursAt(hay: string, needle: string, i: int) {
    0 <= i && i + |needle| <= |hay| && hay[i..i + |needle|] == needle
  }

  /** `needle in hay` holds exactly when `needle` is the slice of `hay` at some position. */
  lemma ContainsSlice(hay: string, needle: string)
    ensures Contains(hay, needle) <==> exists i :: OccursAt(hay, needle, i)
  {
    if Contains(hay, needle) {
      ContainsOccurs(hay, needle);
    }
    if exists i :: OccursAt(hay, needle, i) {
      var i :| OccursAt(hay, needle, i);
      OccursContains(hay, needle, i);
    }
  }

  /** A found `needle` occurs as a slice of `hay`. */
  lemma {:induction false} ContainsOccurs(hay: string, needle: string)
    requires Contains(hay, needle)
    ensures exists i :: OccursAt(hay, needle, i)
  {
    if needle <= hay {
      assert OccursAt(hay, needle, 0);
    } else {
      ContainsOccurs(hay[1..], needle);
      var i :| OccursAt(hay[1..], needle, i);
      assert OccursAt(hay, needle, i + 1);
    }
  }

  /** A slice of `hay` is found in `hay`. */
  lemma {:induction false} OccursContains(hay: string, needle: string, i: int)
    requires OccursAt(hay, needle, i)
    ensures Contains(hay, needle)
    decreases i
  {
    if i > 0 {
      assert OccursAt(hay[1..], needle, i - 1);
      OccursContains(hay[1..], needle, i - 1);
    }
  }

  /** Python's `a < b` on strings: lexicographic on code points, a proper prefix first. */
  predicate Below(a: string, b: string) {
    if b == [] then false
    else if a == [] then true
    else if a[0] != b[0] then a[0] < b[0]
    else Below(a[1..], b[1..])
  }

  lemma {:induction false} BelowIrreflexive(a: string)
    ensures !Below(a, a)
  {
    if a != [] { BelowIrreflexive(a[1..]); }
  }

  lemma {:induction false} BelowAsymmetric(a: string, b: string)
    ensures !(Below(a, b) && Below(b, a))
  {
    if a != [] && b != [] && a[0] == b[0] { BelowAsymmetric(a[1..], b[1..]); }
  }

  lemma {:induction false} BelowTransitive(a: string, b: string, c: string)
    requires Below(a, b) && Below(b, c)
    ensures Below(a, c)
  {
    if a != [] && a[0] == b[0] && b[0] == c[0] {
      BelowTransitive(a[1..], b[1..], c[1..]);
    }
  }

  lemma {:induction false} BelowTotal(a: string, b: string)
    requires a != b
    ensures Below(a, b) || Below(b, a)
  {
    if a != [] && b != [] && a[0] == b[0] {
      assert a == [a[0]] + a[1..] && b == [b[0]] + b[1..];
      BelowTotal(a[1..], b[1..]);
    }
  }

  /** Every non-empty set of strings has a least element. */
  lemma {:induction false} LeastExists(s: set<string>)
    requires s != {}
    ensures exists m :: m in s && forall x :: x in s && x != m ==> Below(m, x)
    decreases |s|
  {
    var y :| y in s;
    if s == {y} {
      assert forall x :: x in s && x != y ==> Below(y, x);
    } else {
      var rest := s - {y};
      LeastExists(rest);
      var m :| m in rest && forall x :: x in rest && x != m ==> Below(m, x);
      if Below(m, y) {
        assert forall x :: x in s && x != m ==> Below(m, x);
      } else {
        BelowTotal(m, y);
        forall x | x in s && x != y
          ensures Below(y, x)
        {
          if x != m { BelowTransitive(y, m, x); }
        }
      }
    }
  }

  function Least(s: set<string>): (m: string)
    requires s != {}
    ensures m in s && forall x :: x in s && x != m ==> Below(m, x)
  {
    LeastExists(s);
    assert forall m1, m2 ::
      (m1 in s && m2 in s && m1 != m2 && Below(m1, m2)) ==> !Below(m2, m1) by {
      forall m1, m2 | m1 in s && m2 in s { BelowAsymmetric(m1, m2); }
    }
    var m :| m in s && forall x :: x in s && x != m ==> Below(m, x);
    m
  }

  predicate Increasing(r: seq<string>) {
    forall i, j :: 0 <= i < j < |r| ==> Below(r[i], r[j])
  }

  /** Python's `sorted()` applied to a set of strings. */
  function Sorted(s: set<string>): (r: seq<string>)
    ensures Increasing(r)
    ensures forall x :: x in r <==> x in s
    ensures forall i :: 0 <= i < |r| ==> r[i] in s
    ensures |r| == |s|
    decreases |s|
  {
    if s == {} then []
    else
      var m := Least(s);
      var rest := Sorted(s - {m});
      LeastFirst(s, m, rest);
      [m] + rest
  }

  /** Putting the least element of `s` before an increasing listing of the rest lists `s` increasingly. */
  lemma LeastFirst(s: set<string>, m: string, rest: seq<string>)
    requires m in s && forall x :: x in s && x != m ==> Below(m, x)
    requires Increasing(rest) && |rest| == |s - {m}|
    requires forall x :: x in rest <==> x in s - {m}
    ensures Increasing([m] + rest)
    ensures forall x :: x in [m] + rest <==> x in s
    ensures |[m] + rest| == |s|
  {
    var r := [m] + rest;
    assert forall j :: 1 <= j < |r| ==> r[j] == rest[j - 1];
    assert forall j :: 1 <= j < |r| ==> r[j] in s - {m};
  }

  /** Python's `sorted()` is fully determined: one increasing listing per set. */
  lemma {:induction false} IncreasingUnique(r1: seq<string>, r2: seq<string>)
    requires Increasing(r1) && Increasing(r2)
    requires forall x :: x in r1 <==> x in r2
    ensures r1 == r2
  {
    assert r1 != [] ==> r1[0] in r2;
    assert r2 != [] ==> r2[0] in r1;
    if r1 != [] && r2 != [] {
      assert r1[0] in r2 && r2[0] in r1;
      var j1 :| 0 <= j1 < |r2| && r2[j1] == r1[0];
      var j2 :| 0 <= j2 < |r1| && r1[j2] == r2[0];
      if j1 != 0 && j2 != 0 {
        BelowAsymmetric(r1[0], r2[0]);
      }
      if j1 == 0 {
        BelowIrreflexive(r1[0]);
      } else {
        BelowIrreflexive(r2[0]);
      }
      assert r1[0] == r2[0];
      forall x ensures x in r1[1..] <==> x in r2[1..] {
        BelowIrreflexive(r1[0]);
        if x in r1[1..] {
          var i :| 1 <= i < |r1| && r1[i] == x;
          assert Below(r1[0], x);
          assert x in r2;
        }
        if x in r2[1..] {
          var i :| 1 <= i < |r2| && r2[i] == x;
          assert Below(r2[0], x);
          assert x in r1;
        }
      }
      IncreasingUnique(r1[1..], r2[1..]);
      assert r1 == [r1[0]] + r1[1..] && r2 == [r2[0]] + r2[1..];
    }
  }
}
