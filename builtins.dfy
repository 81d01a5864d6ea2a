/**
 * The JavaScript built-ins the to-do component relies on, modelled on
 * values: `Array.prototype.filter`, `Array.prototype.map`,
 * `Array.prototype.every` and `String.prototype.trim`. Filter, map and every
 * walk their input from the front, as the ECMAScript algorithms do; each
 * built-in carries the contract a caller may rely on.
 */
module Builtins {

  // ---------------------------------------------------------------------
  // Order-preserving selection: an independent characterisation of filter
  // ---------------------------------------------------------------------

  /** `r` can be obtained from `s` by deleting some elements, keeping the
      relative order of the rest. */
  ghost predicate IsSubsequence<T>(r: seq<T>, s: seq<T>)
    decreases |s|
  {
    if r == [] then true
    else if s == [] then false
    else (r[0] == s[0] && IsSubsequence(r[1..], s[1..])) || IsSubsequence(r, s[1..])
  }

  /** `r` is "the elements of `s` that satisfy `p`, in order": a subsequence
      of `s` made only of `p`-elements, holding every `p`-element of `s` as
      often as `s` does. */
  ghost predicate IsFilterOf<T(!new)>(r: seq<T>, s: seq<T>, p: T -> bool)
  {
    && IsSubsequence(r, s)
    && (forall i :: 0 <= i < |r| ==> p(r[i]))
    && (forall x :: multiset(r)[x] == if p(x) then multiset(s)[x] else 0)
  }

  // ---------------------------------------------------------------------
  // Array.prototype.filter
  // ---------------------------------------------------------------------

  /** `s.filter(p)`: the elements of `s` for which `p` holds, in order. */
  function Filter<T(!new)>(s: seq<T>, p: T -> bool): (r: seq<T>)
    ensures |r| <= |s|
    ensures forall i :: 0 <= i < |r| ==> p(r[i])
    ensures forall x :: multiset(r)[x] == if p(x) then multiset(s)[x] else 0
  {
    if s == [] then []
    else
      assert s == [s[0]] + s[1..];
      var rest := Filter(s[1..], p);
      if p(s[0]) then [s[0]] + rest else rest
  }

  /** A subsequence never holds an element more often than the sequence. */
  lemma {:induction false} SubsequenceMultiset<T(!new)>(r: seq<T>, s: seq<T>)
    requires IsSubsequence(r, s)
    ensures multiset(r) <= multiset(s)
    decreases |s|
  {
    if r != [] {
      assert s == [s[0]] + s[1..];
      if r[0] == s[0] && IsSubsequence(r[1..], s[1..]) {
        SubsequenceMultiset(r[1..], s[1..]);
        assert r == [r[0]] + r[1..];
      } else {
        SubsequenceMultiset(r, s[1..]);
      }
    }
  }

  /** `Filter` keeps the relative order of the elements it keeps. */
  lemma {:induction false} FilterIsSubsequence<T(!new)>(s: seq<T>, p: T -> bool)
    ensures IsSubsequence(Filter(s, p), s)
    decreases |s|
  {
    if s != [] {
      FilterIsSubsequence(s[1..], p);
      var r := Filter(s, p);
      if p(s[0]) {
        assert r[0] == s[0] && r[1..] == Filter(s[1..], p);
      } else {
        assert r == Filter(s[1..], p);
      }
    }
  }

  /** `Filter` meets the characterisation... */
  lemma FilterIsFilterOf<T(!new)>(s: seq<T>, p: T -> bool)
    ensures IsFilterOf(Filter(s, p), s, p)
  {
    FilterIsSubsequence(s, p);
  }

  /** ...and is the only sequence that does. */
  lemma {:induction false} FilterOfIsUnique<T(!new)>(r: seq<T>, s: seq<T>, p: T -> bool)
    requires IsFilterOf(r, s, p)
    ensures r == Filter(s, p)
    decreases |s|
  {
    if s == [] {
      if r != [] {
        assert false;
      }
    } else {
      assert s == [s[0]] + s[1..];
      if r == [] {
        if p(s[0]) {
          assert false;
        }
        assert IsFilterOf(r, s[1..], p) by {
          forall x ensures multiset(r)[x] == if p(x) then multiset(s[1..])[x] else 0 {
            if p(x) { assert x != s[0]; }
          }
        }
        FilterOfIsUnique(r, s[1..], p);
      } else if r[0] == s[0] && IsSubsequence(r[1..], s[1..]) {
        assert r == [r[0]] + r[1..];
        assert IsFilterOf(r[1..], s[1..], p) by {
          forall i | 0 <= i < |r[1..]| ensures p(r[1..][i]) {
            assert r[1..][i] == r[i + 1];
          }
        }
        FilterOfIsUnique(r[1..], s[1..], p);
      } else {
        SubsequenceMultiset(r, s[1..]);
        if p(s[0]) {
          assert false;
        }
        assert IsFilterOf(r, s[1..], p) by {
          forall x ensures multiset(r)[x] == if p(x) then multiset(s[1..])[x] else 0 {
            if p(x) { assert x != s[0]; }
          }
        }
        FilterOfIsUnique(r, s[1..], p);
      }
    }
  }

  /** Filtering on a predicate that holds everywhere keeps the whole list. */
  lemma {:induction false} FilterAllPass<T(!new)>(s: seq<T>, p: T -> bool)
    requires forall i :: 0 <= i < |s| ==> p(s[i])
    ensures Filter(s, p) == s
    decreases |s|
  {
    if s != [] {
      assert p(s[0]);
      FilterAllPass(s[1..], p);
      assert s == [s[0]] + s[1..];
    }
  }

  /** Filtering on a predicate that fails everywhere keeps nothing. */
  lemma {:induction false} FilterNonePass<T(!new)>(s: seq<T>, p: T -> bool)
    requires forall i :: 0 <= i < |s| ==> !p(s[i])
    ensures Filter(s, p) == []
    decreases |s|
  {
    if s != [] {
      assert !p(s[0]);
      FilterNonePass(s[1..], p);
    }
  }

  /** Two predicates that agree on the elements of `s` select the same
      elements. */
  lemma {:induction false} FilterAgree<T(!new)>(s: seq<T>, p: T -> bool, q: T -> bool)
    requires forall i :: 0 <= i < |s| ==> p(s[i]) == q(s[i])
    ensures Filter(s, p) == Filter(s, q)
    decreases |s|
  {
    if s != [] {
      assert p(s[0]) == q(s[0]);
      FilterAgree(s[1..], p, q);
    }
  }

  /** A predicate and its negation split `s` between them. */
  lemma {:induction false} FilterSplit<T(!new)>(s: seq<T>, p: T -> bool, q: T -> bool)
    requires forall i :: 0 <= i < |s| ==> q(s[i]) == !p(s[i])
    ensures |Filter(s, p)| + |Filter(s, q)| == |s|
    decreases |s|
  {
    if s != [] {
      assert q(s[0]) == !p(s[0]);
      FilterSplit(s[1..], p, q);
    }
  }

  /** Filtering a second time on the same predicate changes nothing. */
  lemma FilterIdempotent<T(!new)>(s: seq<T>, p: T -> bool)
    ensures Filter(Filter(s, p), p) == Filter(s, p)
  {
    FilterAllPass(Filter(s, p), p);
  }

  /** Every kept element was in the input. */
  lemma FilterMembers<T(!new)>(s: seq<T>, p: T -> bool, x: T)
    ensures x in Filter(s, p) <==> x in s && p(x)
  {
    var r := Filter(s, p);
    assert x in r <==> multiset(r)[x] > 0;
    assert x in s <==> multiset(s)[x] > 0;
  }

  // ---------------------------------------------------------------------
  // Array.prototype.map
  // ---------------------------------------------------------------------

  /** `s.map(f)`: `f` applied to each element, in place of that element. */
  function Map<T, U>(s: seq<T>, f: T -> U): (r: seq<U>)
    ensures |r| == |s|
    ensures forall i :: 0 <= i < |s| ==> r[i] == f(s[i])
  {
    if s == [] then [] else [f(s[0])] + Map(s[1..], f)
  }

  // ---------------------------------------------------------------------
  // Array.prototype.every
  // ---------------------------------------------------------------------

  /** `s.every(p)`: true on the empty sequence. */
  function Every<T>(s: seq<T>, p: T -> bool): (r: bool)
    ensures r <==> forall i :: 0 <= i < |s| ==> p(s[i])
  {
    if s == [] then true else p(s[0]) && Every(s[1..], p)
  }

  // ---------------------------------------------------------------------
  // String.prototype.trim
  // ---------------------------------------------------------------------

  /** The characters `trim` removes: ECMAScript's WhiteSpace (tab, vertical
      tab, form feed, space, no-break space, the byte order mark and the
      other space separators of category Zs) and LineTerminator (line
      feed, carriage return, line and paragraph separators). */
  const WhiteSpace: set<char> := {
    '\t', '\U{000B}', '\U{000C}', ' ', '\U{00A0}', '\U{FEFF}', '\U{1680}',
    '\U{2000}', '\U{2001}', '\U{2002}', '\U{2003}', '\U{2004}', '\U{2005}',
    '\U{2006}', '\U{2007}', '\U{2008}', '\U{2009}', '\U{200A}',
    '\U{202F}', '\U{205F}', '\U{3000}',
    '\n', '\r', '\U{2028}', '\U{2029}'
  }

  /** Every character of `s` is in `ws` (vacuously so for ""). */
  predicate AllIn(s: string, ws: set<char>)
  {
    forall k :: 0 <= k < |s| ==> s[k] in ws
  }

  /** `s` with its leading characters from `ws` removed. */
  function TrimStart(s: string, ws: set<char>): (r: string)
    ensures |r| <= |s| && r == s[|s| - |r|..]
    ensures forall k :: 0 <= k < |s| - |r| ==> s[k] in ws
    ensures r != [] ==> r[0] !in ws
  {
    if s != [] && s[0] in ws then TrimStart(s[1..], ws) else s
  }

  /** `s` with its trailing characters from `ws` removed. */
  function TrimEnd(s: string, ws: set<char>): (r: string)
    ensures |r| <= |s| && r == s[..|r|]
    ensures forall k :: |r| <= k < |s| ==> s[k] in ws
    ensures r != [] ==> r[|r| - 1] !in ws
  {
    if s != [] && s[|s| - 1] in ws then TrimEnd(s[..|s| - 1], ws) else s
  }

  /** `s` with characters from `ws` removed at both ends: a slice of `s`,
      empty exactly when all of `s` is in `ws`, and otherwise starting and
      ending with a character outside `ws`. */
  function TrimBoth(s: string, ws: set<char>): (r: string)
    ensures exists i, j :: 0 <= i <= j <= |s| && r == s[i..j]
                             && (forall k :: 0 <= k < i ==> s[k] in ws)
                             && (forall k :: j <= k < |s| ==> s[k] in ws)
    ensures r == [] <==> AllIn(s, ws)
    ensures r != [] ==> r[0] !in ws && r[|r| - 1] !in ws
  {
    var t := TrimStart(s, ws);
    var u := TrimEnd(t, ws);
    SuffixPrefix(s, t, u, ws);
    TrimEmpty(s, ws);
    u
  }

  /** A prefix `u` of a suffix `t` of `s` is a slice of `s`; what `t` has
      in `ws` after `u`, `s` has there too. */
  lemma SuffixPrefix(s: string, t: string, u: string, ws: set<char>)
    requires |t| <= |s| && t == s[|s| - |t|..]
    requires |u| <= |t| && u == t[..|u|]
    requires forall k :: |u| <= k < |t| ==> t[k] in ws
    ensures u == s[|s| - |t|..|s| - |t| + |u|]
    ensures forall k :: |s| - |t| + |u| <= k < |s| ==> s[k] in ws
  {
    var i := |s| - |t|;
    forall k | i + |u| <= k < |s| ensures s[k] in ws {
      assert s[k] == t[k - i];
    }
  }

  lemma TrimEmpty(s: string, ws: set<char>)
    ensures TrimEnd(TrimStart(s, ws), ws) == [] <==> AllIn(s, ws)
  {
    var t := TrimStart(s, ws);
    var u := TrimEnd(t, ws);
    var i := |s| - |t|;
    if u == [] {
      // a non-empty `t` would start outside `ws` and so survive `TrimEnd`
      assert t == [];
    } else {
      assert u[0] == s[i];
    }
  }

  /** `s.trim()`. */
  function Trim(s: string): (r: string)
    ensures exists i, j :: 0 <= i <= j <= |s| && r == s[i..j]
                             && (forall k :: 0 <= k < i ==> s[k] in WhiteSpace)
                             && (forall k :: j <= k < |s| ==> s[k] in WhiteSpace)
    ensures r == [] <==> AllIn(s, WhiteSpace)
    ensures r != [] ==> r[0] !in WhiteSpace && r[|r| - 1] !in WhiteSpace
  {
    TrimBoth(s, WhiteSpace)
  }
}
