/** `get_all_components` of the Radix app (app2.py): the recursive expansion of a
    character's decomposition into every component reachable within a depth bound.

    The Python function threads a mutable `seen` set, but each recursive call receives a
    copy of it, so the set a call sees is exactly its ancestors on the current path. The
    specification below passes that set by value. */
module Decompose {
  import opened Glyphs
  import opened CharTable

  /** A glyph of a decomposition that the expansion follows: not a structural operator,
      not the unknown marker, and in one of the accepted CJK ranges. */
  predicate Followed(g: char)
  {
    g !in IdcChars && g != '?' && IsValidChar(g)
  }

  /** The set `get_all_components(c, maxDepth, depth, seen)` returns. */
  function Expand(t: CharDecomp, c: char, maxDepth: int, depth: int, seen: set<char>): (r: set<char>)
    ensures forall x :: x in r ==> Followed(x)
    decreases maxDepth + 1 - depth, 1, 0
  {
    if c in seen || depth > maxDepth || !IsValidChar(c) then {}
    else ExpandGlyphs(t, Decomposition(t, c), maxDepth, depth, seen + {c})
  }

  /** What the loop over the glyphs of `d` collects (a left fold over the string). */
  function ExpandGlyphs(t: CharDecomp, d: string, maxDepth: int, depth: int, seen: set<char>): (r: set<char>)
    requires depth <= maxDepth
    ensures forall x :: x in r ==> Followed(x)
    decreases maxDepth + 1 - depth, 0, |d|
  {
    if d == [] then {}
    else ExpandGlyphs(t, d[..|d| - 1], maxDepth, depth, seen) + Branch(t, d[|d| - 1], maxDepth, depth, seen)
  }

  /** What one glyph adds: itself and its own expansion one level deeper, when followed. */
  function Branch(t: CharDecomp, g: char, maxDepth: int, depth: int, seen: set<char>): (r: set<char>)
    requires depth <= maxDepth
    ensures forall x :: x in r ==> Followed(x)
    decreases maxDepth + 1 - depth, 0, 0
  {
    if Followed(g) then {g} + Expand(t, g, maxDepth, depth + 1, seen) else {}
  }

  /** The top-level call `get_all_components(c, max_depth)`. */
  function AllComponents(t: CharDecomp, c: char, maxDepth: int): set<char>
  {
    Expand(t, c, maxDepth, 0, {})
  }

  /** `get_all_components`, the loop and recursion of the source. */
  method GetAllComponents(t: CharDecomp, c: char, maxDepth: int, depth: int, seen: set<char>)
    returns (components: set<char>)
    ensures c in seen || depth > maxDepth || !IsValidChar(c) ==> components == {}
    ensures components == Expand(t, c, maxDepth, depth, seen)
    decreases maxDepth + 1 - depth
  {
    if c in seen || depth > maxDepth || !IsValidChar(c) {
      return {};
    }
    var seen' := seen + {c};
    components := {};
    var decomposition := Decomposition(t, c);
    if decomposition != "" {
      var i := 0;
      while i < |decomposition|
        invariant 0 <= i <= |decomposition|
        invariant components == ExpandGlyphs(t, decomposition[..i], maxDepth, depth, seen')
      {
        var comp := decomposition[i];
        assert decomposition[..i + 1][..i] == decomposition[..i];
        if comp in IdcChars || comp == '?' || !IsValidChar(comp) {
          i := i + 1;
          continue;
        }
        components := components + {comp};
        var sub := GetAllComponents(t, comp, maxDepth, depth + 1, seen');
        components := components + sub;
        i := i + 1;
      }
      assert decomposition[..i] == decomposition;
    }
  }

  // ---- Properties of the expansion ----

  /** Every followed glyph of `d`, with its whole expansion, is part of the fold: one
      sibling's visit never prunes another's, since all receive the same `seen`. */
  lemma {:induction false} ExpandGlyphsCoversBranch(t: CharDecomp, d: string, k: int, maxDepth: int, depth: int, seen: set<char>)
    requires depth <= maxDepth && 0 <= k < |d|
    ensures Branch(t, d[k], maxDepth, depth, seen) <= ExpandGlyphs(t, d, maxDepth, depth, seen)
    decreases |d|
  {
    if k < |d| - 1 {
      assert d[..|d| - 1][k] == d[k];
      ExpandGlyphsCoversBranch(t, d[..|d| - 1], k, maxDepth, depth, seen);
    }
  }

  /** For a valid character not yet on the path and within the bound, every followed
      glyph of its decomposition, and everything reachable from that glyph one level
      deeper, is in the result. */
  lemma ExpandCoversDecomposition(t: CharDecomp, c: char, k: int, maxDepth: int, depth: int, seen: set<char>)
    requires c !in seen && depth <= maxDepth && IsValidChar(c)
    requires 0 <= k < |Decomposition(t, c)| && Followed(Decomposition(t, c)[k])
    ensures Decomposition(t, c)[k] in Expand(t, c, maxDepth, depth, seen)
    ensures Expand(t, Decomposition(t, c)[k], maxDepth, depth + 1, seen + {c}) <= Expand(t, c, maxDepth, depth, seen)
  {
    ExpandGlyphsCoversBranch(t, Decomposition(t, c), k, maxDepth, depth, seen + {c});
  }

  /** Conversely, everything in a fold comes from some glyph's branch. */
  lemma {:induction false} ExpandGlyphsFromBranch(t: CharDecomp, d: string, x: char, maxDepth: int, depth: int, seen: set<char>)
    requires depth <= maxDepth && x in ExpandGlyphs(t, d, maxDepth, depth, seen)
    ensures exists k :: 0 <= k < |d| && x in Branch(t, d[k], maxDepth, depth, seen)
    decreases |d|
  {
    var last := |d| - 1;
    if x in Branch(t, d[last], maxDepth, depth, seen) {
    } else {
      ExpandGlyphsFromBranch(t, d[..last], x, maxDepth, depth, seen);
      var k :| 0 <= k < |d[..last]| && x in Branch(t, d[..last][k], maxDepth, depth, seen);
      assert d[..last][k] == d[k];
    }
  }

  /** The expansion only depends on the remaining depth `maxDepth - depth`, grows with
      it, and shrinks as the path `seen` grows. */
  lemma {:induction false} ExpandMonotone(t: CharDecomp, c: char, m1: int, d1: int, s1: set<char>, m2: int, d2: int, s2: set<char>)
    requires m1 - d1 <= m2 - d2 && s2 <= s1
    ensures Expand(t, c, m1, d1, s1) <= Expand(t, c, m2, d2, s2)
    decreases m1 + 1 - d1, 1, 0
  {
    if !(c in s1 || d1 > m1 || !IsValidChar(c)) {
      ExpandGlyphsMonotone(t, Decomposition(t, c), m1, d1, s1 + {c}, m2, d2, s2 + {c});
    }
  }

  lemma {:induction false} ExpandGlyphsMonotone(t: CharDecomp, d: string, m1: int, d1: int, s1: set<char>, m2: int, d2: int, s2: set<char>)
    requires d1 <= m1 && m1 - d1 <= m2 - d2 && s2 <= s1
    ensures ExpandGlyphs(t, d, m1, d1, s1) <= ExpandGlyphs(t, d, m2, d2, s2)
    decreases m1 + 1 - d1, 0, |d|
  {
    if d != [] {
      ExpandGlyphsMonotone(t, d[..|d| - 1], m1, d1, s1, m2, d2, s2);
      var g := d[|d| - 1];
      if Followed(g) {
        ExpandMonotone(t, g, m1, d1 + 1, s1, m2, d2 + 1, s2);
      }
    }
  }

  /** Monotonicity in the depth bound: a larger `max_depth` never loses a component. */
  lemma AllComponentsMonotone(t: CharDecomp, c: char, d1: int, d2: int)
    requires d1 <= d2
    ensures AllComponents(t, c, d1) <= AllComponents(t, c, d2)
  {
    ExpandMonotone(t, c, d1, 0, {}, d2, 0, {});
  }

  /** With no depth left, the fold is exactly the followed glyphs of the string. */
  lemma {:induction false} ExpandGlyphsLastLevel(t: CharDecomp, d: string, maxDepth: int, seen: set<char>)
    ensures ExpandGlyphs(t, d, maxDepth, maxDepth, seen) == set k | 0 <= k < |d| && Followed(d[k]) :: d[k]
    decreases |d|
  {
    if d != [] {
      var init := d[..|d| - 1];
      ExpandGlyphsLastLevel(t, init, maxDepth, seen);
      var g := d[|d| - 1];
      assert Expand(t, g, maxDepth, maxDepth + 1, seen) == {};
      var whole := set k | 0 <= k < |d| && Followed(d[k]) :: d[k];
      var front := set k | 0 <= k < |init| && Followed(init[k]) :: init[k];
      assert whole == front + (if Followed(g) then {g} else {}) by {
        forall x | x in whole ensures x in front + (if Followed(g) then {g} else {}) {
          var k :| 0 <= k < |d| && Followed(d[k]) && d[k] == x;
          if k < |init| { assert init[k] == d[k]; }
        }
        forall x | x in front ensures x in whole {
          var k :| 0 <= k < |init| && Followed(init[k]) && init[k] == x;
          assert d[k] == init[k];
        }
      }
    }
  }

  /** `get_all_components(c, 0)`: exactly the followed glyphs of the decomposition of a
      valid character, without further recursion. */
  lemma AllComponentsDepthZero(t: CharDecomp, c: char)
    requires IsValidChar(c)
    ensures AllComponents(t, c, 0) == set k | 0 <= k < |Decomposition(t, c)| && Followed(Decomposition(t, c)[k]) :: Decomposition(t, c)[k]
  {
    assert {} + {c} == {c};
    assert AllComponents(t, c, 0) == ExpandGlyphs(t, Decomposition(t, c), 0, 0, {c});
    ExpandGlyphsLastLevel(t, Decomposition(t, c), 0, {c});
  }

  /** On the cycle A -> B -> A the expansion stops: A is reached again as a component of
      B, and is not expanded a second time. */
  lemma CycleExample()
    ensures var a, b := '\U{4E00}', '\U{4E01}';
      var t: CharDecomp := Table([a, b], map[a := CharTable.NoEntry.(decomposition := [b]), b := CharTable.NoEntry.(decomposition := [a])]);
      AllComponents(t, a, 5) == {a, b}
  {
    var a, b := '\U{4E00}', '\U{4E01}';
    var t: CharDecomp := Table([a, b], map[a := CharTable.NoEntry.(decomposition := [b]), b := CharTable.NoEntry.(decomposition := [a])]);
    assert [b][..0] == [] && [a][..0] == [];
    assert Expand(t, a, 5, 2, {a, b}) == {};
    assert ExpandGlyphs(t, [a], 5, 1, {a, b}) == {a};
    assert Expand(t, b, 5, 1, {a}) == {a};
    assert ExpandGlyphs(t, [b], 5, 0, {a}) == {b, a};
  }
}
