/** `build_component_map` of the Radix app (app2.py): the inverted index from a component
    to the characters of the table that contain it, directly or within the depth bound. */
module ComponentIndex {
  import opened Glyphs
  import opened CharTable
  import opened Decompose
  import opened Seqs

  /** What one glyph of a decomposition adds at build time: itself and its own expansion,
      started afresh at depth 0 with an empty path. */
  function Reach(t: CharDecomp, g: char, maxDepth: int): set<char>
  {
    if IsValidChar(g) && g != '?' then {g} + AllComponents(t, g, maxDepth) else {}
  }

  /** What the loop over the glyphs of `d` adds (a left fold over the string). */
  function DirectReach(t: CharDecomp, d: string, maxDepth: int): set<char>
  {
    if d == [] then {} else DirectReach(t, d[..|d| - 1], maxDepth) + Reach(t, d[|d| - 1], maxDepth)
  }

  /** The `components` set under which `c` is filed: `c` itself, and, when its
      decomposition is non-empty and free of '?', what its glyphs reach. */
  function ComponentSet(t: CharDecomp, c: char, maxDepth: int): (r: set<char>)
    ensures c in r
  {
    var d := Decomposition(t, c);
    {c} + (if d != "" && '?' !in d then DirectReach(t, d, maxDepth) else {})
  }

  /** Appends `c` to the bucket of every component in `ks`, creating missing buckets
      (the `defaultdict(list)`). */
  function FileUnder(m: map<char, seq<char>>, ks: set<char>, c: char): map<char, seq<char>>
  {
    map k | k in m.Keys + ks :: (if k in m then m[k] else []) + (if k in ks then [c] else [])
  }

  lemma FileUnderNothing(m: map<char, seq<char>>, c: char)
    ensures FileUnder(m, {}, c) == m
  {
    assert FileUnder(m, {}, c).Keys == m.Keys;
    forall k | k in m ensures FileUnder(m, {}, c)[k] == m[k] {
      assert m[k] + [] == m[k];
    }
  }

  lemma FileUnderStep(m: map<char, seq<char>>, done: set<char>, k: char, c: char)
    requires k !in done
    ensures var f := FileUnder(m, done, c);
      FileUnder(m, done + {k}, c) == f[k := (if k in f then f[k] else []) + [c]]
  {
    var f := FileUnder(m, done, c);
    var g := FileUnder(m, done + {k}, c);
    var h := f[k := (if k in f then f[k] else []) + [c]];
    assert g.Keys == h.Keys;
    forall j | j in g ensures g[j] == h[j] {
      if j == k {
        if k in m { assert f[k] == m[k] + [] == m[k]; }
      }
    }
  }

  /** The index after the characters `cs` have been processed in order. */
  function IndexOf(t: CharDecomp, cs: seq<char>, maxDepth: int): map<char, seq<char>>
  {
    if cs == [] then map[]
    else FileUnder(IndexOf(t, cs[..|cs| - 1], maxDepth), ComponentSet(t, cs[|cs| - 1], maxDepth), cs[|cs| - 1])
  }

  /** The index over the whole table, in its iteration order. */
  function ComponentMap(t: CharDecomp, maxDepth: int): map<char, seq<char>>
  {
    IndexOf(t, t.order, maxDepth)
  }

  /** Whether a character is filed under component `k`. */
  function FiledUnder(t: CharDecomp, k: char, maxDepth: int): char -> bool
  {
    c => k in ComponentSet(t, c, maxDepth)
  }

  /** The characters of `cs`, in order, that are filed under `k`. */
  function BucketOf(t: CharDecomp, cs: seq<char>, k: char, maxDepth: int): seq<char>
  {
    Filter(cs, FiledUnder(t, k, maxDepth))
  }

  /** The part of `build_component_map` that collects the component set of one
      character (the loop over its decomposition). */
  method CollectComponents(t: CharDecomp, ch: char, maxDepth: int) returns (components: set<char>)
    ensures components == ComponentSet(t, ch, maxDepth)
  {
    components := {ch};
    var decomposition := Decomposition(t, ch);
    if decomposition != "" && '?' !in decomposition {
      var j := 0;
      while j < |decomposition|
        invariant 0 <= j <= |decomposition|
        invariant components == {ch} + DirectReach(t, decomposition[..j], maxDepth)
      {
        var comp := decomposition[j];
        assert decomposition[..j + 1][..j] == decomposition[..j];
        if IsValidChar(comp) && comp != '?' {
          components := components + {comp};
          var sub := GetAllComponents(t, comp, maxDepth, 0, {});
          components := components + sub;
        }
        j := j + 1;
      }
      assert decomposition[..j] == decomposition;
    }
  }

  /** The part of `build_component_map` that appends one character to the bucket of each
      of its components. */
  method AppendToBuckets(componentMap: map<char, seq<char>>, components: set<char>, ch: char)
    returns (updated: map<char, seq<char>>)
    ensures updated == FileUnder(componentMap, components, ch)
  {
    updated := componentMap;
    var pending := components;
    FileUnderNothing(componentMap, ch);
    assert components - pending == {};
    while pending != {}
      invariant pending <= components
      invariant updated == FileUnder(componentMap, components - pending, ch)
      decreases pending
    {
      var comp :| comp in pending;
      FileUnderStep(componentMap, components - pending, comp, ch);
      var bucket := if comp in updated then updated[comp] else [];
      updated := updated[comp := bucket + [ch]];
      assert components - (pending - {comp}) == (components - pending) + {comp};
      pending := pending - {comp};
    }
    assert components - pending == components;
  }

  /** `build_component_map`: one pass over the table in its iteration order, filing each
      character under every member of its component set. */
  method BuildComponentMap(t: CharDecomp, maxDepth: int) returns (componentMap: map<char, seq<char>>)
    ensures componentMap == ComponentMap(t, maxDepth)
    ensures forall c :: c in t.entries ==> c in componentMap && c in componentMap[c]
  {
    componentMap := map[];
    var i := 0;
    while i < |t.order|
      invariant 0 <= i <= |t.order|
      invariant componentMap == IndexOf(t, t.order[..i], maxDepth)
    {
      var ch := t.order[i];
      var components := CollectComponents(t, ch, maxDepth);
      componentMap := AppendToBuckets(componentMap, components, ch);
      assert t.order[..i + 1][..i] == t.order[..i];
      i := i + 1;
    }
    assert t.order[..i] == t.order;
    forall c | c in t.entries ensures c in componentMap && c in componentMap[c] {
      SelfInclusion(t, c, maxDepth);
    }
  }

  // ---- Properties of the index ----

  /** The index over `cs` has a bucket for `k` exactly when some character of `cs` is
      filed under `k`, and that bucket lists those characters in the order of `cs`. */
  lemma {:induction false} IndexOfBuckets(t: CharDecomp, cs: seq<char>, k: char, maxDepth: int)
    ensures k in IndexOf(t, cs, maxDepth) <==> BucketOf(t, cs, k, maxDepth) != []
    ensures k in IndexOf(t, cs, maxDepth) ==> IndexOf(t, cs, maxDepth)[k] == BucketOf(t, cs, k, maxDepth)
    decreases |cs|
  {
    if cs != [] {
      var init, last := cs[..|cs| - 1], cs[|cs| - 1];
      IndexOfBuckets(t, init, k, maxDepth);
      assert cs == init + [last];
      FilterSnoc(init, last, FiledUnder(t, k, maxDepth));
    }
  }

  /** Each bucket of the index is exactly the table's characters filed under that
      component, in the table's iteration order; a component has a bucket exactly when
      some character is filed under it. */
  lemma BucketsAreFilters(t: CharDecomp, k: char, maxDepth: int)
    ensures k in ComponentMap(t, maxDepth) <==> exists c :: c in t.entries && k in ComponentSet(t, c, maxDepth)
    ensures k in ComponentMap(t, maxDepth) ==> ComponentMap(t, maxDepth)[k] == BucketOf(t, t.order, k, maxDepth)
  {
    IndexOfBuckets(t, t.order, k, maxDepth);
    var b := BucketOf(t, t.order, k, maxDepth);
    if b != [] {
      assert b[0] in b;
    }
  }

  /** Bucket membership: `c` is in the bucket of `k` exactly when `c` is a key of the
      table whose component set holds `k`. */
  lemma BucketMembership(t: CharDecomp, k: char, c: char, maxDepth: int)
    requires k in ComponentMap(t, maxDepth)
    ensures c in ComponentMap(t, maxDepth)[k] <==> c in t.entries && k in ComponentSet(t, c, maxDepth)
  {
    BucketsAreFilters(t, k, maxDepth);
  }

  /** Every bucket is duplicate-free and ordered as the table is iterated. */
  lemma BucketsOrderedAndDistinct(t: CharDecomp, k: char, maxDepth: int)
    requires k in ComponentMap(t, maxDepth)
    ensures Distinct(ComponentMap(t, maxDepth)[k])
    ensures IsSubseq(ComponentMap(t, maxDepth)[k], t.order)
  {
    BucketsAreFilters(t, k, maxDepth);
    FilterDistinct(t.order, FiledUnder(t, k, maxDepth));
  }

  /** Self-inclusion: every character of the table is in its own bucket. */
  lemma SelfInclusion(t: CharDecomp, c: char, maxDepth: int)
    requires c in t.entries
    ensures c in ComponentMap(t, maxDepth) && c in ComponentMap(t, maxDepth)[c]
  {
    BucketsAreFilters(t, c, maxDepth);
    BucketMembership(t, c, c, maxDepth);
  }

  /** A character whose decomposition is empty or holds '?' is filed only under itself. */
  lemma UnknownFiledOnlyUnderItself(t: CharDecomp, c: char, k: char, maxDepth: int)
    requires Decomposition(t, c) == "" || '?' in Decomposition(t, c)
    requires k in ComponentMap(t, maxDepth) && c in ComponentMap(t, maxDepth)[k]
    ensures k == c
  {
    BucketMembership(t, k, c, maxDepth);
  }

  lemma {:induction false} DirectReachCovers(t: CharDecomp, d: string, i: int, maxDepth: int)
    requires 0 <= i < |d|
    ensures Reach(t, d[i], maxDepth) <= DirectReach(t, d, maxDepth)
    decreases |d|
  {
    if i < |d| - 1 {
      assert d[..|d| - 1][i] == d[i];
      DirectReachCovers(t, d[..|d| - 1], i, maxDepth);
    }
  }

  lemma {:induction false} DirectReachFrom(t: CharDecomp, d: string, k: char, maxDepth: int)
    requires k in DirectReach(t, d, maxDepth)
    ensures exists i :: 0 <= i < |d| && k in Reach(t, d[i], maxDepth)
    decreases |d|
  {
    var last := |d| - 1;
    if k !in Reach(t, d[last], maxDepth) {
      DirectReachFrom(t, d[..last], k, maxDepth);
      var i :| 0 <= i < |d[..last]| && k in Reach(t, d[..last][i], maxDepth);
      assert d[..last][i] == d[i];
    }
  }

  /** The component set, glyph by glyph: `k` is `c` itself, or the decomposition is
      non-empty and free of '?' and `k` is one of its valid glyphs or in the expansion of
      one. */
  lemma ComponentSetMembers(t: CharDecomp, c: char, k: char, maxDepth: int)
    ensures k in ComponentSet(t, c, maxDepth) <==>
      k == c ||
      (Decomposition(t, c) != "" && '?' !in Decomposition(t, c) &&
       exists i :: 0 <= i < |Decomposition(t, c)| && IsValidChar(Decomposition(t, c)[i]) &&
         (k == Decomposition(t, c)[i] || k in AllComponents(t, Decomposition(t, c)[i], maxDepth)))
  {
    var d := Decomposition(t, c);
    if k in ComponentSet(t, c, maxDepth) && k != c {
      DirectReachFrom(t, d, k, maxDepth);
    }
    if d != "" && '?' !in d {
      forall i | 0 <= i < |d| && IsValidChar(d[i]) && (k == d[i] || k in AllComponents(t, d[i], maxDepth))
        ensures k in ComponentSet(t, c, maxDepth)
      {
        assert d[i] != '?';
        DirectReachCovers(t, d, i, maxDepth);
      }
    }
  }

  /** Because each direct glyph is expanded afresh from depth 0, the index reaches one
      level further than `get_all_components` of the character itself: everything in its
      expansion with bound `maxDepth + 1`. */
  lemma IndexReachesExpansion(t: CharDecomp, c: char, maxDepth: int)
    requires Decomposition(t, c) != "" && '?' !in Decomposition(t, c)
    ensures AllComponents(t, c, maxDepth + 1) <= ComponentSet(t, c, maxDepth)
  {
    var d := Decomposition(t, c);
    if IsValidChar(c) && 0 <= maxDepth + 1 {
      assert {} + {c} == {c};
      assert AllComponents(t, c, maxDepth + 1) == ExpandGlyphs(t, d, maxDepth + 1, 0, {c});
      forall x | x in AllComponents(t, c, maxDepth + 1) ensures x in ComponentSet(t, c, maxDepth) {
        ExpandGlyphsFromBranch(t, d, x, maxDepth + 1, 0, {c});
        var i :| 0 <= i < |d| && x in Branch(t, d[i], maxDepth + 1, 0, {c});
        ExpandMonotone(t, d[i], maxDepth + 1, 1, {c}, maxDepth, 0, {});
        DirectReachCovers(t, d, i, maxDepth);
      }
    }
  }

  /** The reach is one level deeper than the bound: on the chain A -> B -> C with bound 0,
      `get_all_components(A, 0)` stops at B, while A is filed under C too. */
  lemma ReachOneLevelDeeper()
    ensures var a, b, c := '\U{4E00}', '\U{4E01}', '\U{4E02}';
      var t: CharDecomp := Table([a, b, c], map[a := NoEntry.(decomposition := [b]), b := NoEntry.(decomposition := [c]), c := NoEntry]);
      AllComponents(t, a, 0) == {b} && ComponentSet(t, a, 0) == {a, b, c}
  {
    var a, b, c := '\U{4E00}', '\U{4E01}', '\U{4E02}';
    var t: CharDecomp := Table([a, b, c], map[a := NoEntry.(decomposition := [b]), b := NoEntry.(decomposition := [c]), c := NoEntry]);
    assert [b][..0] == [] && [c][..0] == [];
    assert Followed(b) && Followed(c);
    assert Decomposition(t, a) == [b] && Decomposition(t, b) == [c];
    assert Expand(t, b, 0, 1, {a}) == {};
    assert Branch(t, b, 0, 0, {a}) == {b};
    assert ExpandGlyphs(t, [b], 0, 0, {} + {a}) == {b};
    assert AllComponents(t, a, 0) == {b};
    assert Expand(t, c, 0, 1, {b}) == {};
    assert Branch(t, c, 0, 0, {b}) == {c};
    assert ExpandGlyphs(t, [c], 0, 0, {} + {b}) == {c};
    assert AllComponents(t, b, 0) == {c};
    assert DirectReach(t, [b], 0) == {b, c};
  }

  /** After the loader's cleaning, a character whose decomposition held '?' expands to
      nothing at any depth and is filed only under itself. */
  lemma UnknownExpandsToNothing(t: CharDecomp, c: char, maxDepth: int, depth: int, seen: set<char>)
    requires c in t.entries && '?' in t.entries[c].decomposition
    ensures Expand(Blanked(t), c, maxDepth, depth, seen) == {}
    ensures ComponentSet(Blanked(t), c, maxDepth) == {c}
  {
  }

  /** The cleaning matters: `get_all_components` alone only skips the '?' glyph, so on
      the raw table a decomposition "?B" still reaches B, and only after blanking it
      reaches nothing. `build_component_map` files A under itself alone either way. */
  lemma BlankingMatters()
    ensures var a, b := '\U{4E00}', '\U{4E01}';
      var t: CharDecomp := Table([a, b], map[a := NoEntry.(decomposition := ['?', b]), b := NoEntry]);
      AllComponents(t, a, 0) == {b} && AllComponents(Blanked(t), a, 0) == {} &&
      ComponentSet(t, a, 0) == {a} && ComponentSet(Blanked(t), a, 0) == {a}
  {
    var a, b := '\U{4E00}', '\U{4E01}';
    var t: CharDecomp := Table([a, b], map[a := NoEntry.(decomposition := ['?', b]), b := NoEntry]);
    assert ['?', b][..1] == ['?'] && ['?'][..0] == [];
    assert Followed(b) && !Followed('?');
    assert Expand(t, b, 0, 1, {a}) == {};
    assert ExpandGlyphs(t, ['?', b], 0, 0, {} + {a}) == {b};
    UnknownExpandsToNothing(t, a, 0, 0, {});
  }
}
