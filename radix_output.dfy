/** The output characters of the Radix app (app2.py, `main`): the bucket of the selected
    component, narrowed by the result IDC and radical filters, then by the display mode. */
module RadixOutput {
  import opened Common
  import opened Glyphs
  import opened CharTable
  import opened Seqs

  /** `component_map.get(s, [])` for a string of the session state; the map's keys are
      single characters. */
  function BucketFor(componentMap: map<char, seq<char>>, s: string): (b: seq<char>)
    ensures !IsKey(s, componentMap) ==> b == []
    ensures IsKey(s, componentMap) ==> b == componentMap[s[0]]
  {
    if IsKey(s, componentMap) then componentMap[s[0]] else []
  }

  function InTable(t: CharDecomp): char -> bool
  {
    c => c in t.entries
  }

  function HasIdc(t: CharDecomp, idc: string): char -> bool
  {
    c => StartsWith(Decomposition(t, c), idc)
  }

  function HasRadical(t: CharDecomp, radical: string): char -> bool
  {
    c => Lookup(t, c).radical == radical
  }

  /** Whether `c` passes the three comprehensions that build `chars`. */
  predicate PassesOutputFilters(t: CharDecomp, c: char, selectedIdc: string, outputRadical: string)
  {
    c in t.entries &&
    (selectedIdc != NoFilter ==> StartsWith(t.entries[c].decomposition, selectedIdc)) &&
    (outputRadical != NoFilter ==> t.entries[c].radical == outputRadical)
  }

  /** `chars`: the selected component's bucket restricted to table keys, then to the
      chosen IDC prefix and radical when those filters are set. */
  function ResultChars(t: CharDecomp, componentMap: map<char, seq<char>>, selectedComp: string,
                       selectedIdc: string, outputRadical: string): (chars: seq<char>)
    ensures IsSubseq(chars, BucketFor(componentMap, selectedComp))
    ensures forall c :: c in chars <==>
      c in BucketFor(componentMap, selectedComp) && PassesOutputFilters(t, c, selectedIdc, outputRadical)
  {
    var bucket := BucketFor(componentMap, selectedComp);
    var inTable := Filter(bucket, InTable(t));
    var byIdc := if selectedIdc != NoFilter then Filter(inTable, HasIdc(t, selectedIdc)) else inTable;
    var byRadical := if outputRadical != NoFilter then Filter(byIdc, HasRadical(t, outputRadical)) else byIdc;
    IsSubseqRefl(inTable);
    IsSubseqRefl(byIdc);
    IsSubseqTrans(byIdc, inTable, bucket);
    IsSubseqTrans(byRadical, byIdc, bucket);
    byRadical
  }

  /** `char_compounds[c]`: the compounds shown for `c` in the given display mode. */
  function CompoundsFor(t: CharDecomp, c: char, mode: DisplayMode): seq<string>
  {
    PhraseCompounds(Lookup(t, c).compounds, mode)
  }

  function HasCompounds(t: CharDecomp, mode: DisplayMode): char -> bool
  {
    c => CompoundsFor(t, c, mode) != []
  }

  /** `filtered_chars`: all of `chars` in single-character mode, otherwise those with at
      least one compound of the chosen length. */
  function FilteredChars(t: CharDecomp, chars: seq<char>, mode: DisplayMode): (r: seq<char>)
    ensures mode.SingleCharacter? ==> r == chars
    ensures IsSubseq(r, chars)
    ensures !mode.SingleCharacter? ==> forall c :: c in r <==> c in chars && CompoundsFor(t, c, mode) != []
    ensures !mode.SingleCharacter? ==>
      forall c :: multiset(r)[c] == if CompoundsFor(t, c, mode) != [] then multiset(chars)[c] else 0
  {
    IsSubseqRefl(chars);
    FilterCounts(chars, HasCompounds(t, mode));
    if mode.SingleCharacter? then chars else Filter(chars, HasCompounds(t, mode))
  }

  /** Soundness of the whole output pipeline: every result is a key of the table that
      starts with the chosen IDC and has the chosen radical; in phrase mode its compound
      list is exactly its stored compounds of the chosen length and is non-empty; and the
      results keep the order of the selected component's bucket. */
  lemma OutputSound(t: CharDecomp, componentMap: map<char, seq<char>>, selectedComp: string,
                    selectedIdc: string, outputRadical: string, mode: DisplayMode)
    ensures var r := FilteredChars(t, ResultChars(t, componentMap, selectedComp, selectedIdc, outputRadical), mode);
      IsSubseq(r, BucketFor(componentMap, selectedComp)) &&
      forall c :: c in r ==>
        c in t.entries &&
        (selectedIdc != NoFilter ==> StartsWith(t.entries[c].decomposition, selectedIdc)) &&
        (outputRadical != NoFilter ==> t.entries[c].radical == outputRadical) &&
        (!mode.SingleCharacter? ==>
          CompoundsFor(t, c, mode) != [] &&
          (forall w :: w in CompoundsFor(t, c, mode) <==> w in t.entries[c].compounds && |w| == mode.PhraseLength()) &&
          forall w :: multiset(CompoundsFor(t, c, mode))[w] ==
            if |w| == mode.PhraseLength() then multiset(t.entries[c].compounds)[w] else 0)
  {
    var chars := ResultChars(t, componentMap, selectedComp, selectedIdc, outputRadical);
    var r := FilteredChars(t, chars, mode);
    IsSubseqTrans(r, chars, BucketFor(componentMap, selectedComp));
  }
}
