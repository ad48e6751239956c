/** The Character Decomposition Explorer (app.py): lookups into its precomputed component
    map, the related-character filter of `main`, and the selection callback. */
module Explorer {
  import opened Common
  import opened Seqs

  /** The "meta" object of a record. An absent "IDC" reads as "" and an absent
      "compounds" as [], as every lookup of them defaults so. */
  datatype Meta = Meta(strokes: Option<int>, idc: string, compounds: seq<string>)

  /** One record of the component map: its metadata and the characters containing it. */
  datatype ComponentRecord = ComponentRecord(meta: Option<Meta>, relatedCharacters: seq<string>)

  type ComponentMap = map<string, ComponentRecord>

  /** `component_map.get(c, {}).get("meta", {})` */
  function MetaOf(cm: ComponentMap, c: string): Option<Meta>
  {
    if c in cm then cm[c].meta else None
  }

  /** `get_stroke_count`, and the `m.get("strokes", -1)` of the filter: -1 when the
      character, its metadata or its stroke count is missing. */
  function GetStrokeCount(cm: ComponentMap, c: string): (n: int)
    ensures c !in cm || cm[c].meta.None? || cm[c].meta.value.strokes.None? ==> n == -1
    ensures c in cm && cm[c].meta.Some? && cm[c].meta.value.strokes.Some? ==> n == cm[c].meta.value.strokes.value
  {
    match MetaOf(cm, c)
    case None => -1
    case Some(m) => GetOr(m.strokes, -1)
  }

  /** `m.get("IDC", "")` */
  function IdcOf(cm: ComponentMap, c: string): string
  {
    match MetaOf(cm, c)
    case None => ""
    case Some(m) => m.idc
  }

  /** `component_map.get(c, {}).get("meta", {}).get("compounds", [])` */
  function StoredCompounds(cm: ComponentMap, c: string): seq<string>
  {
    match MetaOf(cm, c)
    case None => []
    case Some(m) => m.compounds
  }

  /** `component_map.get(selected, {}).get("related_characters", [])` */
  function RelatedCharacters(cm: ComponentMap, selected: string): seq<string>
  {
    if selected in cm then cm[selected].relatedCharacters else []
  }

  /** Whether the loop body at lines 171-177 keeps `c`: its stroke count lies in the
      inclusive range, and its IDC equals the chosen one when that filter is set. */
  predicate Kept(cm: ComponentMap, c: string, minS: int, maxS: int, selectedIdc: string)
  {
    minS <= GetStrokeCount(cm, c) <= maxS &&
    (selectedIdc != NoFilter ==> IdcOf(cm, c) == selectedIdc)
  }

  function KeepRelated(cm: ComponentMap, minS: int, maxS: int, selectedIdc: string): string -> bool
  {
    c => Kept(cm, c, minS, maxS, selectedIdc)
  }

  /** The loop building `filtered` from the related characters. */
  method FilterRelated(cm: ComponentMap, related: seq<string>, minS: int, maxS: int, selectedIdc: string)
    returns (filtered: seq<string>)
    ensures filtered == Filter(related, KeepRelated(cm, minS, maxS, selectedIdc))
    ensures IsSubseq(filtered, related)
    ensures forall c :: c in filtered ==> minS <= GetStrokeCount(cm, c) <= maxS
    ensures forall c :: c in filtered && selectedIdc != NoFilter ==> IdcOf(cm, c) == selectedIdc
    ensures forall c :: c in related && Kept(cm, c, minS, maxS, selectedIdc) ==> c in filtered
  {
    filtered := [];
    var i := 0;
    while i < |related|
      invariant 0 <= i <= |related|
      invariant filtered == Filter(related[..i], KeepRelated(cm, minS, maxS, selectedIdc))
    {
      var c := related[i];
      FilterSnoc(related[..i], c, KeepRelated(cm, minS, maxS, selectedIdc));
      assert related[..i + 1] == related[..i] + [c];
      i := i + 1;
      var strokes := GetStrokeCount(cm, c);
      if strokes < minS || strokes > maxS {
        continue;
      }
      if selectedIdc != NoFilter && IdcOf(cm, c) != selectedIdc {
        continue;
      }
      filtered := filtered + [c];
    }
    assert related[..i] == related;
  }

  /** The loop filling `char_compounds`: one entry per kept character. */
  method CharCompounds(cm: ComponentMap, filtered: seq<string>, mode: DisplayMode)
    returns (charCompounds: map<string, seq<string>>)
    ensures charCompounds.Keys == set c | c in filtered
    ensures forall c :: c in charCompounds ==> charCompounds[c] == PhraseCompounds(StoredCompounds(cm, c), mode)
  {
    charCompounds := map[];
    var i := 0;
    while i < |filtered|
      invariant 0 <= i <= |filtered|
      invariant charCompounds.Keys == set c | c in filtered[..i]
      invariant forall c :: c in charCompounds ==> charCompounds[c] == PhraseCompounds(StoredCompounds(cm, c), mode)
    {
      var c := filtered[i];
      var compounds := StoredCompounds(cm, c);
      if mode.SingleCharacter? {
        charCompounds := charCompounds[c := []];
      } else {
        var length := mode.PhraseLength();
        charCompounds := charCompounds[c := Filter(compounds, OfLength(length))];
      }
      assert filtered[..i + 1] == filtered[..i] + [c];
      i := i + 1;
    }
    assert filtered[..i] == filtered;
  }

  function ShownIn(charCompounds: map<string, seq<string>>, mode: DisplayMode): string -> bool
  {
    c => (c in charCompounds && charCompounds[c] != []) || mode.SingleCharacter?
  }

  /** `filtered_chars`: every kept character in single-character mode, otherwise those
      with a non-empty compound list. */
  function FilteredChars(filtered: seq<string>, charCompounds: map<string, seq<string>>, mode: DisplayMode)
    : (r: seq<string>)
    requires forall c :: c in filtered ==> c in charCompounds
    ensures mode.SingleCharacter? ==> r == filtered
    ensures IsSubseq(r, filtered)
    ensures !mode.SingleCharacter? ==> forall c :: c in r <==> c in filtered && charCompounds[c] != []
    ensures !mode.SingleCharacter? ==>
      forall c :: multiset(r)[c] == if c in filtered && charCompounds[c] != [] then multiset(filtered)[c] else 0
  {
    var r := Filter(filtered, ShownIn(charCompounds, mode));
    FilterCounts(filtered, ShownIn(charCompounds, mode));
    if mode.SingleCharacter? then FilterAll(filtered, ShownIn(charCompounds, mode)); r else r
  }

  /** The results of `main` end to end: they keep the order of the related characters,
      lie in the inclusive stroke range, match the IDC filter, and in phrase mode have
      compounds of the chosen length; with the slider's lower bound at 0, no character of
      unknown stroke count is ever shown. */
  lemma ResultsSound(cm: ComponentMap, selected: string, minS: int, maxS: int, selectedIdc: string, mode: DisplayMode)
    requires 0 <= minS
    ensures var filtered := Filter(RelatedCharacters(cm, selected), KeepRelated(cm, minS, maxS, selectedIdc));
      var charCompounds := map c | c in filtered :: PhraseCompounds(StoredCompounds(cm, c), mode);
      var r := FilteredChars(filtered, charCompounds, mode);
      IsSubseq(r, RelatedCharacters(cm, selected)) &&
      forall c :: c in r ==>
        GetStrokeCount(cm, c) != -1 && minS <= GetStrokeCount(cm, c) <= maxS &&
        (selectedIdc != NoFilter ==> IdcOf(cm, c) == selectedIdc) &&
        (!mode.SingleCharacter? ==> PhraseCompounds(StoredCompounds(cm, c), mode) != [])
  {
    var related := RelatedCharacters(cm, selected);
    var filtered := Filter(related, KeepRelated(cm, minS, maxS, selectedIdc));
    var charCompounds := map c | c in filtered :: PhraseCompounds(StoredCompounds(cm, c), mode);
    var r := FilteredChars(filtered, charCompounds, mode);
    IsSubseqTrans(r, filtered, related);
  }

  /** The session state of the Explorer. */
  class Session {
    var selectedComp: string
    var previousSelectedComp: string
    var maxDepth: int
    var minStrokes: int
    var maxStrokes: int
    var displayMode: DisplayMode
    var selectedIdc: string
    var textInputComp: string
    var page: int
    var resultsPerPage: int
    var idcRefresh: bool

    /** `init_session_state` on a fresh session. */
    constructor ()
      ensures selectedComp == "\U{5FC3}" && previousSelectedComp == selectedComp && textInputComp == selectedComp
      ensures maxDepth == 3 && minStrokes == 4 && maxStrokes == 14
      ensures displayMode == SingleCharacter && selectedIdc == NoFilter
      ensures page == 1 && resultsPerPage == 50 && !idcRefresh
    {
      selectedComp := "\U{5FC3}";
      previousSelectedComp := "\U{5FC3}";
      maxDepth := 3;
      minStrokes, maxStrokes := 4, 14;
      displayMode := SingleCharacter;
      selectedIdc := NoFilter;
      textInputComp := "\U{5FC3}";
      page := 1;
      resultsPerPage := 50;
      idcRefresh := false;
    }

    /** `update_selected_comp`: the new component becomes the selection and the text box
        value, the old one is remembered, the IDC refresh flag flips and paging restarts. */
    method UpdateSelectedComp(newComp: string)
      modifies this
      ensures previousSelectedComp == old(selectedComp)
      ensures selectedComp == newComp && textInputComp == newComp
      ensures idcRefresh == !old(idcRefresh) && page == 1
      ensures maxDepth == old(maxDepth) && minStrokes == old(minStrokes) && maxStrokes == old(maxStrokes)
      ensures displayMode == old(displayMode) && selectedIdc == old(selectedIdc)
      ensures resultsPerPage == old(resultsPerPage)
    {
      previousSelectedComp := selectedComp;
      selectedComp := newComp;
      textInputComp := newComp;
      idcRefresh := !idcRefresh;
      page := 1;
    }
  }

  /** Two selections in a row restore the refresh flag and remember the first one. */
  method SelectTwice(s: Session, first: string, second: string)
    modifies s
    ensures s.idcRefresh == old(s.idcRefresh)
    ensures s.selectedComp == second && s.previousSelectedComp == first
  {
    s.UpdateSelectedComp(first);
    s.UpdateSelectedComp(second);
  }
}
