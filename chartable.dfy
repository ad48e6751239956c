/** The character table of the Radix app (app2.py): `char_decomp`, a dictionary from
    each character to its record, and the small lookups over it. */
module CharTable {
  import opened Common
  import opened Glyphs

  /** The "etymology" object of a record. */
  datatype Etymology = Etymology(hint: Option<Field>, details: Option<Field>)

  /** One record of the table. An absent "decomposition" or "radical" reads as "" and
      an absent "compounds" as [], as every lookup of them defaults so. */
  datatype Entry = Entry(
    strokes: Option<int>,
    decomposition: string,
    radical: string,
    compounds: seq<string>,
    pinyin: Option<Field>,
    definition: Option<Field>,
    etymology: Option<Etymology>)

  /** What `char_decomp.get(c, {})` gives for a character that is not in the table. */
  const NoEntry: Entry := Entry(None, "", "", [], None, None, None)

  /** The dictionary: its keys in insertion order, and the records. */
  datatype Table = Table(order: seq<char>, entries: map<char, Entry>)
  {
    predicate Valid()
    {
      (forall i, j :: 0 <= i < j < |order| ==> order[i] != order[j]) &&
      (forall c :: c in entries <==> c in order)
    }
  }

  type CharDecomp = t: Table | t.Valid() witness Table([], map[])

  function Lookup(t: CharDecomp, c: char): (e: Entry)
    ensures c !in t.entries ==> e == NoEntry
  {
    if c in t.entries then t.entries[c] else NoEntry
  }

  /** `char_decomp.get(c, {}).get("decomposition", "")` */
  function Decomposition(t: CharDecomp, c: char): string
  {
    Lookup(t, c).decomposition
  }

  /** `get_stroke_count`: the stored stroke count, or -1 when the character or its count
      is missing. */
  function GetStrokeCount(t: CharDecomp, c: char): (n: int)
    ensures c !in t.entries || t.entries[c].strokes.None? ==> n == -1
    ensures c in t.entries && t.entries[c].strokes.Some? ==> n == t.entries[c].strokes.value
  {
    GetOr(Lookup(t, c).strokes, -1)
  }

  /** `format_decomposition`: the dash for an empty or unknown ('?') decomposition, the
      decomposition itself otherwise (with or without a leading operator). */
  function FormatDecomposition(t: CharDecomp, c: char): (r: string)
    ensures Decomposition(t, c) == "" || '?' in Decomposition(t, c) ==> r == Dash
    ensures Decomposition(t, c) != "" && '?' !in Decomposition(t, c) ==> r == Decomposition(t, c)
  {
    var d := Decomposition(t, c);
    if d == [] || '?' in d then Dash
    else if d[0] !in IdcChars then d
    else d
  }

  function HintText(e: Entry): string
  {
    var ety := GetOr(e.etymology, Etymology(None, None));
    CleanField(GetOr(ety.hint, Text("No hint available")))
  }

  function DetailsText(e: Entry): string
  {
    var ety := GetOr(e.etymology, Etymology(None, None));
    CleanField(GetOr(ety.details, Text("")))
  }

  /** `get_etymology_text`: the cleaned hint, followed by "; Details: " and the cleaned
      details when these say something (neither empty nor the dash). */
  function GetEtymologyText(e: Entry): (r: string)
    ensures HintText(e) <= r
    ensures |r| > |HintText(e)| <==> DetailsText(e) != "" && DetailsText(e) != Dash
    ensures |r| > |HintText(e)| ==> r[|HintText(e)|..] == "; Details: " + DetailsText(e)
    ensures e.etymology.None? ==> r == "No hint available"
  {
    var hint := HintText(e);
    var details := DetailsText(e);
    hint + (if details != "" && details != Dash then "; Details: " + details else "")
  }

  /** The loader's cleaning step: a decomposition holding the unknown marker '?' is
      replaced by the empty string; nothing else changes. */
  function Blanked(t: CharDecomp): (b: CharDecomp)
    ensures b.order == t.order && b.entries.Keys == t.entries.Keys
    ensures forall c :: c in b.entries ==> '?' !in b.entries[c].decomposition
    ensures forall c :: c in t.entries ==>
      b.entries[c] == (if '?' in t.entries[c].decomposition then t.entries[c].(decomposition := "") else t.entries[c])
  {
    var entries := map c | c in t.entries ::
      if '?' in t.entries[c].decomposition then t.entries[c].(decomposition := "") else t.entries[c];
    assert entries.Keys == t.entries.Keys;
    Table(t.order, entries)
  }
}
