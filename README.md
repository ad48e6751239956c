# Radix and the Character Decomposition Explorer, modelled in Dafny

Two Streamlit apps browse Chinese characters by the components they are built from.

**Radix** (`app2.py`) loads a table of characters. Each entry has a stroke count, an
ideographic-description decomposition string, a radical, a list of compound words, pinyin,
a definition and an etymology. From this table it builds an inverted index from each
component to the characters containing it, and lets the user narrow a component's
characters by IDC (ideographic description character) prefix, radical and phrase length.

**The Explorer** (`app.py`) reads a precomputed map of the same kind. It filters a
component's related characters by an inclusive stroke range, an IDC and phrase length.

The model covers:

- the recursive decomposition expander `get_all_components` (module `Decompose`). It is a
  specification function `Expand` plus a method with the source's loop and recursion,
  proved equal to that function.
- the index builder `build_component_map` (module `ComponentIndex`). It is a method with
  the source's nested loops, proved equal to a specification `ComponentMap`. Lemmas give
  the exact membership, order and self-inclusion of every bucket.
- the glyph classes `IDC_CHARS` and `is_valid_char`, and Python's `str.strip`
  (module `Glyphs`).
- the table lookups and string helpers `get_stroke_count`, `clean_field`,
  `format_decomposition`, `get_etymology_text` and the loader's '?' blanking
  (modules `Common`, `CharTable`).
- Radix's output pipeline in `main` (module `RadixOutput`).
- Radix's session state and its widget callbacks (module `RadixSession`, class `Session`).
- the Explorer's lookups, its two filter loops, `filtered_chars` and
  `update_selected_comp` (module `Explorer`).

Modelling choices:

- **Code points.** In `app2.py` the literal characters of `IDC_CHARS` (line 11), of
  `is_valid_char` (line 154), of the dash and of the start-up configurations appear as
  UTF-8 bytes read as Mac Roman. The model uses the intended code points:
  - IDC characters: U+2FF0..U+2FFB;
  - valid ranges: U+4E00..U+9FFF, U+2E80..U+2EFF, U+3400..U+4DBF and U+20000..U+2A6DF;
  - dash: U+2014;
  - start-up characters: U+722B, U+5FC3, U+2E8C, U+3431, U+8980 and U+8C55.
- **The table.** The table is `Table(order, entries)`: the dictionary's keys in insertion
  order, and a map from each key to its entry. The keys are single characters. The order
  matters, because every bucket of the index lists its characters in that order.
- **`seen` is per path.** `get_all_components` passes `seen.copy()` to every recursive
  call. So the set a call sees is exactly its ancestors on the current path. The model
  passes it by value.
- **'?' in a decomposition.** A decomposition containing '?' is handled in three places:
  - `get_all_components` does not treat it as empty; it only skips the '?' glyph itself;
  - the loader blanks such a decomposition (app2.py:136-143), modelled as
    `CharTable.Blanked`;
  - `build_component_map` files such a character under itself only.

  So it is the loader's step that makes such a decomposition expand to nothing at every
  depth (`ComponentIndex.UnknownExpandsToNothing`); without it the other glyphs are still
  followed (`ComponentIndex.BlankingMatters`).
- **Reach of the index.** `build_component_map` expands each direct glyph from depth 0.
  So the index reaches one level further than `max_depth` from the character itself: it
  holds the whole expansion with bound `max_depth + 1`
  (`ComponentIndex.IndexReachesExpansion`). `ComponentIndex.ReachOneLevelDeeper` shows the
  extra level on a three-character chain.
- **A character inside its own expansion.** A character can be in its own expansion when
  decompositions form a cycle: it is added as a glyph before the `seen` guard rejects it
  (`Decompose.CycleExample`).

## Model

| member | source | states |
|---|---|---|
| Common.CleanField | app.py:69-70 | first element of a non-empty list, a non-empty string unchanged, the dash for null, "" or [] (Radix has the same function at app2.py:159-160) |
| Common.DisplayMode.PhraseLength | app2.py:503 | the leading digit of each phrase mode is 2, 3 or 4 |
| Common.PhraseCompounds | app.py:179-186 | none in single-character mode; otherwise the stored compounds of length N, in stored order, each as many times as it is stored, and no others |
| Glyphs.IdcCharsAreTheBlock | app2.py:11 | `IDC_CHARS` is exactly the twelve characters U+2FF0..U+2FFB |
| Glyphs.IsValidChar | app2.py:153-154 | a character in CJK Unified Ideographs, the Radicals Supplement, Extension A or Extension B |
| Glyphs.IdcNeverValid | app2.py:11 | no IDC character lies in a valid CJK range |
| Glyphs.Strip | app2.py:209 | `strip()` removes a whitespace prefix and suffix and leaves no whitespace at either end |
| Glyphs.StripIdempotent | app2.py:209 | stripping twice equals stripping once |
| Glyphs.StripSurrounded | app2.py:209 | a non-space character with any whitespace on either side strips to that character |
| CharTable.GetStrokeCount | app2.py:156-157 | -1 for a missing character or stroke count, the stored count otherwise |
| CharTable.FormatDecomposition | app2.py:168-175 | the dash for an empty or '?' decomposition, the decomposition otherwise |
| CharTable.GetEtymologyText | app2.py:162-166 | the hint, then "; Details: " and the details exactly when the details are neither empty nor the dash; "No hint available" without an etymology |
| CharTable.Blanked | app2.py:136-143 | loader cleaning: every decomposition with '?' becomes empty, nothing else changes |
| Decompose.Expand | app2.py:177-191 | every component is a valid CJK character, not an IDC and not '?' |
| Decompose.GetAllComponents | app2.py:177-191 | empty when the character is seen, too deep or invalid; otherwise exactly the recursive expansion `Expand` |
| Decompose.ExpandGlyphsCoversBranch | app2.py:184-190 | siblings never prune each other: every glyph's branch is in the result |
| Decompose.ExpandCoversDecomposition | app2.py:184-189 | for an unseen valid character within the bound, every followed glyph and its expansion one level deeper are in the result |
| Decompose.ExpandGlyphsFromBranch | app2.py:184-190 | every component comes from the branch of some glyph of the decomposition |
| Decompose.ExpandMonotone | app2.py:180-190 | the result grows with the remaining depth and shrinks as the path grows |
| Decompose.AllComponentsMonotone | app2.py:177-191 | for d1 <= d2, the components at bound d1 are among those at bound d2 |
| Decompose.AllComponentsDepthZero | app2.py:180-189 | with bound 0, exactly the followed glyphs of the decomposition |
| Decompose.CycleExample | app2.py:180-190 | on the cycle A -> B -> A the expansion terminates with {A, B} |
| ComponentIndex.ComponentSet | app2.py:197-203 | every character is in its own component set |
| ComponentIndex.ComponentSetMembers | app2.py:197-203 | k is in c's set iff k is c, or c's decomposition is non-empty and '?'-free and k is a valid glyph of it or in such a glyph's expansion |
| ComponentIndex.CollectComponents | app2.py:197-203 | the loop collects exactly the component set |
| ComponentIndex.AppendToBuckets | app2.py:204-205 | appends the character to the bucket of each component, creating missing buckets |
| ComponentIndex.BuildComponentMap | app2.py:194-206 | the loop builds exactly the specified index; every table character is in its own bucket |
| ComponentIndex.BucketsAreFilters | app2.py:196-205 | a bucket exists iff some character files under it, and it is the table order filtered by that condition |
| ComponentIndex.BucketMembership | app2.py:196-205 | c is in k's bucket iff c is a table character whose component set holds k |
| ComponentIndex.BucketsOrderedAndDistinct | app2.py:196-205 | each bucket is duplicate-free and a subsequence of the table order |
| ComponentIndex.SelfInclusion | app2.py:197-205 | every table character is in its own bucket |
| ComponentIndex.UnknownFiledOnlyUnderItself | app2.py:197-205 | a character with an empty or '?' decomposition is filed only under itself |
| ComponentIndex.IndexReachesExpansion | app2.py:199-203 | a character is filed under everything in its own `get_all_components` with bound `max_depth + 1` |
| ComponentIndex.ReachOneLevelDeeper | app2.py:200-203 | on A -> B -> C with bound 0, the expansion of A is {B}, but A is filed under C too |
| ComponentIndex.UnknownExpandsToNothing | app2.py:136-143 | after the loader's cleaning, a character whose decomposition held '?' expands to nothing at any depth and is filed only under itself |
| ComponentIndex.BlankingMatters | app2.py:187 | on the raw table the expansion of "?B" still reaches B, since only the '?' glyph is skipped; after cleaning it reaches nothing; the index files the character under itself alone either way |
| RadixOutput.BucketFor | app2.py:494 | a component's bucket, empty for an unknown component |
| RadixOutput.ResultChars | app2.py:494-498 | a subsequence of the bucket holding exactly the table characters that pass the IDC-prefix and radical filters |
| RadixOutput.FilteredChars | app2.py:500-507 | all characters in single mode; otherwise the ordered subsequence of those with compounds of length N, each kept as many times as it occurs |
| RadixOutput.OutputSound | app2.py:494-507 | results are table keys with the chosen IDC prefix and radical, in bucket order; in phrase mode each one's compound list is non-empty and holds its stored compounds of length N, each as many times as it is stored, and no others |
| RadixSession.Session.constructor | app2.py:99-126 | start-up state from the chosen configuration, with no filter set |
| RadixSession.Session.OnTextInputChange | app2.py:208-227 | a stripped single known character becomes the selection, with the old one remembered and page 1; otherwise the text box clears with the matching warning and the selection stays |
| RadixSession.Session.ApplyTextInput | app2.py:211-227 | the same three outcomes, stated for an already stripped text |
| RadixSession.Session.OnSelectboxChange | app2.py:229-233 | the widget has already written the new selection; the previous selection and the text box both take that selection, page is 1, nothing else changes |
| RadixSession.Session.OnOutputCharSelect | app2.py:235-247 | a picked component becomes the selection; the prompt or an unknown pick resets the picker, warning on the latter |
| RadixSession.Session.IsResetNeeded | app2.py:259-266 | some component or output filter differs from its default (stroke count 0, "No Filter") |
| RadixSession.Session.OnResetFilters | app2.py:249-266 | afterwards no reset is needed, page is 1, the text box is empty, selection and mode unchanged |
| RadixSession.TypedCharacterIsSelected | app2.py:208-227 | a table character typed with any whitespace before and after it becomes the selection, the old selection is remembered, page 1 |
| Explorer.GetStrokeCount | app.py:72-73 | -1 when the character, its meta or its strokes is missing, the stored count otherwise |
| Explorer.FilterRelated | app.py:167-177 | an ordered subsequence of the related characters holding exactly those in the inclusive stroke range with the chosen IDC |
| Explorer.CharCompounds | app.py:179-186 | one entry per kept character, holding its stored compounds of length N, or none in single mode |
| Explorer.FilteredChars | app.py:188 | all kept characters in single mode; otherwise the ordered subsequence of those with a non-empty list, each kept as many times as it occurs |
| Explorer.ResultsSound | app.py:167-188 | results keep related order, lie in the stroke range, match the IDC, have length-N compounds, and never have unknown strokes when the lower bound is at least 0 |
| Explorer.Session.constructor | app.py:100-111 | the fixed start-up state |
| Explorer.Session.UpdateSelectedComp | app.py:75-80 | previous selection is the old one, selection and text box are the new one, refresh flag negated, page 1, nothing else changes |
| Explorer.SelectTwice | app.py:75-80 | two updates restore the refresh flag |

## Left out

- CSS generation, page layout, markdown rendering, `render_controls` and
  `render_char_card`. This is presentation only; the selectbox option lists and their
  reset-to-first logic are Streamlit widget plumbing.
- JSON loading and `@st.cache_data`. The loaded table is an input and the cached
  functions are plain functions. Of the loader, only the '?' blanking is modelled.
- `random.choice` of Radix's start-up configuration. The index of the drawn configuration
  is a constructor parameter.
- The clipboard and paste JavaScript, which is browser code.
- The `font_scale` slider, which is floating point.
- The `debug_info` string, and the `diagnostic_messages` entries other than the callbacks'
  warnings. They carry no logic.
- Sorting results by stroke count with `sorted`. This is display order only; the model
  states the unsorted result lists.
- JSON fields of other shapes than null, a string or a list of strings. Also non-integer
  stroke counts, including a `strokes` of null, which Python's `<` would reject.
- Table keys that are longer than one character. The model assumes single code points.
