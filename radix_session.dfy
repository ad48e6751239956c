/** The session state of the Radix app (app2.py) and the widget callbacks that change it.
    Streamlit's `st.session_state` is modelled as one object; the developer-only
    `debug_info` string and `font_scale` are not modelled, and of `diagnostic_messages`
    only the warnings the callbacks add are kept. */
module RadixSession {
  import opened Common
  import opened Glyphs
  import opened CharTable

  const SelectPrompt: string := "Select a character..."
  const OneCharacterWarning: string := "Please enter exactly one character."
  const InvalidComponentWarning: string := "Invalid character. Please enter a valid component."
  const InvalidSelectionWarning: string := "Invalid character selected."

  /** One of the start-up configurations `init_session_state` picks from. */
  datatype Config = Config(
    selectedComp: string, strokeCount: int, radical: string, selectedIdc: string,
    componentIdc: string, outputRadical: string, displayMode: DisplayMode)

  const Configs: seq<Config> := [
    Config("\U{722B}", 0, NoFilter, NoFilter, NoFilter, NoFilter, SingleCharacter),
    Config("\U{5FC3}", 0, NoFilter, NoFilter, NoFilter, NoFilter, FourCharacterPhrases),
    Config("\U{2E8C}", 0, NoFilter, NoFilter, NoFilter, NoFilter, SingleCharacter),
    Config("\U{3431}", 0, NoFilter, NoFilter, NoFilter, NoFilter, TwoCharacterPhrases),
    Config("\U{8980}", 0, NoFilter, NoFilter, NoFilter, NoFilter, TwoCharacterPhrases),
    Config("\U{8C55}", 0, NoFilter, NoFilter, NoFilter, NoFilter, TwoCharacterPhrases)
  ]

  /** Whether `on_text_input_change` accepts the stripped text: one character that is a
      component of the index or a character of the table. */
  predicate Accepted(text: string, t: CharDecomp, componentMap: map<char, seq<char>>)
  {
    IsKey(text, componentMap) || IsKey(text, t.entries)
  }

  class Session {
    var selectedComp: string
    var strokeCount: int
    var radical: string
    var displayMode: DisplayMode
    var selectedIdc: string
    var componentIdc: string
    var outputRadical: string
    var textInputComp: string
    var page: int
    var resultsPerPage: int
    var previousSelectedComp: string
    var outputCharSelect: string
    var warnings: seq<string>

    /** `init_session_state` on a fresh session; `choice` is the index `random.choice`
        drew from the configurations. */
    constructor (choice: nat)
      requires choice < |Configs|
      ensures selectedComp == Configs[choice].selectedComp
      ensures textInputComp == selectedComp && previousSelectedComp == selectedComp
      ensures displayMode == Configs[choice].displayMode
      ensures strokeCount == 0 && radical == NoFilter && selectedIdc == NoFilter
      ensures componentIdc == NoFilter && outputRadical == NoFilter
      ensures page == 1 && resultsPerPage == 50
      ensures outputCharSelect == SelectPrompt && warnings == []
      ensures !IsResetNeeded()
    {
      var config := Configs[choice];
      selectedComp := config.selectedComp;
      strokeCount := config.strokeCount;
      radical := config.radical;
      displayMode := config.displayMode;
      selectedIdc := config.selectedIdc;
      componentIdc := config.componentIdc;
      outputRadical := config.outputRadical;
      textInputComp := config.selectedComp;
      page := 1;
      resultsPerPage := 50;
      previousSelectedComp := config.selectedComp;
      outputCharSelect := SelectPrompt;
      warnings := [];
    }

    /** `is_reset_needed`: some component or output filter is set. */
    predicate IsResetNeeded()
      reads this
    {
      strokeCount != 0 || radical != NoFilter || componentIdc != NoFilter ||
      selectedIdc != NoFilter || outputRadical != NoFilter
    }

    /** `on_text_input_change`: a stripped single character known to the index or the
        table becomes the selection; anything else clears the text box and warns. */
    method OnTextInputChange(t: CharDecomp, componentMap: map<char, seq<char>>)
      modifies this
      ensures |Strip(old(textInputComp))| != 1 ==>
        textInputComp == "" && selectedComp == old(selectedComp) &&
        previousSelectedComp == old(previousSelectedComp) && page == old(page) &&
        warnings == old(warnings) + [OneCharacterWarning]
      ensures Accepted(Strip(old(textInputComp)), t, componentMap) ==>
        previousSelectedComp == old(selectedComp) && selectedComp == Strip(old(textInputComp)) &&
        textInputComp == selectedComp && page == 1 && warnings == old(warnings)
      ensures |Strip(old(textInputComp))| == 1 && !Accepted(Strip(old(textInputComp)), t, componentMap) ==>
        textInputComp == "" && selectedComp == old(selectedComp) &&
        previousSelectedComp == old(previousSelectedComp) && page == old(page) &&
        warnings == old(warnings) + [InvalidComponentWarning]
      ensures strokeCount == old(strokeCount) && radical == old(radical) && displayMode == old(displayMode)
      ensures selectedIdc == old(selectedIdc) && componentIdc == old(componentIdc) && outputRadical == old(outputRadical)
      ensures resultsPerPage == old(resultsPerPage) && outputCharSelect == old(outputCharSelect)
    {
      var textValue := Strip(textInputComp);
      ApplyTextInput(textValue, t, componentMap);
    }

    /** The body of `on_text_input_change` once the text box value has been stripped. */
    method ApplyTextInput(textValue: string, t: CharDecomp, componentMap: map<char, seq<char>>)
      modifies this
      ensures |textValue| != 1 ==>
        textInputComp == "" && selectedComp == old(selectedComp) &&
        previousSelectedComp == old(previousSelectedComp) && page == old(page) &&
        warnings == old(warnings) + [OneCharacterWarning]
      ensures Accepted(textValue, t, componentMap) ==>
        previousSelectedComp == old(selectedComp) && selectedComp == textValue &&
        textInputComp == textValue && page == 1 && warnings == old(warnings)
      ensures |textValue| == 1 && !Accepted(textValue, t, componentMap) ==>
        textInputComp == "" && selectedComp == old(selectedComp) &&
        previousSelectedComp == old(previousSelectedComp) && page == old(page) &&
        warnings == old(warnings) + [InvalidComponentWarning]
      ensures strokeCount == old(strokeCount) && radical == old(radical) && displayMode == old(displayMode)
      ensures selectedIdc == old(selectedIdc) && componentIdc == old(componentIdc) && outputRadical == old(outputRadical)
      ensures resultsPerPage == old(resultsPerPage) && outputCharSelect == old(outputCharSelect)
    {
      if |textValue| != 1 {
        warnings := warnings + [OneCharacterWarning];
        textInputComp := "";
        return;
      }
      if textValue[0] in componentMap || textValue[0] in t.entries {
        previousSelectedComp := selectedComp;
        selectedComp := textValue;
        textInputComp := textValue;
        page := 1;
      } else {
        warnings := warnings + [InvalidComponentWarning];
        textInputComp := "";
      }
    }

    /** `on_selectbox_change`: the selectbox has already written `selected_comp`; the
        text box follows it and paging restarts. */
    method OnSelectboxChange()
      modifies this
      ensures previousSelectedComp == old(selectedComp) && selectedComp == old(selectedComp)
      ensures textInputComp == selectedComp && page == 1
      ensures strokeCount == old(strokeCount) && radical == old(radical) && displayMode == old(displayMode)
      ensures selectedIdc == old(selectedIdc) && componentIdc == old(componentIdc) && outputRadical == old(outputRadical)
      ensures resultsPerPage == old(resultsPerPage) && outputCharSelect == old(outputCharSelect)
      ensures warnings == old(warnings)
    {
      previousSelectedComp := selectedComp;
      textInputComp := selectedComp;
      page := 1;
    }

    /** `on_output_char_select`: a picked result that is a component becomes the
        selection; the prompt or an unknown pick resets the list (warning on the latter). */
    method OnOutputCharSelect(componentMap: map<char, seq<char>>)
      modifies this
      ensures var picked := old(outputCharSelect);
        if picked == SelectPrompt || !IsKey(picked, componentMap) then
          outputCharSelect == SelectPrompt && selectedComp == old(selectedComp) &&
          previousSelectedComp == old(previousSelectedComp) && textInputComp == old(textInputComp) &&
          page == old(page) &&
          warnings == old(warnings) + (if picked != SelectPrompt then [InvalidSelectionWarning] else [])
        else
          previousSelectedComp == old(selectedComp) && selectedComp == picked &&
          textInputComp == picked && page == 1 && outputCharSelect == picked && warnings == old(warnings)
      ensures strokeCount == old(strokeCount) && radical == old(radical) && displayMode == old(displayMode)
      ensures selectedIdc == old(selectedIdc) && componentIdc == old(componentIdc) && outputRadical == old(outputRadical)
      ensures resultsPerPage == old(resultsPerPage)
    {
      var selectedChar := outputCharSelect;
      if selectedChar == SelectPrompt || !IsKey(selectedChar, componentMap) {
        if selectedChar != SelectPrompt {
          warnings := warnings + [InvalidSelectionWarning];
        }
        outputCharSelect := SelectPrompt;
        return;
      }
      previousSelectedComp := selectedComp;
      selectedComp := selectedChar;
      textInputComp := selectedChar;
      page := 1;
    }

    /** `on_reset_filters`: clears every filter and the text box; the selection and the
        display mode stay. */
    method OnResetFilters()
      modifies this
      ensures !IsResetNeeded()
      ensures strokeCount == 0 && radical == NoFilter && componentIdc == NoFilter
      ensures selectedIdc == NoFilter && outputRadical == NoFilter
      ensures textInputComp == "" && page == 1
      ensures selectedComp == old(selectedComp) && displayMode == old(displayMode)
      ensures previousSelectedComp == old(previousSelectedComp) && resultsPerPage == old(resultsPerPage)
      ensures outputCharSelect == old(outputCharSelect) && warnings == old(warnings)
    {
      strokeCount := 0;
      radical := NoFilter;
      componentIdc := NoFilter;
      selectedIdc := NoFilter;
      outputRadical := NoFilter;
      textInputComp := "";
      page := 1;
    }
  }

  /** A table character typed with any whitespace around it is selected. */
  method TypedCharacterIsSelected(s: Session, t: CharDecomp, componentMap: map<char, seq<char>>,
                                  pre: string, c: char, post: string)
    requires c in t.entries && !IsSpace(c) && AllSpace(pre) && AllSpace(post)
    modifies s
    ensures s.selectedComp == [c] && s.previousSelectedComp == old(s.selectedComp) && s.page == 1
  {
    s.textInputComp := pre + [c] + post;
    StripSurrounded(pre, c, post);
    s.OnTextInputChange(t, componentMap);
  }
}
