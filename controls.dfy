/** `src/Controls.tsx`: the version combobox. Its state is the selected
    version (held by the page and set through `setSelectedVersion`), the text
    of the input, whether the list of options is open, and the index of the
    highlighted option (-1 for none). Each event handler is one step on that
    state; the options are `["all", ...versions]` (lines 4-7). Rendering,
    `preventDefault` and the DOM listener set up at lines 125-137 are not
    modelled; a click outside the box is the step `ClickOutside`. */
module Controls {
  import opened Text

  datatype ComboState = ComboState(selected: string, input: string, open: bool, active: int)

  /** What an option shows: `version === "all" ? "All Versions" : version`. */
  function DisplayValue(version: string): string
  {
    if version == "all" then "All Versions" else version
  }

  /** `value.toLowerCase().trim()` */
  function Normalize(value: string): string
  {
    JsTrim(ToLower(value))
  }

  /** `handleVersionSelect(version)` (lines 140-145). */
  function SelectStep(s: ComboState, version: string): ComboState
  {
    ComboState(version, DisplayValue(version), false, -1)
  }

  /** The version a typed text selects (lines 155-163): "all" for "all" and
      "all versions", the normalised text when it is listed, and otherwise
      the normalised text all the same, or "all" when it is empty. */
  function TypedSelection(value: string, options: seq<string>): string
  {
    var n := Normalize(value);
    if n == "all versions" || n == "all" then "all"
    else if n in options then n
    else if n != "" then n else "all"
  }

  /** `handleVersionInputChange` (lines 148-164). */
  function InputStep(s: ComboState, value: string, options: seq<string>): ComboState
  {
    ComboState(TypedSelection(value, options), value, true, -1)
  }

  /** `handleVersionKeyDown` (lines 167-213). */
  function KeyStep(s: ComboState, key: string, options: seq<string>): ComboState
  {
    if !s.open && (key == "ArrowDown" || key == "ArrowUp") then s.(open := true, active := 0)
    else if !s.open then s
    else if key == "ArrowDown" then s.(active := if s.active < |options| - 1 then s.active + 1 else s.active)
    else if key == "ArrowUp" then s.(active := if s.active > 0 then s.active - 1 else 0)
    else if key == "Enter" then
      (if 0 <= s.active < |options| then SelectStep(s, options[s.active]) else s.(open := false))
    else if key == "Escape" then s.(open := false, active := -1)
    else if key == "Tab" then s.(open := false)
    else s
  }

  /** `onFocus` (line 252) opens the list. */
  function FocusStep(s: ComboState): ComboState
  {
    s.(open := true)
  }

  /** `onMouseEnter` on option `index` (line 288). */
  function HoverStep(s: ComboState, index: nat): ComboState
  {
    s.(active := index)
  }

  /** `handleClickOutside` (lines 126-133). */
  function ClickOutsideStep(s: ComboState): ComboState
  {
    s.(open := false)
  }

  /** The highlighted index is -1 or the index of an option. */
  predicate InRange(s: ComboState, options: seq<string>)
  {
    -1 <= s.active < |options|
  }

  // ------------------------------------------------------------ the combobox

  class VersionCombobox {
    const pythonVersions: seq<string>
    var selectedVersion: string
    var versionInputValue: string
    var showVersionDropdown: bool
    var activeOptionIndex: int

    function State(): ComboState
      reads this
    {
      ComboState(selectedVersion, versionInputValue, showVersionDropdown, activeOptionIndex)
    }

    predicate Valid()
      reads this
    {
      |pythonVersions| > 0 && pythonVersions[0] == "all" && InRange(State(), pythonVersions)
    }

    /** The options are "all" and the rendered minors; the list starts
        closed with nothing highlighted (lines 121-122). */
    constructor (versions: seq<string>, selected: string, input: string)
      ensures pythonVersions == ["all"] + versions
      ensures State() == ComboState(selected, input, false, -1)
      ensures Valid()
    {
      pythonVersions := ["all"] + versions;
      selectedVersion := selected;
      versionInputValue := input;
      showVersionDropdown := false;
      activeOptionIndex := -1;
    }

    method Select(version: string)
      requires Valid()
      modifies this
      ensures State() == SelectStep(old(State()), version)
      ensures Valid()
    {
      selectedVersion := version;
      versionInputValue := if version == "all" then "All Versions" else version;
      showVersionDropdown := false;
      activeOptionIndex := -1;
    }

    method InputChange(value: string)
      requires Valid()
      modifies this
      ensures State() == InputStep(old(State()), value, pythonVersions)
      ensures Valid()
    {
      var normalized := JsTrim(ToLower(value));
      var selected;
      if normalized == "all versions" || normalized == "all" {
        selected := "all";
      } else if normalized in pythonVersions {
        selected := normalized;
      } else {
        selected := if normalized != "" then normalized else "all";
      }
      assert selected == TypedSelection(value, pythonVersions);
      versionInputValue := value;
      showVersionDropdown := true;
      activeOptionIndex := -1;
      selectedVersion := selected;
    }

    method KeyDown(key: string)
      requires Valid()
      modifies this
      ensures State() == KeyStep(old(State()), key, pythonVersions)
      ensures Valid()
    {
      if !showVersionDropdown && (key == "ArrowDown" || key == "ArrowUp") {
        showVersionDropdown := true;
        activeOptionIndex := 0;
        return;
      }
      if !showVersionDropdown {
        return;
      }
      if key == "ArrowDown" {
        activeOptionIndex := if activeOptionIndex < |pythonVersions| - 1 then activeOptionIndex + 1 else activeOptionIndex;
      } else if key == "ArrowUp" {
        activeOptionIndex := if activeOptionIndex > 0 then activeOptionIndex - 1 else 0;
      } else if key == "Enter" {
        if activeOptionIndex >= 0 && activeOptionIndex < |pythonVersions| {
          Select(pythonVersions[activeOptionIndex]);
        } else {
          showVersionDropdown := false;
        }
      } else if key == "Escape" {
        showVersionDropdown := false;
        activeOptionIndex := -1;
      } else if key == "Tab" {
        showVersionDropdown := false;
      }
    }

    method Focus()
      requires Valid()
      modifies this
      ensures State() == FocusStep(old(State()))
      ensures Valid()
    {
      showVersionDropdown := true;
    }

    method Hover(index: nat)
      requires Valid() && index < |pythonVersions|
      modifies this
      ensures State() == HoverStep(old(State()), index)
      ensures Valid()
    {
      activeOptionIndex := index;
    }

    method ClickOutside()
      requires Valid()
      modifies this
      ensures State() == ClickOutsideStep(old(State()))
      ensures Valid()
    {
      showVersionDropdown := false;
    }
  }

  // ------------------------------------------------------------ properties of the steps

  /** Every key keeps the highlighted index at -1 or on an option. */
  lemma KeyStepInRange(s: ComboState, key: string, options: seq<string>)
    requires |options| > 0 && InRange(s, options)
    ensures InRange(KeyStep(s, key, options), options)
  {
  }

  /** A closed list opens at the first option on an arrow key, and ignores
      every other key. */
  lemma ClosedKeys(s: ComboState, key: string, options: seq<string>)
    requires !s.open
    ensures key == "ArrowDown" || key == "ArrowUp" ==>
      KeyStep(s, key, options) == ComboState(s.selected, s.input, true, 0)
    ensures key != "ArrowDown" && key != "ArrowUp" ==> KeyStep(s, key, options) == s
  {
  }

  /** `n` presses of one key. */
  function Presses(s: ComboState, key: string, options: seq<string>, n: nat): ComboState
    decreases n
  {
    if n == 0 then s else KeyStep(Presses(s, key, options, n - 1), key, options)
  }

  /** On an open list, ArrowDown moves down one option per press and stops
      at the last one, leaving the rest of the state alone. */
  lemma {:induction false} ArrowDownPresses(s: ComboState, options: seq<string>, n: nat)
    requires s.open && |options| > 0 && InRange(s, options)
    ensures Presses(s, "ArrowDown", options, n)
      == s.(active := if s.active + n < |options| - 1 then s.active + n else |options| - 1)
    decreases n
  {
    if n > 0 {
      ArrowDownPresses(s, options, n - 1);
    }
  }

  /** On an open list, ArrowUp moves up one option per press and stops at
      the first one; from "nothing highlighted" it goes to the first. */
  lemma {:induction false} ArrowUpPresses(s: ComboState, options: seq<string>, n: nat)
    requires s.open && n > 0
    ensures Presses(s, "ArrowUp", options, n).active == if s.active - n > 0 then s.active - n else 0
    ensures Presses(s, "ArrowUp", options, n) == s.(active := Presses(s, "ArrowUp", options, n).active)
    decreases n
  {
    if n > 1 {
      ArrowUpPresses(s, options, n - 1);
    }
  }

  /** Enter on a highlighted option selects it and closes the list; with
      nothing highlighted it only closes the list. */
  lemma EnterSelects(s: ComboState, options: seq<string>)
    requires s.open && InRange(s, options)
    ensures s.active >= 0 ==>
      KeyStep(s, "Enter", options) == ComboState(options[s.active], DisplayValue(options[s.active]), false, -1)
    ensures s.active == -1 ==> KeyStep(s, "Enter", options) == s.(open := false)
  {
  }

  /** Escape closes the list and drops the highlight; Tab only closes it. */
  lemma EscapeAndTab(s: ComboState, options: seq<string>)
    requires s.open
    ensures KeyStep(s, "Escape", options) == ComboState(s.selected, s.input, false, -1)
    ensures KeyStep(s, "Tab", options) == ComboState(s.selected, s.input, false, s.active)
  {
  }

  /** From a closed list, ArrowDown, `n` more ArrowDowns and Enter select the
      option `n` places below "all" (or the last one). */
  lemma KeyboardSelection(s: ComboState, options: seq<string>, n: nat)
    requires !s.open && |options| > 0
    ensures var t := Presses(KeyStep(s, "ArrowDown", options), "ArrowDown", options, n);
      var i := if n < |options| - 1 then n else |options| - 1;
      KeyStep(t, "Enter", options) == SelectStep(t, options[i])
  {
    var o := KeyStep(s, "ArrowDown", options);
    ArrowDownPresses(o, options, n);
  }

  /** Typing always selects something when no option is blank: the result
      is never empty, and whatever the text is, the list opens with nothing
      highlighted. */
  lemma InputStepShape(s: ComboState, value: string, options: seq<string>)
    requires "" !in options
    ensures InputStep(s, value, options).selected != ""
    ensures InputStep(s, value, options).open && InputStep(s, value, options).active == -1
    ensures InputStep(s, value, options).input == value
  {
  }

  /** The texts that select "all": "all" and "all versions" in any case and
      with any surrounding white space, and the blank text (when no option
      is blank). */
  lemma TypedAll(value: string, options: seq<string>)
    requires "" !in options
    ensures TypedSelection(value, options) == "all"
      <==> Normalize(value) in {"all", "all versions", ""}
  {
  }

  /** A text that does not normalise to "all" or "all versions" selects the
      normalised text, whether or not it is one of the options (the filter
      then decides; see `Query.InvalidFilterShowsNothing`). */
  lemma TypedCustom(value: string, options: seq<string>)
    requires Normalize(value) !in {"all", "all versions", ""}
    ensures TypedSelection(value, options) == Normalize(value)
  {
  }

  /** Typing back the text an option shows selects that option again, for
      every option that is already lower-case and trimmed (such as "3.12"
      and "all"). */
  lemma TypedLabelSelects(s: ComboState, version: string, options: seq<string>)
    requires Normalize(version) == version && version != "" && version != "all versions"
    ensures var t := SelectStep(s, version);
      InputStep(t, t.input, options).selected == version
  {
    if version == "all" {
      AllVersionsNormal();
    }
  }

  /** The text shown for "all" normalises to "all versions". */
  lemma AllVersionsNormal()
    ensures Normalize("All Versions") == "all versions"
  {
    var t := ToLower("All Versions");
    assert t == "all versions";
    TrimKeeps(t);
  }

  /** `trim` leaves a text that neither starts nor ends with white space. */
  lemma TrimKeeps(t: string)
    requires |t| > 0 && !IsJsSpace(t[0]) && !IsJsSpace(t[|t| - 1])
    ensures JsTrim(t) == t
  {
    assert TrimStartWith(t, IsJsSpace) == t;
    assert TrimEndWith(t, IsJsSpace) == t;
  }

  /** Option labels made of digits and dots, such as "3.12", are already
      normalised. */
  lemma VersionTextNormal(v: string)
    requires |v| > 0 && forall i :: 0 <= i < |v| ==> IsDigit(v[i]) || v[i] == '.'
    ensures Normalize(v) == v
  {
    assert ToLower(v) == v;
    TrimKeeps(v);
  }
}
