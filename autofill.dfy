/** The autofill pass, `fillFormWithResults` (content.js:238-344). Each
    recommendation's path is read back, resolved against the document, and
    one per-kind rule is applied to the control found: selects take the value
    of the best-matching option, checkboxes and radios are checked for a small
    vocabulary of "yes" words (checking a radio unchecks the other radios of
    its group), and every other control takes the recommended value verbatim,
    except a file input, whose `value` setter throws. Skipped recommendations
    change nothing and count nothing; only an exception inside the per-field
    `try` raises `errorCount`. */
module Autofill {
  import opened JsText
  import opened Dom
  import opened PathCodec
  import opened Resolution

  /** One entry of the `fields` list of an analysis result. `NullEntry` is a
      `null` in the list: reading `field.path` on it throws before the
      per-field `try`, which rejects the whole pass. Any other entry that is
      not an object reads as `Recommendation(Missing, Missing)`. */
  datatype Recommendation = NullEntry | Recommendation(path: JsValue, recommendedValue: JsValue)

  /** The analysis result the session keeps; `fields` is absent when the
      service sent none. */
  datatype Analysis = Analysis(fields: Option<seq<Recommendation>>)

  /** The mutable part of the document: every control's `value` and
      `checked` properties, indexed like `Document.controls`. */
  datatype ControlState = ControlState(values: seq<string>, checked: seq<bool>)

  predicate Fits(doc: Document, st: ControlState) {
    |st.values| == |doc.controls| && |st.checked| == |doc.controls|
  }

  // ---------------------------------------------------------------------
  // Select matching (content.js:294-320)

  /** The option's lower-cased text equals the lower-cased value. */
  predicate ExactMatch(o: SelectOption, value: string) {
    Lower(o.text) == value
  }

  /** The option's lower-cased text contains the value or is contained in it. */
  predicate PartialMatch(o: SelectOption, value: string) {
    Includes(Lower(o.text), value) || Includes(value, Lower(o.text))
  }

  /** The first option, in option order, that matches exactly. */
  function FirstExact(options: seq<SelectOption>, value: string): (r: Option<nat>)
    ensures r.Some? ==> r.value < |options| && ExactMatch(options[r.value], value)
    ensures r.Some? ==> forall i :: 0 <= i < r.value ==> !ExactMatch(options[i], value)
    ensures r.None? ==> forall i :: 0 <= i < |options| ==> !ExactMatch(options[i], value)
    decreases |options|
  {
    if options == [] then None
    else if ExactMatch(options[0], value) then Some(0)
    else
      match FirstExact(options[1..], value)
      case None => None
      case Some(i) => Some(i + 1)
  }

  /** The first option, in option order, that matches partially. */
  function FirstPartial(options: seq<SelectOption>, value: string): (r: Option<nat>)
    ensures r.Some? ==> r.value < |options| && PartialMatch(options[r.value], value)
    ensures r.Some? ==> forall i :: 0 <= i < r.value ==> !PartialMatch(options[i], value)
    ensures r.None? ==> forall i :: 0 <= i < |options| ==> !PartialMatch(options[i], value)
    decreases |options|
  {
    if options == [] then None
    else if PartialMatch(options[0], value) then Some(0)
    else
      match FirstPartial(options[1..], value)
      case None => None
      case Some(i) => Some(i + 1)
  }

  /** The option the two passes pick: the first exact match, else the first
      partial match. */
  function SelectChoice(options: seq<SelectOption>, value: string): (r: Option<nat>)
    ensures r.Some? ==> r.value < |options| && PartialMatch(options[r.value], value)
    ensures r.None? ==> forall i :: 0 <= i < |options| ==> !PartialMatch(options[i], value)
  {
    match FirstExact(options, value)
    case Some(i) =>
      ExactIsPartial(options[i], value);
      Some(i)
    case None => FirstPartial(options, value)
  }

  lemma ExactIsPartial(o: SelectOption, value: string)
    requires ExactMatch(o, value)
    ensures PartialMatch(o, value)
  {
    assert StartsWith(Lower(o.text), value);
  }

  /** The chosen option is the first exact match when there is one, and
      otherwise the first partial match; nothing is chosen exactly when no
      option matches even partially. */
  lemma SelectChoiceSpec(options: seq<SelectOption>, value: string)
    ensures var r := SelectChoice(options, value);
      && (r.Some? ==> r.value < |options| && PartialMatch(options[r.value], value))
      && ((exists i :: 0 <= i < |options| && ExactMatch(options[i], value)) ==>
            r.Some? && ExactMatch(options[r.value], value)
            && forall i :: 0 <= i < r.value ==> !ExactMatch(options[i], value))
      && ((forall i :: 0 <= i < |options| ==> !ExactMatch(options[i], value)) ==>
            r == FirstPartial(options, value))
      && (r.None? <==> forall i :: 0 <= i < |options| ==> !PartialMatch(options[i], value))
  {
    match FirstExact(options, value)
    case Some(i) =>
      ExactIsPartial(options[i], value);
    case None =>
  }

  /** An option with empty text matches every value in the partial pass, so
      a select holding one never stays unmatched. */
  lemma EmptyTextOptionMatches(options: seq<SelectOption>, value: string, e: nat)
    requires e < |options| && options[e].text == ""
    ensures SelectChoice(options, value).Some?
    ensures FirstExact(options, value).None? ==> SelectChoice(options, value).value <= e
  {
    assert Lower(options[e].text) == [];
    assert StartsWith(value, Lower(options[e].text));
    assert PartialMatch(options[e], value);
    SelectChoiceSpec(options, value);
  }

  /** The two option loops of content.js:299-319, each stopping at its first
      hit. */
  method MatchOption(options: seq<SelectOption>, value: string) returns (matched: Option<nat>)
    ensures matched == SelectChoice(options, value)
  {
    matched := None;
    var i := 0;
    while i < |options|
      invariant 0 <= i <= |options|
      invariant forall j :: 0 <= j < i ==> !ExactMatch(options[j], value)
    {
      if Lower(options[i].text) == value {
        matched := Some(i);
        break;
      }
      i := i + 1;
    }
    if matched.None? {
      i := 0;
      while i < |options|
        invariant 0 <= i <= |options|
        invariant forall j :: 0 <= j < i ==> !PartialMatch(options[j], value)
      {
        var text := Lower(options[i].text);
        if Includes(text, value) || Includes(value, text) {
          matched := Some(i);
          break;
        }
        i := i + 1;
      }
    }
  }

  // ---------------------------------------------------------------------
  // Checkbox and radio (content.js:321-329)

  predicate IsToggle(c: Control) {
    c.controlType == "checkbox" || c.controlType == "radio"
  }

  /** The lower-cased values that check a checkbox or radio. */
  predicate IsCheckedToken(value: string) {
    value == "yes" || value == "true" || value == "1" || value == "on" || value == "checked"
  }

  /** Controls `j` and `k` are radios of one radio button group: radio
      inputs with the same non-empty name and the same form owner, here the
      same containing forms. */
  predicate SameRadioGroup(doc: Document, j: nat, k: nat)
    requires j < |doc.controls| && k < |doc.controls|
  {
    var a := doc.controls[j];
    var b := doc.controls[k];
    && a.tag == Input && a.controlType == "radio" && b.tag == Input && b.controlType == "radio"
    && a.name != "" && a.name == b.name
    && forall f :: 0 <= f < |doc.forms| ==> (j in doc.forms[f].members <==> k in doc.forms[f].members)
  }

  /** `element.checked = true` on control `k`: it becomes checked, and when
      it is a radio every other radio of its group becomes unchecked. */
  function CheckControl(doc: Document, checked: seq<bool>, k: nat): (r: seq<bool>)
    requires |checked| == |doc.controls| && k < |doc.controls|
    ensures |r| == |checked| && r[k]
    ensures forall j :: 0 <= j < |r| && j != k ==> r[j] == (checked[j] && !SameRadioGroup(doc, j, k))
  {
    seq(|checked|, j requires 0 <= j < |checked| => j == k || (checked[j] && !SameRadioGroup(doc, j, k)))
  }

  /** At most one radio of each group is checked. */
  predicate RadioGroupsExclusive(doc: Document, checked: seq<bool>)
    requires |checked| == |doc.controls|
  {
    forall j, k :: 0 <= j < |checked| && 0 <= k < |checked| && j != k && checked[j] && checked[k] ==> !SameRadioGroup(doc, j, k)
  }

  /** Checking a control keeps every group down to at most one checked
      radio. */
  lemma CheckKeepsGroupsExclusive(doc: Document, checked: seq<bool>, k: nat)
    requires |checked| == |doc.controls| && k < |doc.controls|
    requires RadioGroupsExclusive(doc, checked)
    ensures RadioGroupsExclusive(doc, CheckControl(doc, checked, k))
  {
    var r := CheckControl(doc, checked, k);
    forall j, m | 0 <= j < |r| && 0 <= m < |r| && j != m && r[j] && r[m]
      ensures !SameRadioGroup(doc, j, m)
    {
      if j == k {
        assert !SameRadioGroup(doc, m, k);
      } else if m != k {
        assert checked[j] && checked[m];
      }
    }
  }

  /** An `<input type=file>`: assigning a non-empty string to its `value`
      throws. */
  predicate IsFileInput(c: Control) {
    c.tag == Input && c.controlType == "file"
  }

  // ---------------------------------------------------------------------
  // One recommendation

  /** What happened to one recommendation: `Skipped` at a `continue` before a
      control was found, `Unmatched` when the control was found but its rule
      did not apply, `Filled` when a control was changed and counted,
      `Errored` when the `try` body threw, `Aborted` when reading the entry
      threw outside the `try`. */
  datatype Outcome = Skipped | Unmatched | Filled | Errored | Aborted

  datatype StepResult = StepResult(outcome: Outcome, state: ControlState)

  /** The path read back and looked up: `None` when decoding fails, else the
      lookup's result (content.js:252-289). */
  function Locate(doc: Document, path: string): Option<Resolution>
    requires WellFormed(doc)
  {
    match DecodePath(path)
    case None => None
    case Some(a) => Some(Resolve(doc, a))
  }

  /** The control a recommendation reaches, if any. */
  function Target(doc: Document, f: Recommendation): (t: Option<nat>)
    requires WellFormed(doc)
    ensures t.Some? ==> t.value < |doc.controls|
  {
    if f.Recommendation? && Truthy(f.path) && Truthy(f.recommendedValue) && f.path.Str? then
      match Locate(doc, f.path.s)
      case Some(Found(k)) => Some(k)
      case _ => None
    else None
  }

  /** The per-kind rule for control `k` (content.js:292-336). It is never
      skipped and never ends the pass, and it changes nothing unless it
      fills. */
  function ApplyToControl(doc: Document, st: ControlState, k: nat, value: JsValue): (r: StepResult)
    requires Fits(doc, st) && k < |doc.controls|
    ensures Fits(doc, r.state)
    ensures r.outcome in {Filled, Unmatched, Errored}
    ensures r.outcome != Filled ==> r.state == st
  {
    var c := doc.controls[k];
    if c.tag == Select then
      if !value.Str? then StepResult(Errored, st)
      else
        match SelectChoice(c.options, Lower(value.s))
        case None => StepResult(Unmatched, st)
        case Some(i) => StepResult(Filled, st.(values := st.values[k := c.options[i].value]))
    else if IsToggle(c) then
      if !value.Str? then StepResult(Errored, st)
      else if IsCheckedToken(Lower(value.s)) then StepResult(Filled, st.(checked := CheckControl(doc, st.checked, k)))
      else StepResult(Unmatched, st)
    else if IsFileInput(c) && ToJsString(value) != "" then StepResult(Errored, st)
    else StepResult(Filled, st.(values := st.values[k := ToJsString(value)]))
  }

  /** One iteration of the loop at content.js:247-341. Only a filled
      recommendation changes the state, and only an unreadable entry ends the
      pass. */
  function Step(doc: Document, st: ControlState, f: Recommendation): (r: StepResult)
    requires WellFormed(doc) && Fits(doc, st)
    ensures Fits(doc, r.state)
    ensures r.outcome != Filled ==> r.state == st
    ensures r.outcome == Aborted <==> f.NullEntry?
  {
    match f
    case NullEntry => StepResult(Aborted, st)
    case Recommendation(path, value) =>
      if !Truthy(path) || !Truthy(value) then StepResult(Skipped, st)
      else if !path.Str? then StepResult(Errored, st)
      else
        match Locate(doc, path.s)
        case None => StepResult(Skipped, st)
        case Some(OutOfRange) => StepResult(Skipped, st)
        case Some(InvalidSelector) => StepResult(Errored, st)
        case Some(Found(k)) => ApplyToControl(doc, st, k, value)
  }

  /** Recommendation `f` reaches a radio, other than control `j`, of `j`'s
      group. */
  predicate ReachesGroupMate(doc: Document, f: Recommendation, j: nat)
    requires WellFormed(doc) && j < |doc.controls|
  {
    match Target(doc, f)
    case Some(k) => k != j && SameRadioGroup(doc, j, k)
    case None => false
  }

  /** The per-kind rule changes nothing unless it fills. A filling select
      takes the value of the option SelectChoice picks for the lower-cased
      string; a filling checkbox or radio becomes checked and unchecks the
      other radios of its group; any other control takes the value as a
      string, and a file input fills only with the empty string. No other
      value changes, and nothing else is unchecked. */
  lemma ApplyEffect(doc: Document, st: ControlState, k: nat, value: JsValue)
    requires Fits(doc, st) && k < |doc.controls|
    ensures var r := ApplyToControl(doc, st, k, value);
      && (r.outcome != Filled ==> r.state == st)
      && (r.outcome == Filled ==>
            && (forall j :: 0 <= j < |doc.controls| && j != k ==> r.state.values[j] == st.values[j])
            && var c := doc.controls[k];
            && (c.tag == Select ==>
                  && r.state.checked == st.checked
                  && value.Str? && SelectChoice(c.options, Lower(value.s)).Some?
                  && r.state.values[k] == c.options[SelectChoice(c.options, Lower(value.s)).value].value)
            && (c.tag != Select && IsToggle(c) ==>
                  && r.state.values == st.values && r.state.checked[k]
                  && forall j :: 0 <= j < |doc.controls| && j != k ==>
                       r.state.checked[j] == (st.checked[j] && !SameRadioGroup(doc, j, k)))
            && (c.tag != Select && !IsToggle(c) ==>
                  && r.state.checked == st.checked && r.state.values[k] == ToJsString(value)
                  && (IsFileInput(c) ==> ToJsString(value) == "")))
      && (forall j :: 0 <= j < |doc.controls| && st.checked[j] && (j == k || !SameRadioGroup(doc, j, k)) ==> r.state.checked[j])
      && (RadioGroupsExclusive(doc, st.checked) ==> RadioGroupsExclusive(doc, r.state.checked))
  {
    var c := doc.controls[k];
    if c.tag == Select && value.Str? {
      match SelectChoice(c.options, Lower(value.s))
      case Some(i) =>
        assert ApplyToControl(doc, st, k, value).state.values[k] == c.options[i].value;
      case None =>
    } else if c.tag != Select && IsToggle(c) && value.Str? && IsCheckedToken(Lower(value.s)) {
      if RadioGroupsExclusive(doc, st.checked) {
        CheckKeepsGroupsExclusive(doc, st.checked, k);
      }
    }
  }

  /** Only a filled recommendation changes anything. A select it reaches
      takes the value of the option SelectChoice picks for the lower-cased
      string; a checkbox or radio becomes checked and unchecks the other
      radios of its group; any other control, never a file input, takes the
      value as a string. No other value changes, a control
      is unchecked only when the recommendation reaches another radio of its
      group, and at most one radio per group stays checked. */
  lemma StepEffect(doc: Document, st: ControlState, f: Recommendation)
    requires WellFormed(doc) && Fits(doc, st)
    ensures var r := Step(doc, st, f);
      && (r.outcome != Filled ==> r.state == st)
      && (r.outcome == Filled ==>
            && Target(doc, f).Some?
            && var k := Target(doc, f).value;
            && (forall j :: 0 <= j < |doc.controls| && j != k ==> r.state.values[j] == st.values[j])
            && var c := doc.controls[k];
            && (c.tag == Select ==>
                  && r.state.checked == st.checked
                  && f.recommendedValue.Str? && SelectChoice(c.options, Lower(f.recommendedValue.s)).Some?
                  && r.state.values[k] == c.options[SelectChoice(c.options, Lower(f.recommendedValue.s)).value].value)
            && (c.tag != Select && IsToggle(c) ==>
                  && r.state.values == st.values && r.state.checked[k]
                  && forall j :: 0 <= j < |doc.controls| && j != k ==>
                       r.state.checked[j] == (st.checked[j] && !SameRadioGroup(doc, j, k)))
            && (c.tag != Select && !IsToggle(c) ==>
                  && !IsFileInput(c) && r.state.checked == st.checked
                  && r.state.values[k] == ToJsString(f.recommendedValue)))
      && (forall j :: 0 <= j < |doc.controls| && st.checked[j] && !ReachesGroupMate(doc, f, j) ==> r.state.checked[j])
      && (RadioGroupsExclusive(doc, st.checked) ==> RadioGroupsExclusive(doc, r.state.checked))
  {
    match Target(doc, f)
    case Some(k) =>
      StepOnControl(doc, st, f, k);
      ApplyEffect(doc, st, k, f.recommendedValue);
      TruthyStringNonEmpty(f.recommendedValue);
    case None =>
      StepWithoutTarget(doc, st, f);
  }

  /** A recommendation that reaches no control leaves the state alone and is
      either skipped, an error or the end of the pass. */
  lemma StepWithoutTarget(doc: Document, st: ControlState, f: Recommendation)
    requires WellFormed(doc) && Fits(doc, st)
    requires Target(doc, f).None?
    ensures Step(doc, st, f).state == st
    ensures Step(doc, st, f).outcome in {Skipped, Errored, Aborted}
  {
  }

  /** A recommendation that reaches control `k` is that control's rule. */
  lemma StepOnControl(doc: Document, st: ControlState, f: Recommendation, k: nat)
    requires WellFormed(doc) && Fits(doc, st) && Target(doc, f) == Some(k)
    ensures k < |doc.controls|
    ensures Step(doc, st, f) == ApplyToControl(doc, st, k, f.recommendedValue)
  {
    assert Locate(doc, f.path.s) == Some(Found(k));
  }

  /** The step for a string path, given where the path leads. */
  lemma StepLocated(doc: Document, st: ControlState, path: string, value: JsValue, loc: Option<Resolution>)
    requires WellFormed(doc) && Fits(doc, st) && path != [] && Truthy(value)
    requires loc == Locate(doc, path)
    ensures loc.Some? && loc.value.Found? ==> loc.value.control < |doc.controls|
    ensures Step(doc, st, Recommendation(Str(path), value)) ==
      match loc
      case None => StepResult(Skipped, st)
      case Some(OutOfRange) => StepResult(Skipped, st)
      case Some(InvalidSelector) => StepResult(Errored, st)
      case Some(Found(k)) => ApplyToControl(doc, st, k, value)
  {
  }

  lemma ApplyIgnoresState(doc: Document, s: ControlState, t: ControlState, k: nat, value: JsValue)
    requires Fits(doc, s) && Fits(doc, t) && k < |doc.controls|
    ensures ApplyToControl(doc, s, k, value).outcome == ApplyToControl(doc, t, k, value).outcome
  {
  }

  /** A recommendation's outcome never depends on the controls' current
      values. */
  lemma StepIgnoresState(doc: Document, s: ControlState, t: ControlState, f: Recommendation)
    requires WellFormed(doc) && Fits(doc, s) && Fits(doc, t)
    ensures Step(doc, s, f).outcome == Step(doc, t, f).outcome
  {
    match Target(doc, f)
    case Some(k) =>
      StepOnControl(doc, s, f, k);
      StepOnControl(doc, t, f, k);
      ApplyIgnoresState(doc, s, t, k, f.recommendedValue);
    case None =>
  }

  /** The four ways the `try` body throws: a truthy path that is not a
      string reaches `split`; a decoded tag that is not a CSS identifier
      reaches `querySelectorAll` while its container exists; a value that is
      not a string reaches `toLowerCase` on a select, checkbox or radio; a
      value reaches the `value` of a file input. */
  lemma StepErrorIff(doc: Document, st: ControlState, f: Recommendation)
    requires WellFormed(doc) && Fits(doc, st)
    ensures Step(doc, st, f).outcome == Errored <==>
      && f.Recommendation? && Truthy(f.path) && Truthy(f.recommendedValue)
      && (|| !f.path.Str?
          || Locate(doc, f.path.s) == Some(InvalidSelector)
          || (Target(doc, f).Some?
              && var c := doc.controls[Target(doc, f).value];
              || ((c.tag == Select || IsToggle(c)) && !f.recommendedValue.Str?)
              || (c.tag != Select && !IsToggle(c) && IsFileInput(c))))
  {
    if Target(doc, f).Some? {
      TruthyStringNonEmpty(f.recommendedValue);
    }
  }

  /** A recommendation is counted as filled exactly when it reaches a control
      and that control's rule applies: always for a control that is neither a
      select nor a checkbox or radio, unless it is a file input; for a select
      when some option matches;
      for a checkbox or radio when the value is one of the "yes" words. */
  lemma StepFilledIff(doc: Document, st: ControlState, f: Recommendation)
    requires WellFormed(doc) && Fits(doc, st)
    ensures Step(doc, st, f).outcome == Filled <==>
      && Target(doc, f).Some?
      && var c := doc.controls[Target(doc, f).value];
      && var v := f.recommendedValue;
      && (c.tag == Select ==>
            v.Str? && exists i :: 0 <= i < |c.options| && PartialMatch(c.options[i], Lower(v.s)))
      && (c.tag != Select && IsToggle(c) ==> v.Str? && IsCheckedToken(Lower(v.s)))
      && (c.tag != Select && !IsToggle(c) ==> !IsFileInput(c))
  {
    var r := Step(doc, st, f);
    if Target(doc, f).Some? {
      var c := doc.controls[Target(doc, f).value];
      if c.tag == Select && f.recommendedValue.Str? {
        SelectChoiceSpec(c.options, Lower(f.recommendedValue.s));
      }
    }
  }

  // ---------------------------------------------------------------------
  // The whole pass

  /** The state and counters after the loop has processed `fields`;
      `aborted` when an entry could not be read and the pass stopped there. */
  datatype FillRun = FillRun(state: ControlState, filledCount: nat, errorCount: nat, aborted: bool)

  /** A pass that has not stopped, after one more entry. */
  function Advance(doc: Document, run: FillRun, f: Recommendation): (next: FillRun)
    requires WellFormed(doc) && Fits(doc, run.state)
    ensures Fits(doc, next.state)
    ensures next.filledCount + next.errorCount <= run.filledCount + run.errorCount + 1
  {
    var r := Step(doc, run.state, f);
    FillRun(r.state,
            run.filledCount + (if r.outcome == Filled then 1 else 0),
            run.errorCount + (if r.outcome == Errored then 1 else 0),
            r.outcome == Aborted)
  }

  /** The pass over `fields`. Each recommendation adds at most one to one of
      the two counters. */
  function Fill(doc: Document, st: ControlState, fields: seq<Recommendation>): (run: FillRun)
    requires WellFormed(doc) && Fits(doc, st)
    ensures Fits(doc, run.state)
    ensures run.filledCount + run.errorCount <= |fields|
    decreases |fields|
  {
    if fields == [] then FillRun(st, 0, 0, false)
    else
      var prev := Fill(doc, st, fields[..|fields| - 1]);
      if prev.aborted then prev else Advance(doc, prev, fields[|fields| - 1])
  }

  /** The pass continued from entry `i` with `run` so far. */
  function FillFrom(doc: Document, run: FillRun, fields: seq<Recommendation>, i: nat): FillRun
    requires WellFormed(doc) && Fits(doc, run.state) && i <= |fields|
    decreases |fields| - i
  {
    if i == |fields| || run.aborted then run
    else FillFrom(doc, Advance(doc, run, fields[i]), fields, i + 1)
  }

  /** One more entry of a pass that has not ended. */
  lemma FillFromNext(doc: Document, run: FillRun, fields: seq<Recommendation>, i: nat)
    requires WellFormed(doc) && Fits(doc, run.state) && i < |fields| && !run.aborted
    ensures FillFrom(doc, run, fields, i) == FillFrom(doc, Advance(doc, run, fields[i]), fields, i + 1)
  {
  }

  /** The counters after an entry whose step is `r`. */
  lemma AdvanceBy(doc: Document, run: FillRun, f: Recommendation, r: StepResult)
    requires WellFormed(doc) && Fits(doc, run.state) && r == Step(doc, run.state, f)
    ensures Advance(doc, run, f) ==
      FillRun(r.state, run.filledCount + (if r.outcome == Filled then 1 else 0),
              run.errorCount + (if r.outcome == Errored then 1 else 0), r.outcome == Aborted)
  {
  }

  lemma FillExtend(doc: Document, st: ControlState, prefix: seq<Recommendation>, f: Recommendation)
    requires WellFormed(doc) && Fits(doc, st)
    requires !Fill(doc, st, prefix).aborted
    ensures Fill(doc, st, prefix + [f]) == Advance(doc, Fill(doc, st, prefix), f)
  {
    assert (prefix + [f])[..|prefix|] == prefix;
  }

  /** The whole pass is the pass over the first `i` entries continued over
      the rest. */
  lemma {:induction false} FillSplit(doc: Document, st: ControlState, fields: seq<Recommendation>, i: nat)
    requires WellFormed(doc) && Fits(doc, st) && i <= |fields|
    ensures Fill(doc, st, fields) == FillFrom(doc, Fill(doc, st, fields[..i]), fields, i)
    decreases |fields| - i
  {
    var prev := Fill(doc, st, fields[..i]);
    if i == |fields| {
      assert fields[..i] == fields;
    } else if prev.aborted {
      FillStopped(doc, st, fields, i);
    } else {
      PrefixSnoc(fields, i);
      FillExtend(doc, st, fields[..i], fields[i]);
      FillSplit(doc, st, fields, i + 1);
      FillFromNext(doc, prev, fields, i);
    }
  }

  /** The pass stops early exactly when the list holds an unreadable entry. */
  lemma {:induction false} FillAbortedIff(doc: Document, st: ControlState, fields: seq<Recommendation>)
    requires WellFormed(doc) && Fits(doc, st)
    ensures Fill(doc, st, fields).aborted <==> NullEntry in fields
    decreases |fields|
  {
    if fields != [] {
      var init := fields[..|fields| - 1];
      var last := fields[|fields| - 1];
      FillAbortedIff(doc, st, init);
      assert fields == init + [last];
      assert NullEntry in fields <==> NullEntry in init || last == NullEntry;
      var prev := Fill(doc, st, init);
      if !prev.aborted {
        AdvanceBy(doc, prev, last, Step(doc, prev.state, last));
        assert Fill(doc, st, fields) == Advance(doc, prev, last);
      }
    }
  }

  /** Once the pass has stopped, later entries change nothing. */
  lemma {:induction false} FillStopped(doc: Document, st: ControlState, fields: seq<Recommendation>, n: nat)
    requires WellFormed(doc) && Fits(doc, st) && n <= |fields|
    requires Fill(doc, st, fields[..n]).aborted
    ensures Fill(doc, st, fields) == Fill(doc, st, fields[..n])
    decreases |fields| - n
  {
    if n < |fields| {
      assert fields[..n + 1][..n] == fields[..n];
      FillStopped(doc, st, fields, n + 1);
    } else {
      assert fields[..n] == fields;
    }
  }

  /** A checked control stays checked unless some recommendation reaches
      another radio of its group. */
  lemma {:induction false} FillKeepsChecked(doc: Document, st: ControlState, fields: seq<Recommendation>, j: nat)
    requires WellFormed(doc) && Fits(doc, st) && j < |doc.controls|
    ensures st.checked[j] && (forall i :: 0 <= i < |fields| ==> !ReachesGroupMate(doc, fields[i], j))
            ==> Fill(doc, st, fields).state.checked[j]
    decreases |fields|
  {
    if fields != [] {
      var init := fields[..|fields| - 1];
      FillKeepsChecked(doc, st, init, j);
      var prev := Fill(doc, st, init);
      if !prev.aborted {
        StepEffect(doc, prev.state, fields[|fields| - 1]);
      }
    }
  }

  /** The pass keeps at most one radio checked in each group. */
  lemma {:induction false} FillKeepsGroupsExclusive(doc: Document, st: ControlState, fields: seq<Recommendation>)
    requires WellFormed(doc) && Fits(doc, st) && RadioGroupsExclusive(doc, st.checked)
    ensures RadioGroupsExclusive(doc, Fill(doc, st, fields).state.checked)
    decreases |fields|
  {
    if fields != [] {
      var init := fields[..|fields| - 1];
      FillKeepsGroupsExclusive(doc, st, init);
      var prev := Fill(doc, st, init);
      if !prev.aborted {
        StepEffect(doc, prev.state, fields[|fields| - 1]);
      }
    }
  }

  /** A control that no recommendation reaches keeps its value and is never
      checked by the pass; it keeps its checked state as well unless a
      recommendation reaches another radio of its group. */
  lemma {:induction false} FillOnlyTouchesTargets(doc: Document, st: ControlState, fields: seq<Recommendation>, j: nat)
    requires WellFormed(doc) && Fits(doc, st) && j < |doc.controls|
    requires forall i :: 0 <= i < |fields| ==> Target(doc, fields[i]) != Some(j)
    ensures Fill(doc, st, fields).state.values[j] == st.values[j]
    ensures Fill(doc, st, fields).state.checked[j] ==> st.checked[j]
    ensures (forall i :: 0 <= i < |fields| ==> !ReachesGroupMate(doc, fields[i], j))
            ==> Fill(doc, st, fields).state.checked[j] == st.checked[j]
    decreases |fields|
  {
    if fields != [] {
      var init := fields[..|fields| - 1];
      FillOnlyTouchesTargets(doc, st, init, j);
      var prev := Fill(doc, st, init);
      if !prev.aborted {
        StepEffect(doc, prev.state, fields[|fields| - 1]);
      }
    }
  }

  /** The counters and the stopping point never depend on the controls'
      starting values. */
  lemma {:induction false} FillCountsIgnoreState(doc: Document, s: ControlState, t: ControlState, fields: seq<Recommendation>)
    requires WellFormed(doc) && Fits(doc, s) && Fits(doc, t)
    ensures Fill(doc, s, fields).filledCount == Fill(doc, t, fields).filledCount
    ensures Fill(doc, s, fields).errorCount == Fill(doc, t, fields).errorCount
    ensures Fill(doc, s, fields).aborted == Fill(doc, t, fields).aborted
    decreases |fields|
  {
    if fields != [] {
      var init := fields[..|fields| - 1];
      FillCountsIgnoreState(doc, s, t, init);
      var p := Fill(doc, s, init);
      var q := Fill(doc, t, init);
      if !p.aborted {
        StepIgnoresState(doc, p.state, q.state, fields[|fields| - 1]);
      }
    }
  }

  /** A recommendation that cannot throw: an unreadable entry aside, its path
      and value are each either falsy or a string, a path that decodes names
      a tag that is a CSS identifier, and it does not reach a file input. */
  predicate CannotThrow(doc: Document, f: Recommendation)
    requires WellFormed(doc)
  {
    && f.Recommendation?
    && (f.path.Str? || !Truthy(f.path))
    && (f.recommendedValue.Str? || !Truthy(f.recommendedValue))
    && (f.path.Str? && DecodePath(f.path.s).Some? ==> IsTypeSelector(DecodePath(f.path.s).value.tag))
    && (Target(doc, f).Some? ==> !IsFileInput(doc.controls[Target(doc, f).value]))
  }

  /** With such recommendations `errorCount` stays 0 and the pass runs to
      the end. */
  lemma {:induction false} FillWithoutErrors(doc: Document, st: ControlState, fields: seq<Recommendation>)
    requires WellFormed(doc) && Fits(doc, st)
    requires forall i :: 0 <= i < |fields| ==> CannotThrow(doc, fields[i])
    ensures Fill(doc, st, fields).errorCount == 0
    ensures !Fill(doc, st, fields).aborted
    decreases |fields|
  {
    if fields != [] {
      var init := fields[..|fields| - 1];
      FillWithoutErrors(doc, st, init);
      StepErrorIff(doc, Fill(doc, st, init).state, fields[|fields| - 1]);
    }
  }

  /** Paths discovery writes always name one of the three control tags, so
      they never make `querySelectorAll` throw: with a string value, such a
      recommendation can throw only by reaching a file input. */
  lemma EncodedPathCannotThrow(doc: Document, kind: ContainerKind, container: nat, t: Tag, index: nat, value: string)
    requires WellFormed(doc)
    ensures var f := Recommendation(Str(EncodePath(kind, container, TagName(t), index)), Str(value));
            CannotThrow(doc, f) <==> !(Target(doc, f).Some? && IsFileInput(doc.controls[Target(doc, f).value]))
  {
    EncodeDecode(kind, container, TagName(t), index);
    LowerOfLowerCase(TagName(t));
  }

  // ---------------------------------------------------------------------
  // The page and its in-place updates

  /** The reply of `fillFormWithResults`: its rejection when there is nothing
      to fill, its rejection when an entry could not be read, or its two
      counters. */
  datatype FillOutcome = NoResults | UnreadableEntry | Counts(filledCount: nat, errorCount: nat)

  /** The live page: the document's fixed structure and the controls'
      mutable `value` and `checked` properties. */
  class Page {
    const doc: WellFormedDocument
    var values: seq<string>
    var checked: seq<bool>

    predicate Valid()
      reads this
    {
      Fits(doc, ControlState(values, checked))
    }

    function State(): ControlState
      reads this
    {
      ControlState(values, checked)
    }

    constructor (doc: Document, initial: ControlState)
      requires WellFormed(doc) && Fits(doc, initial)
      ensures Valid() && this.doc == doc && State() == initial
    {
      this.doc := doc;
      values := initial.values;
      checked := initial.checked;
    }

    /** The per-kind rule applied to control `k` (content.js:292-336). */
    method ApplyRule(k: nat, value: JsValue) returns (outcome: Outcome)
      requires Valid() && k < |doc.controls|
      modifies this
      ensures Valid()
      ensures StepResult(outcome, State()) == ApplyToControl(doc, old(State()), k, value)
    {
      var element := doc.controls[k];
      if element.tag == Select {
        if !value.Str? {
          return Errored;
        }
        var matched := MatchOption(element.options, Lower(value.s));
        if matched.Some? {
          values := values[k := element.options[matched.value].value];
          return Filled;
        }
        return Unmatched;
      } else if IsToggle(element) {
        if !value.Str? {
          return Errored;
        }
        if IsCheckedToken(Lower(value.s)) {
          checked := CheckControl(doc, checked, k);
          return Filled;
        }
        return Unmatched;
      } else if IsFileInput(element) && ToJsString(value) != "" {
        return Errored;
      } else {
        values := values[k := ToJsString(value)];
        return Filled;
      }
    }

    /** The `try` body for a recommendation whose path is a non-empty string
        and whose value is truthy (content.js:250-336). */
    method FillField(path: string, value: JsValue) returns (outcome: Outcome)
      requires Valid() && path != [] && Truthy(value)
      modifies this
      ensures Valid()
      ensures StepResult(outcome, State()) == Step(doc, old(State()), Recommendation(Str(path), value))
    {
      var loc := Locate(doc, path);
      StepLocated(doc, State(), path, value, loc);
      match loc
      case None => outcome := Skipped;
      case Some(OutOfRange) => outcome := Skipped;
      case Some(InvalidSelector) => outcome := Errored;
      case Some(Found(k)) => outcome := ApplyRule(k, value);
    }

    /** One entry of the loop at content.js:247-341: the end of the pass
        when it is `null`, skipped when its path or value is falsy, an error when a truthy path is not a
        string, otherwise the `try` body. */
    method FillEntry(field: Recommendation) returns (outcome: Outcome)
      requires Valid()
      modifies this
      ensures Valid()
      ensures StepResult(outcome, State()) == Step(doc, old(State()), field)
    {
      if field.NullEntry? {
        return Aborted;
      } else if !Truthy(field.path) || !Truthy(field.recommendedValue) {
        return Skipped;
      } else if !field.path.Str? {
        return Errored;
      }
      assert field == Recommendation(Str(field.path.s), field.recommendedValue);
      outcome := FillField(field.path.s, field.recommendedValue);
    }

    /** One entry together with the counting that follows it
        (content.js:304-339). */
    method CountEntry(field: Recommendation, filledCount: nat, errorCount: nat)
      returns (filled: nat, errors: nat, aborted: bool)
      requires Valid()
      modifies this
      ensures Valid()
      ensures FillRun(State(), filled, errors, aborted) == Advance(doc, FillRun(old(State()), filledCount, errorCount, false), field)
    {
      ghost var before := FillRun(State(), filledCount, errorCount, false);
      var o := FillEntry(field);
      AdvanceBy(doc, before, field, StepResult(o, State()));
      filled, errors := filledCount, errorCount;
      if o == Filled {
        filled := filled + 1;
      } else if o == Errored {
        errors := errors + 1;
      }
      aborted := o == Aborted;
    }

    /** The loop at content.js:247-341 over `fields`: it ends early when an
        entry cannot be read. */
    method RunPass(fields: seq<Recommendation>) returns (filledCount: nat, errorCount: nat, aborted: bool)
      requires Valid()
      modifies this
      ensures Valid()
      ensures FillRun(State(), filledCount, errorCount, aborted) == FillFrom(doc, FillRun(old(State()), 0, 0, false), fields, 0)
    {
      ghost var final := FillFrom(doc, FillRun(State(), 0, 0, false), fields, 0);
      filledCount, errorCount, aborted := 0, 0, false;
      var i := 0;
      while i < |fields| && !aborted
        invariant Valid() && 0 <= i <= |fields|
        invariant FillFrom(doc, FillRun(State(), filledCount, errorCount, aborted), fields, i) == final
      {
        FillFromNext(doc, FillRun(State(), filledCount, errorCount, aborted), fields, i);
        filledCount, errorCount, aborted := CountEntry(fields[i], filledCount, errorCount);
        i := i + 1;
      }
    }

    /** `fillFormWithResults` run against the session's current result. */
    method FillFormWithResults(results: Option<Analysis>) returns (outcome: FillOutcome)
      requires Valid()
      modifies this
      ensures Valid()
      ensures (results.None? || results.value.fields.None?) ==> outcome == NoResults && State() == old(State())
      ensures results.Some? && results.value.fields.Some? ==>
        var run := Fill(doc, old(State()), results.value.fields.value);
        && State() == run.state
        && outcome == (if run.aborted then UnreadableEntry else Counts(run.filledCount, run.errorCount))
    {
      if results.None? || results.value.fields.None? {
        return NoResults;
      }
      FillSplit(doc, State(), results.value.fields.value, 0);
      assert results.value.fields.value[..0] == [];
      var filledCount, errorCount, aborted := RunPass(results.value.fields.value);
      outcome := if aborted then UnreadableEntry else Counts(filledCount, errorCount);
    }
  }
}
