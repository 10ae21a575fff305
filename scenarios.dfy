/** Concrete pages run through the model: the form of one text input and
    one colour select, and the country select with the value "us". */
module Scenarios {
  import opened JsText
  import opened Dom
  import opened PathCodec
  import opened Resolution
  import opened Discovery
  import opened Autofill

  function Colours(): seq<SelectOption> {
    [SelectOption("Red", "Red"), SelectOption("Green", "Green"), SelectOption("Blue", "Blue")]
  }

  /** One `<form>` holding a text input with placeholder "Email" and no
      label, followed by a select of three colours. */
  function EmailAndColour(): Document {
    Document(
      [ Control(Input, "text", "", "", "Email", None, []),
        Control(Select, "select-one", "", "", "", None, Colours()) ],
      [Container("", "", "", [0, 1])],
      [],
      map[])
  }

  lemma EmailAndColourWellFormed(doc: Document)
    requires doc == EmailAndColour()
    ensures WellFormed(doc)
  {
  }

  /** The form's two descriptors: the input, labelled by its placeholder,
      at position 0, and the select at position 1. */
  lemma EmailAndColourFields(doc: Document)
    requires doc == EmailAndColour() && WellFormed(doc)
    ensures var fields := FieldsOf(doc, FormKind, 0, doc.forms[0].members);
      && |fields| == 2
      && fields[0] == Describe(doc, FormKind, 0, doc.controls[0], 0)
      && fields[1] == Describe(doc, FormKind, 0, doc.controls[1], 1)
  {
    var members := doc.forms[0].members;
    assert members == [0, 1];
    assert Eligible(doc.controls[0]) && Eligible(doc.controls[1]);
    var first := Describe(doc, FormKind, 0, doc.controls[0], 0);
    assert ContainerFields(doc, FormKind, 0, members, 1) == [first];
  }

  /** The form is the only group. */
  lemma EmailAndColourGroups(doc: Document)
    requires doc == EmailAndColour() && WellFormed(doc)
    ensures Discover(doc) == [FormGroupOf(doc, 0)]
  {
    EmailAndColourFields(doc);
    assert FormContributes(doc, 0);
    assert FormPass(doc, 1) == [FormGroupOf(doc, 0)];
  }

  /** Discovery describes both controls; the select's path carries its
      position among all of the form's controls, `select[1]`. */
  lemma EmailAndColourDiscovered(doc: Document, input: string, select: string)
    requires doc == EmailAndColour() && input == "input" && select == "select"
    ensures WellFormed(doc)
    ensures |Discover(doc)| == 1
    ensures var fields := Discover(doc)[0].elements;
      && |fields| == 2
      && fields[0].labelText == "Email" && fields[0].options.None?
      && fields[0].path == EncodePath(FormKind, 0, input, 0)
      && fields[1].options == Some(["Red", "Green", "Blue"])
      && fields[1].path == EncodePath(FormKind, 0, select, 1)
  {
    EmailAndColourWellFormed(doc);
    EmailAndColourGroups(doc);
    EmailAndColourFields(doc);
    var fields := Discover(doc)[0].elements;
    assert fields == FieldsOf(doc, FormKind, 0, doc.forms[0].members);
    assert LabelOf(doc, doc.controls[0]) == "Email";
    assert OptionTexts(Colours()) == ["Red", "Green", "Blue"];
  }

  /** That path, written by discovery for the select, finds nothing at fill
      time: the form holds only one select. */
  lemma EmailAndColourSelectPathMisses(doc: Document)
    requires doc == EmailAndColour() && WellFormed(doc)
    ensures Resolve(doc, Address(FormKind, 0, "select", 1)) == OutOfRange
  {
    assert [0, 1][..1] == [0];
    assert MembersWithTag(doc, [0], "select") == [];
    assert MembersWithTag(doc, [0, 1], "select") == [1];
  }

  lemma StepNotAborted(doc: Document, st: ControlState, f: Recommendation)
    requires WellFormed(doc) && Fits(doc, st) && f.Recommendation?
    ensures Step(doc, st, f).outcome != Aborted
  {
  }

  /** One readable recommendation is one step. */
  lemma FillOne(doc: Document, st: ControlState, f: Recommendation)
    requires WellFormed(doc) && Fits(doc, st) && f.Recommendation?
    ensures var r := Step(doc, st, f);
      Fill(doc, st, [f]) == FillRun(r.state, if r.outcome == Filled then 1 else 0, if r.outcome == Errored then 1 else 0, false)
  {
    assert [f][..0] == [];
    StepNotAborted(doc, st, f);
  }

  /** Two readable recommendations are two steps. */
  lemma FillTwo(doc: Document, st: ControlState, f: Recommendation, g: Recommendation)
    requires WellFormed(doc) && Fits(doc, st) && f.Recommendation? && g.Recommendation?
    ensures var first := Step(doc, st, f);
            var second := Step(doc, first.state, g);
            var run := Fill(doc, st, [f, g]);
            && run.state == second.state && !run.aborted
            && run.filledCount == (if first.outcome == Filled then 1 else 0) + (if second.outcome == Filled then 1 else 0)
            && run.errorCount == (if first.outcome == Errored then 1 else 0) + (if second.outcome == Errored then 1 else 0)
  {
    assert [f, g][..1] == [f];
    FillOne(doc, st, f);
    StepNotAborted(doc, Step(doc, st, f).state, g);
  }

  /** A recommendation whose path reaches control `k` and whose value is a
      non-empty string is the rule for that control. */
  lemma StepReaches(doc: Document, st: ControlState, path: string, value: string, k: nat)
    requires WellFormed(doc) && Fits(doc, st) && value != ""
    requires Locate(doc, path) == Some(Found(k))
    ensures k < |doc.controls|
    ensures Step(doc, st, Recommendation(Str(path), Str(value))) == ApplyToControl(doc, st, k, Str(value))
  {
    assert path != "";
  }

  /** A path that decodes is looked up by its address. */
  lemma LocateByAddress(doc: Document, path: string, a: Address)
    requires WellFormed(doc) && DecodePath(path) == Some(a)
    ensures Locate(doc, path) == Some(Resolve(doc, a))
  {
  }

  /** `form[0]-input[0]` reaches the input. */
  lemma InputFound(doc: Document)
    requires doc == EmailAndColour() && WellFormed(doc)
    ensures Resolve(doc, Address(FormKind, 0, "input", 0)) == Found(0)
  {
    assert [0, 1][..1] == [0];
    assert MembersWithTag(doc, [0, 1], "input") == [0];
  }

  /** `form[0]-select[0]` reaches the select. */
  lemma SelectFoundByRank(doc: Document)
    requires doc == EmailAndColour() && WellFormed(doc)
    ensures Resolve(doc, Address(FormKind, 0, "select", 0)) == Found(1)
  {
    assert [0, 1][..1] == [0];
    assert MembersWithTag(doc, [0, 1], "select") == [1];
  }

  /** The text input takes any string verbatim. */
  lemma InputTakesValue(doc: Document, st: ControlState, value: string)
    requires doc == EmailAndColour() && WellFormed(doc) && Fits(doc, st)
    ensures ApplyToControl(doc, st, 0, Str(value)) == StepResult(Filled, st.(values := st.values[0 := value]))
  {
    assert !IsToggle(doc.controls[0]);
  }

  /** "green" picks the colour option "Green" by exact match. */
  lemma GreenChosen(options: seq<SelectOption>, value: string)
    requires options == Colours() && value == "green"
    ensures SelectChoice(options, Lower(value)) == Some(1)
  {
    LowerOfLowerCase(value);
    LowerCapitalised("Red", "red");
    LowerCapitalised("Green", value);
    assert !ExactMatch(options[0], value);
    assert ExactMatch(options[1], value);
  }

  lemma SelectTakesGreen(doc: Document, st: ControlState, value: string)
    requires doc == EmailAndColour() && WellFormed(doc) && Fits(doc, st) && value == "green"
    ensures ApplyToControl(doc, st, 1, Str(value)) == StepResult(Filled, st.(values := st.values[1 := "Green"]))
  {
    GreenChosen(doc.controls[1].options, value);
  }

  /** `form[0]-input[0]` with "a@b.com" fills the input verbatim. */
  lemma EmailStep(doc: Document, st: ControlState, inputPath: string, value: string)
    requires doc == EmailAndColour() && WellFormed(doc) && Fits(doc, st) && value != ""
    requires DecodePath(inputPath) == Some(Address(FormKind, 0, "input", 0))
    ensures Step(doc, st, Recommendation(Str(inputPath), Str(value))) == StepResult(Filled, st.(values := st.values[0 := value]))
  {
    LocateByAddress(doc, inputPath, Address(FormKind, 0, "input", 0));
    InputFound(doc);
    StepReaches(doc, st, inputPath, value, 0);
    InputTakesValue(doc, st, value);
  }

  /** `form[0]-select[0]` with "green" selects the option "Green". */
  lemma ColourStepByRank(doc: Document, st: ControlState, selectPath: string, value: string)
    requires doc == EmailAndColour() && WellFormed(doc) && Fits(doc, st) && value == "green"
    requires DecodePath(selectPath) == Some(Address(FormKind, 0, "select", 0))
    ensures Step(doc, st, Recommendation(Str(selectPath), Str(value))) == StepResult(Filled, st.(values := st.values[1 := "Green"]))
  {
    LocateByAddress(doc, selectPath, Address(FormKind, 0, "select", 0));
    SelectFoundByRank(doc);
    StepReaches(doc, st, selectPath, value, 1);
    SelectTakesGreen(doc, st, value);
  }

  /** `form[0]-select[1]` is skipped. */
  lemma ColourStepAsDiscovered(doc: Document, st: ControlState, selectPath: string, value: string)
    requires doc == EmailAndColour() && WellFormed(doc) && Fits(doc, st) && value != ""
    requires DecodePath(selectPath) == Some(Address(FormKind, 0, "select", 1))
    ensures Step(doc, st, Recommendation(Str(selectPath), Str(value))) == StepResult(Skipped, st)
  {
    LocateByAddress(doc, selectPath, Address(FormKind, 0, "select", 1));
    EmailAndColourSelectPathMisses(doc);
  }

  /** With the per-tag index, `form[0]-input[0]` and `form[0]-select[0]`,
      both recommendations are filled: the input takes "a@b.com" verbatim
      and the select takes the value of its option "Green". */
  lemma EmailAndColourFilledByRank(doc: Document, st: ControlState, inputPath: string, selectPath: string)
    requires doc == EmailAndColour() && WellFormed(doc) && Fits(doc, st)
    requires DecodePath(inputPath) == Some(Address(FormKind, 0, "input", 0))
    requires DecodePath(selectPath) == Some(Address(FormKind, 0, "select", 0))
    ensures var run := Fill(doc, st, [Recommendation(Str(inputPath), Str("a@b.com")), Recommendation(Str(selectPath), Str("green"))]);
      && run.filledCount == 2 && run.errorCount == 0 && !run.aborted
      && run.state.values == ["a@b.com", "Green"] && run.state.checked == st.checked
  {
    var email, green := "a@b.com", "green";
    var f, g := Recommendation(Str(inputPath), Str(email)), Recommendation(Str(selectPath), Str(green));
    var mid := st.(values := st.values[0 := email]);
    EmailStep(doc, st, inputPath, email);
    ColourStepByRank(doc, mid, selectPath, green);
    FillTwo(doc, st, f, g);
    assert mid.values[1 := "Green"] == [email, "Green"];
  }

  /** With the path discovery actually writes for the select,
      `form[0]-select[1]`, only the input is filled; the select's
      recommendation is skipped without being counted as an error. */
  lemma EmailAndColourFilledAsDiscovered(doc: Document, st: ControlState, inputPath: string, selectPath: string)
    requires doc == EmailAndColour() && WellFormed(doc) && Fits(doc, st)
    requires DecodePath(inputPath) == Some(Address(FormKind, 0, "input", 0))
    requires DecodePath(selectPath) == Some(Address(FormKind, 0, "select", 1))
    ensures var run := Fill(doc, st, [Recommendation(Str(inputPath), Str("a@b.com")), Recommendation(Str(selectPath), Str("green"))]);
      && run.filledCount == 1 && run.errorCount == 0 && !run.aborted
      && run.state.values == ["a@b.com", st.values[1]] && run.state.checked == st.checked
  {
    var email, green := "a@b.com", "green";
    var f, g := Recommendation(Str(inputPath), Str(email)), Recommendation(Str(selectPath), Str(green));
    var mid := st.(values := st.values[0 := email]);
    EmailStep(doc, st, inputPath, email);
    ColourStepAsDiscovered(doc, mid, selectPath, green);
    FillTwo(doc, st, f, g);
    assert mid.values == [email, st.values[1]];
  }

  function Countries(): seq<SelectOption> {
    [SelectOption("United States", "US"), SelectOption("United Kingdom", "UK")]
  }

  /** A string without the letter `u` does not contain "us". */
  lemma {:induction false} NoU(s: string)
    requires 'u' !in s
    ensures !Includes(s, "us")
    decreases |s|
  {
    if |s| > 0 {
      assert s[0] != 'u';
      if |s| >= 2 {
        assert s[..2][0] == s[0];
      }
      NoU(s[1..]);
    }
  }

  /** A string whose only `u` is its first letter, not followed by `s`, does
      not contain "us". */
  lemma NoUsAfterInitialU(s: string)
    requires |s| >= 2 && s[1] != 's' && 'u' !in s[1..]
    ensures !Includes(s, "us")
  {
    assert s[..2][1] == s[1];
    NoU(s[1..]);
  }

  lemma {:induction false} NeedleTooLong(s: string, needle: string)
    requires |s| < |needle|
    ensures !Includes(s, needle)
    decreases |s|
  {
    if |s| > 0 {
      NeedleTooLong(s[1..], needle);
    }
  }

  /** `Lower` on a string whose only upper-case letter is its first. */
  lemma LowerCapitalised(s: string, t: string)
    requires |s| == |t| > 0 && IsUpper(s[0]) && t[0] as int == s[0] as int + 32
    requires s[1..] == t[1..] && forall i :: 1 <= i < |s| ==> !IsUpper(s[i])
    ensures Lower(s) == t
  {
    forall i | 0 <= i < |s| ensures Lower(s)[i] == t[i] {
      if i > 0 {
        assert s[i] == s[1..][i - 1] == t[1..][i - 1];
      }
    }
  }

  lemma LowerAppend(a: string, b: string)
    ensures Lower(a + b) == Lower(a) + Lower(b)
  {
  }

  lemma LowerTwoWords(first: string, second: string, lowerFirst: string, lowerSecond: string)
    requires Lower(first) == lowerFirst && Lower(second) == lowerSecond
    ensures Lower(first + " " + second) == lowerFirst + " " + lowerSecond
  {
    LowerAppend(first, " ");
    LowerAppend(first + " ", second);
    LowerOfLowerCase(" ");
  }

  lemma CountryTextsLowered(options: seq<SelectOption>)
    requires options == Countries()
    ensures Lower(options[0].text) == "united states"
    ensures Lower(options[1].text) == "united kingdom"
  {
    LowerCapitalised("United", "united");
    LowerCapitalised("States", "states");
    LowerCapitalised("Kingdom", "kingdom");
    LowerTwoWords("United", "States", "united", "states");
    LowerTwoWords("United", "Kingdom", "united", "kingdom");
  }

  lemma UsInNeitherCountry(value: string, states: string, kingdom: string)
    requires value == "us" && states == "united states" && kingdom == "united kingdom"
    ensures !Includes(states, value) && !Includes(value, states)
    ensures !Includes(kingdom, value) && !Includes(value, kingdom)
  {
    NoUsAfterInitialU(states);
    NoUsAfterInitialU(kingdom);
    NeedleTooLong(value, states);
    NeedleTooLong(value, kingdom);
  }

  /** The value "us" matches neither country: "united states" does not
      contain "us", "us" does not contain either name, and no text equals
      it, so the select is left as it was. */
  lemma UsMatchesNoCountry(options: seq<SelectOption>, value: string)
    requires options == Countries() && value == "us"
    ensures SelectChoice(options, Lower(value)) == None
  {
    LowerOfLowerCase(value);
    CountryTextsLowered(options);
    UsInNeitherCountry(value, Lower(options[0].text), Lower(options[1].text));
    assert !PartialMatch(options[0], value);
    assert !PartialMatch(options[1], value);
    SelectChoiceSpec(options, value);
  }
}
