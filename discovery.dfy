/** Form discovery, `gatherFormData` (content.js:112-235): every `<form>` in
    document order contributes a group of field descriptors when it has at
    least one eligible control; only when no form contributed, every `<div>`
    with at least three controls is scanned the same way. Each descriptor
    carries a label found through a three-step fallback chain and a path
    naming the control's container and its position among ALL of that
    container's controls, excluded ones included. */
module Discovery {
  import opened JsText
  import opened Dom
  import opened PathCodec
  import opened Resolution

  /** Controls of type hidden, submit or button are never described
      (content.js:122, 185). */
  predicate Eligible(c: Control) {
    c.controlType != "hidden" && c.controlType != "submit" && c.controlType != "button"
  }

  /** `options` is the list of a select's option texts and absent otherwise. */
  datatype FieldDescriptor = FieldDescriptor(
    fieldType: string,
    name: string,
    id: string,
    labelText: string,
    options: Option<seq<string>>,
    path: string)

  datatype FormGroup = FormGroup(action: string, formMethod: string, id: string, elements: seq<FieldDescriptor>)

  // ---------------------------------------------------------------------
  // Label chain (content.js:127-149)

  /** The trimmed text of the control's `label[for=id]`; empty when the
      control has no id or there is no such label. */
  function ForLabelText(doc: Document, c: Control): string {
    if c.id != "" && c.id in doc.labelFor then Trim(doc.labelFor[c.id]) else ""
  }

  /** The parent's trimmed text, used only when the parent exists and its
      untrimmed text is shorter than 100 UTF-16 code units. */
  function ParentLabelText(c: Control): string {
    match c.parentText
    case Some(t) => if Utf16Length(t) < 100 then Trim(t) else ""
    case None => ""
  }

  /** The first non-empty of: label text, placeholder (verbatim), parent
      text. A non-blank `for` label always wins, and every label that is not
      the placeholder has no surrounding whitespace. */
  function LabelOf(doc: Document, c: Control): (text: string)
    ensures ForLabelText(doc, c) != "" ==> text == ForLabelText(doc, c)
    ensures text != "" && text != c.placeholder ==> !IsSpace(text[0]) && !IsSpace(text[|text| - 1])
  {
    var fromLabel := ForLabelText(doc, c);
    if fromLabel != "" then fromLabel
    else if c.placeholder != "" then c.placeholder
    else ParentLabelText(c)
  }

  /** The label search as content.js runs it, reassigning `labelText` step by
      step. */
  method FindLabel(doc: Document, c: Control) returns (labelText: string)
    ensures labelText == LabelOf(doc, c)
    ensures c.id != "" && c.id in doc.labelFor && Trim(doc.labelFor[c.id]) != "" ==> labelText == Trim(doc.labelFor[c.id])
  {
    labelText := "";
    if c.id != "" {
      if c.id in doc.labelFor {
        labelText := Trim(doc.labelFor[c.id]);
      }
    }
    if labelText == "" && c.placeholder != "" {
      labelText := c.placeholder;
    }
    if labelText == "" {
      match c.parentText {
        case Some(t) =>
          if Utf16Length(t) < 100 {
            labelText := Trim(t);
          }
        case None =>
      }
    }
  }

  predicate AllSpace(s: string) {
    forall i :: 0 <= i < |s| ==> IsSpace(s[i])
  }

  /** A control ends up with no label exactly when its `for` label is missing
      or blank, it has no placeholder, and its parent is missing, has text of
      100 UTF-16 code units or more, or has only blank text. */
  lemma LabelEmptyIff(doc: Document, c: Control)
    ensures LabelOf(doc, c) == "" <==>
      && (c.id == "" || c.id !in doc.labelFor || AllSpace(doc.labelFor[c.id]))
      && c.placeholder == ""
      && (c.parentText.None? || Utf16Length(c.parentText.value) >= 100 || AllSpace(c.parentText.value))
  {
  }

  /** A non-empty label comes from one of the three sources, in priority
      order; the placeholder is never trimmed. */
  lemma LabelSource(doc: Document, c: Control)
    ensures var l := LabelOf(doc, c);
      || (l != "" && c.id != "" && c.id in doc.labelFor && l == Trim(doc.labelFor[c.id]))
      || (l == c.placeholder && ForLabelText(doc, c) == "")
      || (ForLabelText(doc, c) == "" && c.placeholder == "" && c.parentText.Some?
          && Utf16Length(c.parentText.value) < 100 && l == Trim(c.parentText.value))
      || (l == "" && ForLabelText(doc, c) == "" && c.placeholder == "")
  {
  }

  // ---------------------------------------------------------------------
  // Descriptors (content.js:151-160, 210-219)

  /** `element.type || element.tagName.toLowerCase()`. */
  function TypeOf(c: Control): string {
    if c.controlType != "" then c.controlType else TagName(c.tag)
  }

  function OptionTexts(opts: seq<SelectOption>): (texts: seq<string>)
    ensures |texts| == |opts|
    ensures forall i :: 0 <= i < |opts| ==> texts[i] == opts[i].text
  {
    seq(|opts|, i requires 0 <= i < |opts| => opts[i].text)
  }

  /** The descriptor of the control at `position` in the combined
      input/select/textarea list of container `container`. Its type is never
      empty, and it lists one option text per option exactly for a select. */
  function Describe(doc: Document, kind: ContainerKind, container: nat, c: Control, position: nat): (d: FieldDescriptor)
    ensures d.fieldType != ""
    ensures d.options.Some? <==> c.tag == Select
    ensures d.options.Some? ==> |d.options.value| == |c.options|
  {
    FieldDescriptor(
      TypeOf(c), c.name, c.id, LabelOf(doc, c),
      if c.tag == Select then Some(OptionTexts(c.options)) else None,
      EncodePath(kind, container, TagName(c.tag), position))
  }

  /** The positions of `true` in `mask`, in ascending order. */
  function Positions(mask: seq<bool>): (r: seq<nat>)
    ensures forall k :: 0 <= k < |r| ==> r[k] < |mask| && mask[r[k]]
    ensures forall k, l :: 0 <= k < l < |r| ==> r[k] < r[l]
    ensures forall j :: 0 <= j < |mask| && mask[j] ==> j in r
    decreases |mask|
  {
    if mask == [] then []
    else
      var init := Positions(mask[..|mask| - 1]);
      if mask[|mask| - 1] then init + [|mask| - 1] else init
  }

  /** The positions of a prefix one longer. */
  lemma PositionsSnoc(mask: seq<bool>, n: nat)
    requires 0 < n <= |mask|
    ensures Positions(mask[..n]) == if mask[n - 1] then Positions(mask[..n - 1]) + [n - 1] else Positions(mask[..n - 1])
  {
    assert mask[..n][..n - 1] == mask[..n - 1];
  }

  lemma PositionsEmptyIff(mask: seq<bool>)
    ensures Positions(mask) == [] <==> forall j :: 0 <= j < |mask| ==> !mask[j]
  {
    if Positions(mask) != [] {
      assert mask[Positions(mask)[0]];
    }
  }

  function EligibleMask(doc: Document, members: seq<nat>): (mask: seq<bool>)
    requires MembersInRange(doc, members)
    ensures |mask| == |members|
    ensures forall j :: 0 <= j < |members| ==> mask[j] == Eligible(doc.controls[members[j]])
  {
    seq(|members|, j requires 0 <= j < |members| => Eligible(doc.controls[members[j]]))
  }

  /** The descriptors built from the first `n` controls of a container, as the
      `forEach` accumulates them. */
  function ContainerFields(doc: Document, kind: ContainerKind, container: nat, members: seq<nat>, n: nat): seq<FieldDescriptor>
    requires MembersInRange(doc, members) && n <= |members|
  {
    if n == 0 then []
    else
      var c := doc.controls[members[n - 1]];
      ContainerFields(doc, kind, container, members, n - 1)
        + (if Eligible(c) then [Describe(doc, kind, container, c, n - 1)] else [])
  }

  function FieldsOf(doc: Document, kind: ContainerKind, container: nat, members: seq<nat>): seq<FieldDescriptor>
    requires MembersInRange(doc, members)
  {
    ContainerFields(doc, kind, container, members, |members|)
  }

  /** The descriptors of a container are exactly those of its eligible
      controls, in document order, each written with the control's position
      among all of the container's controls. */
  lemma {:induction false} ContainerFieldsAtSlots(doc: Document, kind: ContainerKind, container: nat, members: seq<nat>, n: nat)
    requires MembersInRange(doc, members) && n <= |members|
    ensures var slots := Positions(EligibleMask(doc, members)[..n]);
            var fields := ContainerFields(doc, kind, container, members, n);
            && |fields| == |slots|
            && forall k :: 0 <= k < |slots| ==>
                 fields[k] == Describe(doc, kind, container, doc.controls[members[slots[k]]], slots[k])
  {
    if n > 0 {
      ContainerFieldsAtSlots(doc, kind, container, members, n - 1);
      var mask := EligibleMask(doc, members);
      PositionsSnoc(mask, n);
      var init := Positions(mask[..n - 1]);
      var prev := ContainerFields(doc, kind, container, members, n - 1);
      var c := doc.controls[members[n - 1]];
      if Eligible(c) {
        assert ContainerFields(doc, kind, container, members, n) == prev + [Describe(doc, kind, container, c, n - 1)];
        assert Positions(mask[..n]) == init + [n - 1];
      } else {
        assert ContainerFields(doc, kind, container, members, n) == prev;
        assert Positions(mask[..n]) == init;
      }
    }
  }

  lemma FieldsAtSlots(doc: Document, kind: ContainerKind, container: nat, members: seq<nat>)
    requires MembersInRange(doc, members)
    ensures var slots := Positions(EligibleMask(doc, members));
            var fields := FieldsOf(doc, kind, container, members);
            && |fields| == |slots|
            && forall k :: 0 <= k < |slots| ==>
                 fields[k] == Describe(doc, kind, container, doc.controls[members[slots[k]]], slots[k])
  {
    ContainerFieldsAtSlots(doc, kind, container, members, |members|);
    assert EligibleMask(doc, members)[..|members|] == EligibleMask(doc, members);
  }

  /** A container yields no descriptor exactly when none of its controls is
      eligible. */
  lemma FieldsEmptyIff(doc: Document, kind: ContainerKind, container: nat, members: seq<nat>)
    requires MembersInRange(doc, members)
    ensures FieldsOf(doc, kind, container, members) == []
        <==> forall j :: 0 <= j < |members| ==> !Eligible(doc.controls[members[j]])
  {
    FieldsAtSlots(doc, kind, container, members);
    PositionsEmptyIff(EligibleMask(doc, members));
  }

  /** Every descriptor of a container names an eligible control, and its path
      decodes to the container and to the control's position among all of the
      container's controls, excluded ones included. */
  lemma FieldPathsDecode(doc: Document, kind: ContainerKind, container: nat, members: seq<nat>, k: nat)
    requires MembersInRange(doc, members)
    requires k < |FieldsOf(doc, kind, container, members)|
    ensures |Positions(EligibleMask(doc, members))| == |FieldsOf(doc, kind, container, members)|
    ensures var j := Positions(EligibleMask(doc, members))[k];
            var c := doc.controls[members[j]];
            && j < |members| && Eligible(c)
            && DecodePath(FieldsOf(doc, kind, container, members)[k].path) == Some(Address(kind, container, TagName(c.tag), j))
  {
    FieldsAtSlots(doc, kind, container, members);
    var j := Positions(EligibleMask(doc, members))[k];
    EncodeDecode(kind, container, TagName(doc.controls[members[j]].tag), j);
  }

  /** A descriptor's path leads back to its own control at fill time exactly
      when every control before it in its container has the same tag. */
  lemma FieldPathResolvesIff(doc: Document, kind: ContainerKind, container: nat, k: nat)
    requires WellFormed(doc) && container < |Containers(doc, kind)|
    requires var members := Containers(doc, kind)[container].members;
             k < |FieldsOf(doc, kind, container, members)|
    ensures var members := Containers(doc, kind)[container].members;
            |Positions(EligibleMask(doc, members))| == |FieldsOf(doc, kind, container, members)|
    ensures var members := Containers(doc, kind)[container].members;
            var j := Positions(EligibleMask(doc, members))[k];
            var a := DecodePath(FieldsOf(doc, kind, container, members)[k].path);
            && a.Some?
            && ((Resolve(doc, a.value) == Found(members[j]))
                <==> (forall i :: 0 <= i < j ==> doc.controls[members[i]].tag == doc.controls[members[j]].tag))
  {
    var members := Containers(doc, kind)[container].members;
    assert InDocumentOrder(members, |doc.controls|);
    FieldPathsDecode(doc, kind, container, members, k);
    ResolveEncodedIff(doc, kind, container, Positions(EligibleMask(doc, members))[k]);
  }

  // ---------------------------------------------------------------------
  // Groups (content.js:116-171 and the fallback at 174-232)

  function FormGroupOf(doc: Document, i: nat): FormGroup
    requires WellFormed(doc) && i < |doc.forms|
  {
    var f := doc.forms[i];
    FormGroup(f.action, if f.formMethod != "" then f.formMethod else "get", f.id, FieldsOf(doc, FormKind, i, f.members))
  }

  function DivGroupOf(doc: Document, i: nat): FormGroup
    requires WellFormed(doc) && i < |doc.divs|
  {
    var d := doc.divs[i];
    FormGroup("", "unknown", d.id, FieldsOf(doc, DivKind, i, d.members))
  }

  /** A form contributes when it yields a descriptor. */
  predicate FormContributes(doc: Document, i: nat)
    requires WellFormed(doc) && i < |doc.forms|
  {
    FieldsOf(doc, FormKind, i, doc.forms[i].members) != []
  }

  /** A div contributes when it holds at least three controls before
      exclusion and yields a descriptor after it. */
  predicate DivContributes(doc: Document, i: nat)
    requires WellFormed(doc) && i < |doc.divs|
  {
    |doc.divs[i].members| >= 3 && FieldsOf(doc, DivKind, i, doc.divs[i].members) != []
  }

  function FormMask(doc: Document): (mask: seq<bool>)
    requires WellFormed(doc)
    ensures |mask| == |doc.forms|
    ensures forall i :: 0 <= i < |doc.forms| ==> mask[i] == FormContributes(doc, i)
  {
    seq(|doc.forms|, i requires 0 <= i < |doc.forms| => FormContributes(doc, i))
  }

  function DivMask(doc: Document): (mask: seq<bool>)
    requires WellFormed(doc)
    ensures |mask| == |doc.divs|
    ensures forall i :: 0 <= i < |doc.divs| ==> mask[i] == DivContributes(doc, i)
  {
    seq(|doc.divs|, i requires 0 <= i < |doc.divs| => DivContributes(doc, i))
  }

  /** The groups of the first `n` forms, as the form loop accumulates them. */
  function FormPass(doc: Document, n: nat): seq<FormGroup>
    requires WellFormed(doc) && n <= |doc.forms|
  {
    if n == 0 then []
    else FormPass(doc, n - 1) + (if FormContributes(doc, n - 1) then [FormGroupOf(doc, n - 1)] else [])
  }

  /** The groups of the first `n` divs, as the fallback loop accumulates them. */
  function DivPass(doc: Document, n: nat): seq<FormGroup>
    requires WellFormed(doc) && n <= |doc.divs|
  {
    if n == 0 then []
    else DivPass(doc, n - 1) + (if DivContributes(doc, n - 1) then [DivGroupOf(doc, n - 1)] else [])
  }

  /** The result of discovery: the form groups, or the div groups when no form
      produced a group. No group is empty, and there is at most one group per
      form, or per div when the groups are those of divs. */
  function Discover(doc: Document): (groups: seq<FormGroup>)
    requires WellFormed(doc)
    ensures forall g :: 0 <= g < |groups| ==> groups[g].elements != []
    ensures |groups| <= |doc.forms| || (|groups| <= |doc.divs| && forall g :: 0 <= g < |groups| ==> groups[g].formMethod == "unknown")
  {
    FormPassShape(doc, |doc.forms|);
    DivPassShape(doc, |doc.divs|);
    var forms := FormPass(doc, |doc.forms|);
    if |forms| == 0 then DivPass(doc, |doc.divs|) else forms
  }

  /** The form loop adds at most one group per form, and never an empty one. */
  lemma {:induction false} FormPassShape(doc: Document, n: nat)
    requires WellFormed(doc) && n <= |doc.forms|
    ensures |FormPass(doc, n)| <= n
    ensures forall g :: 0 <= g < |FormPass(doc, n)| ==> FormPass(doc, n)[g].elements != []
  {
    if n > 0 {
      FormPassShape(doc, n - 1);
    }
  }

  /** The div loop adds at most one group per div, never an empty one, and
      each with the method "unknown". */
  lemma {:induction false} DivPassShape(doc: Document, n: nat)
    requires WellFormed(doc) && n <= |doc.divs|
    ensures |DivPass(doc, n)| <= n
    ensures forall g :: 0 <= g < |DivPass(doc, n)| ==>
              DivPass(doc, n)[g].elements != [] && DivPass(doc, n)[g].formMethod == "unknown"
  {
    if n > 0 {
      DivPassShape(doc, n - 1);
    }
  }

  lemma {:induction false} FormPassAtSlots(doc: Document, n: nat)
    requires WellFormed(doc) && n <= |doc.forms|
    ensures var slots := Positions(FormMask(doc)[..n]);
            && |FormPass(doc, n)| == |slots|
            && forall g :: 0 <= g < |slots| ==> FormPass(doc, n)[g] == FormGroupOf(doc, slots[g])
  {
    if n > 0 {
      FormPassAtSlots(doc, n - 1);
      var mask := FormMask(doc);
      PositionsSnoc(mask, n);
      var init := Positions(mask[..n - 1]);
      var pass := FormPass(doc, n - 1);
      var slots := Positions(mask[..n]);
      if FormContributes(doc, n - 1) {
        assert FormPass(doc, n) == pass + [FormGroupOf(doc, n - 1)];
        assert slots == init + [n - 1];
      } else {
        assert FormPass(doc, n) == pass;
        assert slots == init;
      }
      forall g | 0 <= g < |slots| ensures FormPass(doc, n)[g] == FormGroupOf(doc, slots[g]) {
        if g < |init| {
          assert FormPass(doc, n)[g] == pass[g] && slots[g] == init[g];
        }
      }
    }
  }

  lemma {:induction false} DivPassAtSlots(doc: Document, n: nat)
    requires WellFormed(doc) && n <= |doc.divs|
    ensures var slots := Positions(DivMask(doc)[..n]);
            && |DivPass(doc, n)| == |slots|
            && forall g :: 0 <= g < |slots| ==> DivPass(doc, n)[g] == DivGroupOf(doc, slots[g])
  {
    if n > 0 {
      DivPassAtSlots(doc, n - 1);
      var mask := DivMask(doc);
      PositionsSnoc(mask, n);
      var init := Positions(mask[..n - 1]);
      var pass := DivPass(doc, n - 1);
      var slots := Positions(mask[..n]);
      if DivContributes(doc, n - 1) {
        assert DivPass(doc, n) == pass + [DivGroupOf(doc, n - 1)];
        assert slots == init + [n - 1];
      } else {
        assert DivPass(doc, n) == pass;
        assert slots == init;
      }
      forall g | 0 <= g < |slots| ensures DivPass(doc, n)[g] == DivGroupOf(doc, slots[g]) {
        if g < |init| {
          assert DivPass(doc, n)[g] == pass[g] && slots[g] == init[g];
        }
      }
    }
  }

  /** Discovery returns, in document order, one group per contributing form;
      and, when no form contributes, one group per contributing div. */
  lemma DiscoverAtSlots(doc: Document)
    requires WellFormed(doc)
    ensures var formSlots := Positions(FormMask(doc));
            var divSlots := Positions(DivMask(doc));
            var groups := Discover(doc);
            && (formSlots != [] ==>
                  |groups| == |formSlots| && forall g :: 0 <= g < |groups| ==> groups[g] == FormGroupOf(doc, formSlots[g]))
            && (formSlots == [] ==>
                  |groups| == |divSlots| && forall g :: 0 <= g < |groups| ==> groups[g] == DivGroupOf(doc, divSlots[g]))
  {
    FormPassAtSlots(doc, |doc.forms|);
    DivPassAtSlots(doc, |doc.divs|);
    assert FormMask(doc)[..|doc.forms|] == FormMask(doc);
    assert DivMask(doc)[..|doc.divs|] == DivMask(doc);
  }

  predicate FormHasEligible(doc: Document, i: nat)
    requires WellFormed(doc) && i < |doc.forms|
  {
    exists j :: 0 <= j < |doc.forms[i].members| && Eligible(doc.controls[doc.forms[i].members[j]])
  }

  predicate DivHasEligible(doc: Document, i: nat)
    requires WellFormed(doc) && i < |doc.divs|
  {
    exists j :: 0 <= j < |doc.divs[i].members| && Eligible(doc.controls[doc.divs[i].members[j]])
  }

  /** The div scan runs exactly when no form holds an eligible control; this
      is "no form produced a group", not "the page has no form". */
  lemma FallbackIff(doc: Document)
    requires WellFormed(doc)
    ensures FormPass(doc, |doc.forms|) == [] <==> forall i :: 0 <= i < |doc.forms| ==> !FormHasEligible(doc, i)
  {
    FormPassAtSlots(doc, |doc.forms|);
    assert FormMask(doc)[..|doc.forms|] == FormMask(doc);
    PositionsEmptyIff(FormMask(doc));
    forall i | 0 <= i < |doc.forms| ensures FormContributes(doc, i) <==> FormHasEligible(doc, i) {
      FieldsEmptyIff(doc, FormKind, i, doc.forms[i].members);
    }
  }

  /** Discovery finds nothing exactly when no form and no div of three or more
      controls holds an eligible control. In particular a page without
      eligible controls yields no group. */
  lemma DiscoverEmptyIff(doc: Document)
    requires WellFormed(doc)
    ensures Discover(doc) == [] <==>
      && (forall i :: 0 <= i < |doc.forms| ==> !FormHasEligible(doc, i))
      && (forall i :: 0 <= i < |doc.divs| && |doc.divs[i].members| >= 3 ==> !DivHasEligible(doc, i))
  {
    FallbackIff(doc);
    DivPassAtSlots(doc, |doc.divs|);
    assert DivMask(doc)[..|doc.divs|] == DivMask(doc);
    PositionsEmptyIff(DivMask(doc));
    forall i | 0 <= i < |doc.divs| ensures DivContributes(doc, i) <==> |doc.divs[i].members| >= 3 && DivHasEligible(doc, i) {
      FieldsEmptyIff(doc, DivKind, i, doc.divs[i].members);
    }
  }

  // ---------------------------------------------------------------------
  // The imperative scan

  /** One container's `forEach` over its input/select/textarea list. */
  method CollectFields(doc: Document, kind: ContainerKind, container: nat, members: seq<nat>)
    returns (elements: seq<FieldDescriptor>)
    requires MembersInRange(doc, members)
    ensures elements == FieldsOf(doc, kind, container, members)
  {
    elements := [];
    var elementIndex := 0;
    while elementIndex < |members|
      invariant elementIndex <= |members|
      invariant elements == ContainerFields(doc, kind, container, members, elementIndex)
    {
      var element := doc.controls[members[elementIndex]];
      if Eligible(element) {
        var labelText := FindLabel(doc, element);
        var options := if element.tag == Select then Some(OptionTexts(element.options)) else None;
        elements := elements + [FieldDescriptor(
          TypeOf(element), element.name, element.id, labelText, options,
          EncodePath(kind, container, TagName(element.tag), elementIndex))];
      }
      elementIndex := elementIndex + 1;
    }
  }

  /** `gatherFormData`. */
  method GatherFormData(doc: Document) returns (forms: seq<FormGroup>)
    requires WellFormed(doc)
    ensures forms == Discover(doc)
  {
    forms := [];
    var formIndex := 0;
    while formIndex < |doc.forms|
      invariant formIndex <= |doc.forms|
      invariant forms == FormPass(doc, formIndex)
    {
      var form := doc.forms[formIndex];
      var formElements := CollectFields(doc, FormKind, formIndex, form.members);
      if |formElements| > 0 {
        forms := forms + [FormGroup(form.action, if form.formMethod != "" then form.formMethod else "get", form.id, formElements)];
      }
      formIndex := formIndex + 1;
    }
    if |forms| == 0 {
      var divIndex := 0;
      while divIndex < |doc.divs|
        invariant divIndex <= |doc.divs|
        invariant forms == DivPass(doc, divIndex)
      {
        var div := doc.divs[divIndex];
        if |div.members| >= 3 {
          var formElements := CollectFields(doc, DivKind, divIndex, div.members);
          if |formElements| > 0 {
            forms := forms + [FormGroup("", "unknown", div.id, formElements)];
          }
        }
        divIndex := divIndex + 1;
      }
    }
  }
}
