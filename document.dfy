/** The abstract page the content script sees. The document is a flat list of
    the page's form controls (`input`, `select`, `textarea`) in document order;
    every `<form>` and every `<div>` is the ascending list of the controls it
    contains, so one control may belong to several nested divs; and
    `label[for=id]` lookups are a map from id to the first such label's text.
    The controls' mutable `value` and `checked` properties are kept apart from
    this structure, in `Autofill.Page`. */
module Dom {
  import opened JsText

  datatype Tag = Input | Select | Textarea

  /** `element.tagName.toLowerCase()`. */
  function TagName(t: Tag): (name: string)
    ensures |name| > 0 && !IsDigit(name[0])
    ensures forall i :: 0 <= i < |name| ==> IsWordChar(name[i]) && !IsUpper(name[i])
  {
    match t
    case Input => "input"
    case Select => "select"
    case Textarea => "textarea"
  }

  lemma TagNameInjective(s: Tag, t: Tag)
    ensures TagName(s) == TagName(t) <==> s == t
  {
  }

  /** One `<option>` of a select: its displayed text and its value. */
  datatype SelectOption = SelectOption(text: string, value: string)

  /** The static properties of one control. `controlType` is the `type`
      property; `parentText` is the `textContent` of the parent element, absent
      when there is none; `options` lists a select's options in order. */
  datatype Control = Control(
    tag: Tag,
    controlType: string,
    id: string,
    name: string,
    placeholder: string,
    parentText: Option<string>,
    options: seq<SelectOption>)

  /** A `<form>` or a `<div>`: its attributes and the indices of the controls
      it contains, in document order. */
  datatype Container = Container(id: string, action: string, formMethod: string, members: seq<nat>)

  datatype Document = Document(
    controls: seq<Control>,
    forms: seq<Container>,
    divs: seq<Container>,
    labelFor: map<string, string>)

  predicate MembersInRange(doc: Document, members: seq<nat>) {
    forall i :: 0 <= i < |members| ==> members[i] < |doc.controls|
  }

  /** Every member is a control of the document, and members are listed in
      strictly increasing document order. */
  predicate InDocumentOrder(members: seq<nat>, count: nat) {
    && (forall i :: 0 <= i < |members| ==> members[i] < count)
    && (forall i, j :: 0 <= i < j < |members| ==> members[i] < members[j])
  }

  predicate WellFormed(doc: Document) {
    && (forall k :: 0 <= k < |doc.forms| ==> InDocumentOrder(doc.forms[k].members, |doc.controls|))
    && (forall k :: 0 <= k < |doc.divs| ==> InDocumentOrder(doc.divs[k].members, |doc.controls|))
  }

  /** A document whose containers are well formed. */
  type WellFormedDocument = doc: Document | WellFormed(doc) witness Document([], [], [], map[])
}
