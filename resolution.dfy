/** Fill-time resolution of a decoded address against the current document
    (content.js:279-289): container `i` among all containers of that kind,
    then element `j` among that container's elements with the decoded tag,
    and only those. Discovery numbers elements among all of a container's
    controls instead, so a written path finds its own control again exactly
    when every control before it in the container has the same tag. */
module Resolution {
  import opened JsText
  import opened Dom
  import opened PathCodec

  /** `document.querySelectorAll('form')` or `('div')`. */
  function Containers(doc: Document, kind: ContainerKind): seq<Container> {
    match kind
    case FormKind => doc.forms
    case DivKind => doc.divs
  }

  /** `container.querySelectorAll(tag)`: the container's controls whose tag
      name is `tag`, in document order. */
  function MembersWithTag(doc: Document, members: seq<nat>, tag: string): (r: seq<nat>)
    requires MembersInRange(doc, members)
    ensures |r| <= |members|
    ensures forall k :: 0 <= k < |r| ==> r[k] in members && r[k] < |doc.controls| && TagName(doc.controls[r[k]].tag) == tag
    decreases |members|
  {
    if members == [] then []
    else
      var prefix := MembersWithTag(doc, members[..|members| - 1], tag);
      var last := members[|members| - 1];
      if TagName(doc.controls[last].tag) == tag then prefix + [last] else prefix
  }

  /** A CSS type selector must be an identifier, and a word that starts with a
      digit is not one: `querySelectorAll` throws a syntax error. */
  predicate IsTypeSelector(tag: string) {
    |tag| > 0 && !IsDigit(tag[0])
  }

  datatype Resolution = Found(control: nat) | OutOfRange | InvalidSelector

  /** Content.js:279-289. The container index is checked before the tag is
      used as a selector, so an invalid tag only throws for a container that
      exists. */
  function Resolve(doc: Document, a: Address): (r: Resolution)
    requires WellFormed(doc)
    ensures r.Found? ==> r.control < |doc.controls| && TagName(doc.controls[r.control].tag) == a.tag
    ensures r.Found? ==> a.container < |Containers(doc, a.kind)| && r.control in Containers(doc, a.kind)[a.container].members
    ensures r.InvalidSelector? <==> a.container < |Containers(doc, a.kind)| && !IsTypeSelector(a.tag)
  {
    var containers := Containers(doc, a.kind);
    if a.container >= |containers| then OutOfRange
    else if !IsTypeSelector(a.tag) then InvalidSelector
    else
      var elements := MembersWithTag(doc, containers[a.container].members, a.tag);
      if a.index >= |elements| then OutOfRange else Found(elements[a.index])
  }

  /** The lookup in a container that exists, for a tag that is a selector. */
  lemma ResolveAt(doc: Document, a: Address)
    requires WellFormed(doc) && a.container < |Containers(doc, a.kind)| && IsTypeSelector(a.tag)
    ensures var elements := MembersWithTag(doc, Containers(doc, a.kind)[a.container].members, a.tag);
            Resolve(doc, a) == if a.index < |elements| then Found(elements[a.index]) else OutOfRange
  {
  }

  // ---------------------------------------------------------------------
  // Rank among same-tag controls

  lemma {:induction false} MembersWithTagPrefix(doc: Document, members: seq<nat>, tag: string, p: nat)
    requires MembersInRange(doc, members) && p <= |members|
    ensures MembersWithTag(doc, members[..p], tag) <= MembersWithTag(doc, members, tag)
    decreases |members|
  {
    if p < |members| {
      var init := members[..|members| - 1];
      assert init[..p] == members[..p];
      MembersWithTagPrefix(doc, init, tag, p);
    } else {
      assert members[..p] == members;
    }
  }

  lemma {:induction false} MembersWithTagOrdered(doc: Document, members: seq<nat>, tag: string)
    requires InDocumentOrder(members, |doc.controls|)
    ensures InDocumentOrder(MembersWithTag(doc, members, tag), |doc.controls|)
    decreases |members|
  {
    if members != [] {
      var init := members[..|members| - 1];
      MembersWithTagOrdered(doc, init, tag);
      var prefix := MembersWithTag(doc, init, tag);
      forall k | 0 <= k < |prefix| ensures prefix[k] < members[|members| - 1] {
        var i :| 0 <= i < |init| && init[i] == prefix[k];
      }
    }
  }

  /** Only a container whose members all carry `tag` keeps all of them. */
  lemma {:induction false} MembersWithTagKeepsAll(doc: Document, members: seq<nat>, tag: string)
    requires MembersInRange(doc, members)
    ensures |MembersWithTag(doc, members, tag)| == |members|
        <==> forall i :: 0 <= i < |members| ==> TagName(doc.controls[members[i]].tag) == tag
    ensures (forall i :: 0 <= i < |members| ==> TagName(doc.controls[members[i]].tag) == tag)
        ==> MembersWithTag(doc, members, tag) == members
    decreases |members|
  {
    if members != [] {
      var init := members[..|members| - 1];
      var last := members[|members| - 1];
      MembersWithTagKeepsAll(doc, init, tag);
      var prefix := MembersWithTag(doc, init, tag);
      assert forall i :: 0 <= i < |init| ==> init[i] == members[i];
      if TagName(doc.controls[last].tag) == tag {
        assert MembersWithTag(doc, members, tag) == prefix + [last];
        PrefixSnoc(members, |members| - 1);
      } else {
        assert MembersWithTag(doc, members, tag) == prefix;
        assert |prefix| < |members|;
      }
    }
  }

  /** The control at position `j` of a container is the one with index
      "number of same-tag controls before it" among the container's controls
      of its tag. */
  lemma RankFindsControl(doc: Document, members: seq<nat>, j: nat)
    requires MembersInRange(doc, members) && j < |members|
    ensures var tag := TagName(doc.controls[members[j]].tag);
            var rank := |MembersWithTag(doc, members[..j], tag)|;
            rank < |MembersWithTag(doc, members, tag)| && MembersWithTag(doc, members, tag)[rank] == members[j]
  {
    var tag := TagName(doc.controls[members[j]].tag);
    assert members[..j + 1][..j] == members[..j];
    MembersWithTagPrefix(doc, members, tag, j + 1);
  }

  /** The exact condition under which a path written by discovery resolves to
      the control it was written for: every control before it in its container
      has its tag. Otherwise the path is out of range or names a later control
      of the same tag. */
  lemma ResolveEncodedIff(doc: Document, kind: ContainerKind, container: nat, j: nat)
    requires WellFormed(doc)
    requires container < |Containers(doc, kind)|
    requires j < |Containers(doc, kind)[container].members|
    ensures var members := Containers(doc, kind)[container].members;
            var c := doc.controls[members[j]];
            (Resolve(doc, Address(kind, container, TagName(c.tag), j)) == Found(members[j]))
            <==> (forall i :: 0 <= i < j ==> doc.controls[members[i]].tag == c.tag)
  {
    var members := Containers(doc, kind)[container].members;
    var t := doc.controls[members[j]].tag;
    var tag := TagName(t);
    var before := members[..j];
    var a := Address(kind, container, tag, j);
    ResolveAt(doc, a);
    SameTagBefore(doc, members, j);
    RankFindsControl(doc, members, j);
    MembersWithTagKeepsAll(doc, before, tag);
    if forall i :: 0 <= i < j ==> doc.controls[members[i]].tag == t {
      assert |MembersWithTag(doc, before, tag)| == j;
      assert Resolve(doc, a) == Found(members[j]);
    } else {
      assert |MembersWithTag(doc, before, tag)| < j;
      RankBelowMisses(doc, members, j);
      assert Resolve(doc, a) != Found(members[j]);
    }
  }

  lemma SameTagBefore(doc: Document, members: seq<nat>, j: nat)
    requires MembersInRange(doc, members) && j < |members|
    ensures var t := doc.controls[members[j]].tag;
            (forall i :: 0 <= i < j ==> doc.controls[members[i]].tag == t)
            <==> (forall i :: 0 <= i < |members[..j]| ==> TagName(doc.controls[members[..j][i]].tag) == TagName(t))
  {
    var t := doc.controls[members[j]].tag;
    forall i | 0 <= i < j ensures (doc.controls[members[i]].tag == t) == (TagName(doc.controls[members[..j][i]].tag) == TagName(t)) {
      TagNameInjective(doc.controls[members[i]].tag, t);
    }
  }

  /** A control with a different-tag control before it is not found at its
      own position among the same-tag controls. */
  lemma RankBelowMisses(doc: Document, members: seq<nat>, j: nat)
    requires InDocumentOrder(members, |doc.controls|) && j < |members|
    requires var tag := TagName(doc.controls[members[j]].tag);
             |MembersWithTag(doc, members[..j], tag)| < j
    ensures var tag := TagName(doc.controls[members[j]].tag);
            var elements := MembersWithTag(doc, members, tag);
            j < |elements| ==> elements[j] != members[j]
  {
    var tag := TagName(doc.controls[members[j]].tag);
    var elements := MembersWithTag(doc, members, tag);
    var rank := |MembersWithTag(doc, members[..j], tag)|;
    RankFindsControl(doc, members, j);
    if j < |elements| {
      MembersWithTagOrdered(doc, members, tag);
      assert elements[rank] < elements[j];
    }
  }

  /** Addressing a control by its rank among the container's members with
      the same tag always finds that control again. */
  lemma ResolveByRank(doc: Document, kind: ContainerKind, container: nat, j: nat)
    requires WellFormed(doc)
    requires container < |Containers(doc, kind)|
    requires j < |Containers(doc, kind)[container].members|
    ensures var members := Containers(doc, kind)[container].members;
            var tag := TagName(doc.controls[members[j]].tag);
            Resolve(doc, Address(kind, container, tag, |MembersWithTag(doc, members[..j], tag)|)) == Found(members[j])
  {
    RankFindsControl(doc, Containers(doc, kind)[container].members, j);
  }

  // ---------------------------------------------------------------------
  // A concrete case: one form holding an input and two selects

  function Plain(tag: Tag): Control {
    Control(tag, if tag == Input then "text" else TagName(tag), "", "", "", None, [])
  }

  function InputThenSelects(): Document {
    Document([Plain(Input), Plain(Select), Plain(Select)], [Container("", "", "", [0, 1, 2])], [], map[])
  }

  /** At fill time the form's `select` elements are the two selects. */
  lemma SelectsOfInputThenSelects(doc: Document, tag: string)
    requires doc == InputThenSelects() && tag == "select"
    ensures WellFormed(doc)
    ensures MembersWithTag(doc, doc.forms[0].members, tag) == [1, 2]
  {
    var ms := doc.forms[0].members;
    assert ms == [0, 1, 2];
    assert ms[..2] == [0, 1] && ms[..2][..1] == [0] && ms[..1] == [0];
    assert MembersWithTag(doc, [0], tag) == [];
    assert MembersWithTag(doc, [0, 1], tag) == [1];
  }

  /** Discovery writes `form[0]-select[1]` for the first select, which sits at
      position 1 of the form; at fill time `select[1]` is the second select. */
  lemma FirstSelectPathHitsSecondSelect(doc: Document, a: Address)
    requires doc == InputThenSelects() && a == Address(FormKind, 0, "select", 1)
    ensures WellFormed(doc) && Resolve(doc, a) == Found(2)
  {
    SelectsOfInputThenSelects(doc, a.tag);
    ResolveAt(doc, a);
  }

  /** The second select is written as `form[0]-select[2]`, which resolves to
      nothing. */
  lemma SecondSelectPathOutOfRange(doc: Document, a: Address)
    requires doc == InputThenSelects() && a == Address(FormKind, 0, "select", 2)
    ensures WellFormed(doc) && Resolve(doc, a) == OutOfRange
  {
    SelectsOfInputThenSelects(doc, a.tag);
    ResolveAt(doc, a);
  }
}
