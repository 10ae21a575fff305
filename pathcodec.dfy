/** The positional address strings discovery attaches to each control
    (`form[0]-input[3]`, `div[2]-select[1]`) and the way the autofill pass
    reads them back. Decoding follows content.js exactly: the string is split
    on every `-` and must give exactly two pieces; the first piece must start
    with `form` or `div`, and the unanchored patterns `form\[(\d+)\]`,
    `div\[(\d+)\]` and `(\w+)\[(\d+)\]` are searched for their leftmost match
    inside each piece, so text around the bracketed parts is ignored. */
module PathCodec {
  import opened JsText

  datatype ContainerKind = FormKind | DivKind

  function KindName(k: ContainerKind): string {
    match k
    case FormKind => "form"
    case DivKind => "div"
  }

  /** A decoded path: container kind and index, lower-cased tag and element
      index. */
  datatype Address = Address(kind: ContainerKind, container: nat, tag: string, index: nat)

  /** A tag as discovery writes it: lower-case word characters. */
  predicate IsTagName(t: string) {
    |t| > 0 && forall i :: 0 <= i < |t| ==> IsWordChar(t[i]) && !IsUpper(t[i])
  }

  /** `form[i]` or `div[i]`. */
  function EncodeContainer(kind: ContainerKind, container: nat): string {
    KindName(kind) + "[" + NatToDecimal(container) + "]"
  }

  /** `tag[j]`. */
  function EncodeElement(tag: string, index: nat): string {
    tag + "[" + NatToDecimal(index) + "]"
  }

  /** The path discovery writes (content.js:159, 218): it starts with the
      container's kind name and ends with the element's closing bracket. */
  function EncodePath(kind: ContainerKind, container: nat, tag: string, index: nat): (path: string)
    ensures StartsWith(path, KindName(kind))
    ensures path[|path| - 1] == ']'
  {
    var path := EncodeContainer(kind, container) + "-" + EncodeElement(tag, index);
    assert path[..|KindName(kind)|] == KindName(kind);
    path
  }

  // ---------------------------------------------------------------------
  // Regular-expression matching, position by position

  /** End of the run of decimal digits that starts at `i`. */
  function DigitRunEnd(s: string, i: nat): (e: nat)
    requires i <= |s|
    ensures i <= e <= |s|
    ensures forall k :: i <= k < e ==> IsDigit(s[k])
    ensures e < |s| ==> !IsDigit(s[e])
    decreases |s| - i
  {
    if i < |s| && IsDigit(s[i]) then DigitRunEnd(s, i + 1) else i
  }

  /** End of the run of `\w` characters that starts at `i`. */
  function WordRunEnd(s: string, i: nat): (e: nat)
    requires i <= |s|
    ensures i <= e <= |s|
    ensures forall k :: i <= k < e ==> IsWordChar(s[k])
    ensures e < |s| ==> !IsWordChar(s[e])
    decreases |s| - i
  {
    if i < |s| && IsWordChar(s[i]) then WordRunEnd(s, i + 1) else i
  }

  /** `\[(\d+)\]` matched at position `i`: the value of the digits. The digit
      run is greedy, and backing off cannot help since a digit is never `]`. */
  function BracketedNumberAt(s: string, i: nat): Option<nat>
    requires i <= |s|
  {
    if i < |s| && s[i] == '[' then
      var e := DigitRunEnd(s, i + 1);
      if e > i + 1 && e < |s| && s[e] == ']' then Some(DecimalValue(s[i + 1..e])) else None
    else None
  }

  /** `keyword\[(\d+)\]` matched at position `i`. */
  function KeywordIndexAt(s: string, keyword: string, i: nat): Option<nat>
    requires i <= |s|
  {
    if StartsWith(s[i..], keyword) then BracketedNumberAt(s, i + |keyword|) else None
  }

  /** The leftmost match of `keyword\[(\d+)\]` at or after position `i`. */
  function SearchKeywordIndex(s: string, keyword: string, i: nat): (r: Option<nat>)
    requires i <= |s|
    ensures r.Some? ==> exists p :: i <= p <= |s| && KeywordIndexAt(s, keyword, p) == r
                                    && forall q :: i <= q < p ==> KeywordIndexAt(s, keyword, q).None?
    ensures r.None? ==> forall p :: i <= p <= |s| ==> KeywordIndexAt(s, keyword, p).None?
    decreases |s| - i
  {
    match KeywordIndexAt(s, keyword, i)
    case Some(n) => Some(n)
    case None =>
      if i < |s| then
        var r := SearchKeywordIndex(s, keyword, i + 1);
        assert r.Some? ==> exists p :: i <= p <= |s| && KeywordIndexAt(s, keyword, p) == r
                                       && forall q :: i <= q < p ==> KeywordIndexAt(s, keyword, q).None? by {
          if r.Some? {
            var p :| i + 1 <= p <= |s| && KeywordIndexAt(s, keyword, p) == r
                     && forall q :: i + 1 <= q < p ==> KeywordIndexAt(s, keyword, q).None?;
            assert forall q :: i <= q < p ==> KeywordIndexAt(s, keyword, q).None?;
          }
        }
        r
      else None
  }

  /** `(\w+)\[(\d+)\]` matched at position `i`: the word is greedy, and backing
      off cannot help since a word character is never `[`. */
  function TaggedIndexAt(s: string, i: nat): Option<(string, nat)>
    requires i <= |s|
  {
    if i < |s| && IsWordChar(s[i]) then
      var e := WordRunEnd(s, i);
      match BracketedNumberAt(s, e)
      case Some(n) => Some((s[i..e], n))
      case None => None
    else None
  }

  /** The leftmost match of `(\w+)\[(\d+)\]` at or after position `i`. */
  function SearchTaggedIndex(s: string, i: nat): (r: Option<(string, nat)>)
    requires i <= |s|
    ensures r.Some? ==> |r.value.0| > 0 && forall k :: 0 <= k < |r.value.0| ==> IsWordChar(r.value.0[k])
    ensures r.Some? ==> exists p :: i <= p <= |s| && TaggedIndexAt(s, p) == r
                                    && forall q :: i <= q < p ==> TaggedIndexAt(s, q).None?
    ensures r.None? ==> forall p :: i <= p <= |s| ==> TaggedIndexAt(s, p).None?
    decreases |s| - i
  {
    match TaggedIndexAt(s, i)
    case Some(m) => Some(m)
    case None =>
      if i < |s| then
        var r := SearchTaggedIndex(s, i + 1);
        assert r.Some? ==> exists p :: i <= p <= |s| && TaggedIndexAt(s, p) == r
                                       && forall q :: i <= q < p ==> TaggedIndexAt(s, q).None? by {
          if r.Some? {
            var p :| i + 1 <= p <= |s| && TaggedIndexAt(s, p) == r
                     && forall q :: i + 1 <= q < p ==> TaggedIndexAt(s, q).None?;
            assert forall q :: i <= q < p ==> TaggedIndexAt(s, q).None?;
          }
        }
        r
      else None
  }

  /** The container part: `form…` is searched for `form[n]`, `div…` for
      `div[n]`; anything else has no container. */
  function DecodeContainer(head: string): (r: Option<(ContainerKind, nat)>)
    ensures r.Some? ==> StartsWith(head, KindName(r.value.0))
  {
    if StartsWith(head, "form") then
      match SearchKeywordIndex(head, "form", 0)
      case Some(n) => Some((FormKind, n))
      case None => None
    else if StartsWith(head, "div") then
      match SearchKeywordIndex(head, "div", 0)
      case Some(n) => Some((DivKind, n))
      case None => None
    else None
  }

  /** Reading a path back; `None` is every case the autofill pass skips with
      `continue` before touching the document. A decoded path always had
      exactly one `-`, and its tag is made of lower-case word characters. */
  function DecodePath(path: string): (r: Option<Address>)
    ensures r.Some? ==> Occurrences(path, '-') == 1
    ensures r.Some? ==> StartsWith(path, KindName(r.value.kind))
    ensures r.Some? ==> IsTagName(r.value.tag)
  {
    var parts := Split(path, '-');
    if |parts| != 2 then None
    else
      match DecodeContainer(parts[0])
      case None => None
      case Some((kind, container)) =>
        match SearchTaggedIndex(parts[1], 0)
        case None => None
        case Some((tag, index)) =>
          assert path == parts[0] + "-" + parts[1] by { SplitTwoPiecesJoin(path); }
          Some(Address(kind, container, Lower(tag), index))
  }

  lemma {:induction false} SplitTwoPiecesJoin(path: string)
    requires |Split(path, '-')| == 2
    ensures path == Split(path, '-')[0] + "-" + Split(path, '-')[1]
    decreases |path|
  {
    var parts := Split(path, '-');
    assert |path| > 0;
    var rest := Split(path[1..], '-');
    if path[0] == '-' {
      assert |rest| == 1;
      SplitOnePieceJoin(path[1..]);
    } else {
      SplitTwoPiecesJoin(path[1..]);
      assert path == [path[0]] + path[1..];
    }
  }

  lemma {:induction false} SplitOnePieceJoin(s: string)
    requires |Split(s, '-')| == 1
    ensures s == Split(s, '-')[0]
    decreases |s|
  {
    if |s| > 0 {
      assert s[0] != '-';
      SplitOnePieceJoin(s[1..]);
      assert s == [s[0]] + s[1..];
    }
  }

  // ---------------------------------------------------------------------
  // Round trip

  lemma {:induction false} DigitRunEndIs(s: string, i: nat, e: nat)
    requires i <= e <= |s|
    requires forall k :: i <= k < e ==> IsDigit(s[k])
    requires e < |s| ==> !IsDigit(s[e])
    ensures DigitRunEnd(s, i) == e
    decreases e - i
  {
    if i < e {
      DigitRunEndIs(s, i + 1, e);
    }
  }

  lemma {:induction false} WordRunEndIs(s: string, i: nat, e: nat)
    requires i <= e <= |s|
    requires forall k :: i <= k < e ==> IsWordChar(s[k])
    requires e < |s| ==> !IsWordChar(s[e])
    ensures WordRunEnd(s, i) == e
    decreases e - i
  {
    if i < e {
      WordRunEndIs(s, i + 1, e);
    }
  }

  /** `[n]` written with `NatToDecimal` reads back as `n`. */
  lemma BracketedNumberRoundTrip(p: string, n: nat, q: string)
    ensures BracketedNumberAt(p + "[" + NatToDecimal(n) + "]" + q, |p|) == Some(n)
  {
    var d := NatToDecimal(n);
    var s := p + "[" + d + "]" + q;
    var e := |p| + 1 + |d|;
    assert s[e] == ']';
    forall k | |p| + 1 <= k < e ensures IsDigit(s[k]) {
      assert s[k] == d[k - |p| - 1];
    }
    DigitRunEndIs(s, |p| + 1, e);
    assert s[|p| + 1..e] == d;
    DecimalRoundTrip(n);
  }

  lemma DecimalHasNoDash(n: nat)
    ensures '-' !in NatToDecimal(n)
  {
    var d := NatToDecimal(n);
    forall k | 0 <= k < |d| ensures d[k] != '-' {
      assert IsDigit(d[k]);
    }
  }

  /** `keyword[n]…` is found by the search for `keyword\[(\d+)\]` at its start. */
  lemma KeywordIndexAtStart(kw: string, n: nat, rest: string)
    ensures StartsWith(kw + "[" + NatToDecimal(n) + "]" + rest, kw)
    ensures SearchKeywordIndex(kw + "[" + NatToDecimal(n) + "]" + rest, kw, 0) == Some(n)
  {
    var head := kw + "[" + NatToDecimal(n) + "]" + rest;
    BracketedNumberRoundTrip(kw, n, rest);
    assert head[0..] == head;
    assert head[..|kw|] == kw;
    assert KeywordIndexAt(head, kw, 0) == Some(n);
  }

  lemma ContainerHalfDecodes(kind: ContainerKind, n: nat, rest: string)
    requires '-' !in rest
    ensures '-' !in KindName(kind) + "[" + NatToDecimal(n) + "]" + rest
    ensures DecodeContainer(KindName(kind) + "[" + NatToDecimal(n) + "]" + rest) == Some((kind, n))
  {
    var kw := KindName(kind);
    var head := kw + "[" + NatToDecimal(n) + "]" + rest;
    DecimalHasNoDash(n);
    assert '-' !in kw;
    KeywordIndexAtStart(kw, n, rest);
    if kind == DivKind {
      FirstCharBlocksPrefix(head, "form");
    }
  }

  lemma TagHalfDecodes(tag: string, n: nat, rest: string)
    requires IsTagName(tag) && '-' !in rest
    ensures '-' !in tag + "[" + NatToDecimal(n) + "]" + rest
    ensures SearchTaggedIndex(tag + "[" + NatToDecimal(n) + "]" + rest, 0) == Some((tag, n))
  {
    var tail := tag + "[" + NatToDecimal(n) + "]" + rest;
    DecimalHasNoDash(n);
    assert forall k :: 0 <= k < |tag| ==> tag[k] != '-';
    assert tail[|tag|] == '[';
    WordRunEndIs(tail, 0, |tag|);
    BracketedNumberRoundTrip(tag, n, rest);
    assert tail[0..|tag|] == tag;
  }

  lemma DecodeFromHalves(head: string, tail: string, kind: ContainerKind, container: nat, tag: string, index: nat)
    requires '-' !in head && '-' !in tail
    requires DecodeContainer(head) == Some((kind, container))
    requires SearchTaggedIndex(tail, 0) == Some((tag, index))
    ensures DecodePath(head + "-" + tail) == Some(Address(kind, container, Lower(tag), index))
  {
    SplitTwoPieces(head, tail, '-');
  }

  /** A path whose two halves carry extra text after the bracketed parts
      still decodes to the first bracketed parts: the patterns are unanchored,
      the leftmost match wins and a second bracketed part is never read. */
  lemma DecodeIgnoresTrailingText(kind: ContainerKind, container: nat, tag: string, index: nat, x: string, y: string)
    requires IsTagName(tag) && '-' !in x && '-' !in y
    ensures DecodePath((KindName(kind) + "[" + NatToDecimal(container) + "]" + x) + "-" + (tag + "[" + NatToDecimal(index) + "]" + y))
         == Some(Address(kind, container, tag, index))
  {
    ContainerHalfDecodes(kind, container, x);
    TagHalfDecodes(tag, index, y);
    DecodeFromHalves(KindName(kind) + "[" + NatToDecimal(container) + "]" + x, tag + "[" + NatToDecimal(index) + "]" + y,
                     kind, container, tag, index);
    LowerOfLowerCase(tag);
  }

  /** With a tag name, a written path splits on `-` into exactly its
      container part and its element part. */
  lemma EncodePathSplits(kind: ContainerKind, container: nat, tag: string, index: nat)
    requires IsTagName(tag)
    ensures Split(EncodePath(kind, container, tag, index), '-') == [EncodeContainer(kind, container), EncodeElement(tag, index)]
  {
    DecimalHasNoDash(container);
    DecimalHasNoDash(index);
    assert '-' !in KindName(kind);
    assert forall k :: 0 <= k < |tag| ==> tag[k] != '-';
    SplitTwoPieces(EncodeContainer(kind, container), EncodeElement(tag, index), '-');
  }

  /** Every path discovery writes decodes to the address it was written from. */
  lemma EncodeDecode(kind: ContainerKind, container: nat, tag: string, index: nat)
    requires IsTagName(tag)
    ensures DecodePath(EncodePath(kind, container, tag, index)) == Some(Address(kind, container, tag, index))
  {
    var head := EncodeContainer(kind, container);
    var tail := EncodeElement(tag, index);
    assert DecodeContainer(head) == Some((kind, container)) && '-' !in head by {
      ContainerHalfDecodes(kind, container, "");
      assert head + "" == head;
    }
    assert SearchTaggedIndex(tail, 0) == Some((tag, index)) && '-' !in tail by {
      TagHalfDecodes(tag, index, "");
      assert tail + "" == tail;
    }
    assert Lower(tag) == tag by {
      LowerOfLowerCase(tag);
    }
    DecodeFromHalves(head, tail, kind, container, tag, index);
  }
}
