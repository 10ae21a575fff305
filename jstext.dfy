/** The JavaScript value and string primitives the content script relies on:
    truthiness, ASCII lower-casing, `trim`, `includes`, `startsWith`, `split`,
    `String(n)` and `parseInt` on decimal digit strings. */
module JsText {

  datatype Option<T> = None | Some(value: T)

  /** A value as it arrives in a recommendation object from the analysis
      service. `Missing` stands for both `undefined` and `null`, which behave
      alike everywhere the content script looks at them. Numbers are integers. */
  datatype JsValue = Missing | Bool(b: bool) | Number(n: int) | Str(s: string)

  /** JavaScript truthiness (`!v` is false). */
  predicate Truthy(v: JsValue) {
    match v
    case Missing => false
    case Bool(b) => b
    case Number(n) => n != 0
    case Str(s) => s != ""
  }

  predicate IsDigit(c: char) { '0' <= c <= '9' }

  predicate IsUpper(c: char) { 'A' <= c <= 'Z' }

  /** The regular-expression class `\w`. */
  predicate IsWordChar(c: char) {
    'a' <= c <= 'z' || IsUpper(c) || IsDigit(c) || c == '_'
  }

  /** The whitespace `String.prototype.trim` removes, restricted to the
      characters below U+0100. */
  predicate IsSpace(c: char) {
    c == ' ' || c == '\t' || c == '\n' || c == '\r' || c == '\U{B}' || c == '\U{C}' || c == '\U{A0}'
  }

  /** `toLowerCase`, on ASCII letters only. */
  function LowerChar(c: char): (r: char)
    ensures !IsUpper(r)
    ensures IsUpper(c) ==> r as int == c as int + 32
    ensures !IsUpper(c) ==> r == c
  {
    if IsUpper(c) then (c as int + 32) as char else c
  }

  function Lower(s: string): (r: string)
    ensures |r| == |s|
    ensures forall i :: 0 <= i < |s| ==> r[i] == LowerChar(s[i])
  {
    seq(|s|, i requires 0 <= i < |s| => LowerChar(s[i]))
  }

  lemma LowerOfLowerCase(s: string)
    requires forall i :: 0 <= i < |s| ==> !IsUpper(s[i])
    ensures Lower(s) == s
  {
  }

  function TrimStart(s: string): (r: string)
    ensures |r| <= |s| && r == s[|s| - |r|..]
    ensures r != [] ==> !IsSpace(r[0])
    ensures forall i :: 0 <= i < |s| - |r| ==> IsSpace(s[i])
    decreases |s|
  {
    if |s| > 0 && IsSpace(s[0]) then TrimStart(s[1..]) else s
  }

  function TrimEnd(s: string): (r: string)
    ensures |r| <= |s| && r == s[..|r|]
    ensures r != [] ==> !IsSpace(r[|r| - 1])
    ensures forall i :: |r| <= i < |s| ==> IsSpace(s[i])
    decreases |s|
  {
    if |s| > 0 && IsSpace(s[|s| - 1]) then TrimEnd(s[..|s| - 1]) else s
  }

  /** `String.prototype.trim`: the result has no surrounding whitespace, and
      it is empty exactly when the input is all whitespace. */
  function Trim(s: string): (r: string)
    ensures |r| <= |s|
    ensures r != [] ==> !IsSpace(r[0]) && !IsSpace(r[|r| - 1])
    ensures r == [] <==> forall i :: 0 <= i < |s| ==> IsSpace(s[i])
  {
    TrimEnd(TrimStart(s))
  }

  predicate StartsWith(s: string, prefix: string) {
    |prefix| <= |s| && s[..|prefix|] == prefix
  }

  /** A string does not start with a prefix whose first character differs. */
  lemma FirstCharBlocksPrefix(s: string, prefix: string)
    requires |s| > 0 && |prefix| > 0 && s[0] != prefix[0]
    ensures !StartsWith(s, prefix)
  {
    if |prefix| <= |s| {
      assert s[..|prefix|][0] != prefix[0];
    }
  }

  predicate OccursAt(s: string, needle: string, i: nat) {
    i + |needle| <= |s| && s[i..i + |needle|] == needle
  }

  /** `s.includes(needle)`: some position of `s` starts with `needle`. */
  predicate Includes(s: string, needle: string)
    decreases |s|
  {
    StartsWith(s, needle) || (|s| > 0 && Includes(s[1..], needle))
  }

  lemma {:induction false} IncludesIffOccurs(s: string, needle: string)
    ensures Includes(s, needle) <==> exists i: nat :: OccursAt(s, needle, i)
    decreases |s|
  {
    if |s| > 0 {
      IncludesIffOccurs(s[1..], needle);
      if StartsWith(s, needle) {
        assert OccursAt(s, needle, 0);
      }
      if Includes(s[1..], needle) {
        var i: nat :| OccursAt(s[1..], needle, i);
        assert OccursAt(s, needle, i + 1);
      }
      if !StartsWith(s, needle) && exists i: nat :: OccursAt(s, needle, i) {
        var i: nat :| OccursAt(s, needle, i);
        assert i != 0;
        assert OccursAt(s[1..], needle, i - 1);
      }
    } else {
      if exists i: nat :: OccursAt(s, needle, i) {
        var i: nat :| OccursAt(s, needle, i);
        assert i == 0 && needle == [];
      }
      if Includes(s, needle) {
        assert OccursAt(s, needle, 0);
      }
    }
  }

  // ---------------------------------------------------------------------
  // Decimal numerals

  function DigitChar(d: nat): (c: char)
    requires d < 10
    ensures IsDigit(c)
  {
    ('0' as int + d) as char
  }

  function DigitValue(c: char): nat
    requires IsDigit(c)
  {
    c as int - '0' as int
  }

  predicate AllDigits(s: string) {
    forall i :: 0 <= i < |s| ==> IsDigit(s[i])
  }

  /** `String(n)` for a natural number: its shortest decimal numeral. */
  function NatToDecimal(n: nat): (r: string)
    ensures |r| >= 1 && AllDigits(r)
    ensures |r| > 1 ==> r[0] != '0'
    decreases n
  {
    if n < 10 then [DigitChar(n)] else NatToDecimal(n / 10) + [DigitChar(n % 10)]
  }

  /** `parseInt(s)` for a non-empty string of decimal digits. */
  function DecimalValue(s: string): nat
    requires AllDigits(s)
    decreases |s|
  {
    if s == [] then 0 else DecimalValue(s[..|s| - 1]) * 10 + DigitValue(s[|s| - 1])
  }

  lemma {:induction false} DecimalRoundTrip(n: nat)
    ensures DecimalValue(NatToDecimal(n)) == n
    decreases n
  {
    if n >= 10 {
      DecimalRoundTrip(n / 10);
      var s := NatToDecimal(n);
      assert s[..|s| - 1] == NatToDecimal(n / 10);
    }
  }

  /** `String(v)` for the values that can reach an assignment to a control's
      `value` property. */
  function ToJsString(v: JsValue): string {
    match v
    case Missing => "undefined"
    case Bool(b) => if b then "true" else "false"
    case Number(n) => if n < 0 then "-" + NatToDecimal(-n) else NatToDecimal(n)
    case Str(s) => s
  }

  /** A truthy value never converts to the empty string. */
  lemma TruthyStringNonEmpty(v: JsValue)
    requires Truthy(v)
    ensures ToJsString(v) != ""
  {
  }

  /** `s.length`: JavaScript strings count UTF-16 code units, so a character
      above U+FFFF counts twice. */
  function Utf16Length(s: string): (n: nat)
    ensures |s| <= n <= 2 * |s|
    decreases |s|
  {
    if s == [] then 0 else Utf16Length(s[..|s| - 1]) + (if s[|s| - 1] as int > 0xFFFF then 2 else 1)
  }

  /** Below U+10000 the two lengths agree. */
  lemma {:induction false} Utf16LengthBasic(s: string)
    requires forall i :: 0 <= i < |s| ==> s[i] as int <= 0xFFFF
    ensures Utf16Length(s) == |s|
    decreases |s|
  {
    if s != [] {
      Utf16LengthBasic(s[..|s| - 1]);
    }
  }

  // ---------------------------------------------------------------------
  // String.prototype.split with a one-character separator

  function Occurrences(s: string, c: char): nat
    decreases |s|
  {
    if s == [] then 0 else (if s[0] == c then 1 else 0) + Occurrences(s[1..], c)
  }

  /** `s.split(sep)`: one piece more than there are separators, none of them
      holding the separator. */
  function Split(s: string, sep: char): (parts: seq<string>)
    ensures |parts| == Occurrences(s, sep) + 1
    ensures forall k :: 0 <= k < |parts| ==> sep !in parts[k]
    decreases |s|
  {
    if |s| == 0 then [""]
    else
      var rest := Split(s[1..], sep);
      if s[0] == sep then [""] + rest else [[s[0]] + rest[0]] + rest[1..]
  }

  lemma {:induction false} SplitSeparatorFree(s: string, sep: char)
    requires sep !in s
    ensures Split(s, sep) == [s]
    decreases |s|
  {
    if |s| > 0 {
      assert s[0] != sep;
      SplitSeparatorFree(s[1..], sep);
      assert [s[0]] + s[1..] == s;
    }
  }

  lemma {:induction false} SplitTwoPieces(a: string, b: string, sep: char)
    requires sep !in a && sep !in b
    ensures Split(a + [sep] + b, sep) == [a, b]
    decreases |a|
  {
    var s := a + [sep] + b;
    if |a| == 0 {
      assert s[1..] == b;
      SplitSeparatorFree(b, sep);
    } else {
      assert s[1..] == a[1..] + [sep] + b;
      SplitTwoPieces(a[1..], b, sep);
      assert [s[0]] + a[1..] == a;
    }
  }

  /** A prefix one element longer; the whole sequence when it reaches the end. */
  lemma PrefixSnoc<T>(s: seq<T>, i: nat)
    requires i < |s|
    ensures s[..i + 1] == s[..i] + [s[i]]
    ensures i + 1 == |s| ==> s == s[..i] + [s[i]]
  {
  }
}
