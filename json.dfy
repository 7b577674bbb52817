/** The JSON scalar grammar of RFC 8259: the literal names (section 3),
    numbers (section 6) and strings (section 7). This is the check that
    `encoding/json.Valid` performs on a HuJSON literal. */
module Json {
  import opened Bytes

  const NULL: seq<byte> := Ascii("null")
  const TRUE: seq<byte> := Ascii("true")
  const FALSE: seq<byte> := Ascii("false")

  /** The end of the run of digits that starts at `i`. */
  function DigitsEnd(s: seq<byte>, i: nat): (j: nat)
    requires i <= |s|
    ensures i <= j <= |s|
    ensures forall k :: i <= k < j ==> IsDigit(s[k])
    ensures j == |s| || !IsDigit(s[j])
    decreases |s| - i
  {
    if i < |s| && IsDigit(s[i]) then DigitsEnd(s, i + 1) else i
  }

  /** The end of `int = zero / ( digit1-9 *DIGIT )` starting at `i`, or -1. */
  function IntEnd(s: seq<byte>, i: nat): (j: int)
    requires i <= |s|
    ensures j == -1 || i < j <= |s|
  {
    if i < |s| && s[i] == ZERO then i + 1
    else if i < |s| && IsDigit(s[i]) then DigitsEnd(s, i + 1)
    else -1
  }

  /** The end of the optional `frac = decimal-point 1*DIGIT` starting at `i`, or -1. */
  function FracEnd(s: seq<byte>, i: nat): (j: int)
    requires i <= |s|
    ensures j == -1 || i <= j <= |s|
  {
    if i < |s| && s[i] == DOT then
      var j := DigitsEnd(s, i + 1);
      if j > i + 1 then j else -1
    else i
  }

  predicate IsExponentMark(c: byte) {
    c == 'e' as int || c == 'E' as int
  }

  /** The end of the optional `exp = e [ minus / plus ] 1*DIGIT` starting at `i`, or -1. */
  function ExpEnd(s: seq<byte>, i: nat): (j: int)
    requires i <= |s|
    ensures j == -1 || i <= j <= |s|
  {
    if i < |s| && IsExponentMark(s[i]) then
      var k := if i + 1 < |s| && (s[i + 1] == MINUS || s[i + 1] == PLUS) then i + 2 else i + 1;
      var j := DigitsEnd(s, k);
      if j > k then j else -1
    else i
  }

  /** `number = [ minus ] int [ frac ] [ exp ]`, covering all of `s`. */
  predicate IsNumber(s: seq<byte>) {
    var i := if |s| > 0 && s[0] == MINUS then 1 else 0;
    var j := IntEnd(s, i);
    j >= 0 &&
    var k := FracEnd(s, j);
    k >= 0 && ExpEnd(s, k) == |s|
  }

  predicate IsHexDigit(c: byte) {
    IsDigit(c) || 'a' as int <= c <= 'f' as int || 'A' as int <= c <= 'F' as int
  }

  /** The bytes that may follow a backslash on their own: `" \ / b f n r t`. */
  predicate IsShortEscape(c: byte) {
    c == QUOTE || c == BACKSLASH || c == SLASH || c == 'b' as int || c == 'f' as int ||
    c == 'n' as int || c == 'r' as int || c == 't' as int
  }

  /** `*char`: the body of a string between its quotation marks. */
  predicate IsChars(t: seq<byte>)
    decreases |t|
  {
    if t == [] then true
    else if t[0] == BACKSLASH then
      (|t| >= 2 && IsShortEscape(t[1]) && IsChars(t[2..])) ||
      (|t| >= 6 && t[1] == 'u' as int && IsHexDigit(t[2]) && IsHexDigit(t[3]) &&
       IsHexDigit(t[4]) && IsHexDigit(t[5]) && IsChars(t[6..]))
    else t[0] != QUOTE && t[0] >= 0x20 && IsChars(t[1..])
  }

  /** `string = quotation-mark *char quotation-mark`. */
  predicate IsString(s: seq<byte>) {
    |s| >= 2 && s[0] == QUOTE && s[|s| - 1] == QUOTE && IsChars(s[1..|s| - 1])
  }

  /** One JSON scalar with no surrounding whitespace. */
  predicate IsScalar(s: seq<byte>) {
    s == NULL || s == TRUE || s == FALSE || IsNumber(s) || IsString(s)
  }

  /** A number starts with a minus sign or a digit and ends with a digit. */
  lemma NumberShape(s: seq<byte>)
    requires IsNumber(s)
    ensures |s| > 0 && (s[0] == MINUS || IsDigit(s[0]))
    ensures IsDigit(s[|s| - 1])
  {
    var i := if |s| > 0 && s[0] == MINUS then 1 else 0;
    var j := IntEnd(s, i);
    var k := FracEnd(s, j);
    assert IsDigit(s[j - 1]);
    assert k > j ==> IsDigit(s[k - 1]);
  }
}
