/** Base-10 formatting and parsing of integers, as the package uses them from
    Go's `strconv`: `AppendInt`/`AppendUint` in the `Int` and `Uint` literal
    builders and `ParseUint(name, 10, 0)` when a JSON pointer indexes an array.
    Go's `uint` is taken to be 64 bits wide. */
module Decimal {
  import opened Bytes
  import opened Wrappers
  import Json

  /** 2^64: one more than the largest `uint64`. */
  const UINT64_LIMIT: nat := 0x1_0000_0000_0000_0000

  type uint64 = x: int | 0 <= x < 0x1_0000_0000_0000_0000
  type int64 = x: int | -0x8000_0000_0000_0000 <= x < 0x8000_0000_0000_0000

  predicate AllDigits(s: seq<byte>) {
    forall i :: 0 <= i < |s| ==> IsDigit(s[i])
  }

  /** The decimal ASCII digits of `n`, without leading zeros. */
  function FormatUint(n: nat): (r: seq<byte>)
    ensures |r| > 0 && AllDigits(r)
    ensures r[0] == ZERO <==> n == 0
    ensures n == 0 ==> r == [ZERO]
    decreases n
  {
    if n < 10 then [ZERO + n] else FormatUint(n / 10) + [ZERO + n % 10]
  }

  /** The decimal ASCII of a signed integer: a minus sign, then the digits of its magnitude. */
  function FormatInt(v: int): seq<byte> {
    if v < 0 then [MINUS] + FormatUint(-v) else FormatUint(v)
  }

  /** The number a run of decimal digits denotes. */
  function DigitsValue(s: seq<byte>): nat
    requires AllDigits(s)
  {
    if s == [] then 0 else DigitsValue(s[..|s| - 1]) * 10 + (s[|s| - 1] - ZERO)
  }

  /** `strconv.ParseUint(s, 10, 64)`: a non-empty run of decimal digits whose
      value fits in 64 bits; leading zeros are accepted. */
  function ParseUint(s: seq<byte>): (r: Option<nat>)
    ensures r.Some? ==> s != [] && AllDigits(s) && r.value < UINT64_LIMIT
    ensures s != [] && AllDigits(s) && DigitsValue(s) < UINT64_LIMIT ==> r == Some(DigitsValue(s))
    ensures r.Some? && (s[0] == ZERO ==> |s| == 1) ==> FormatUint(r.value) == s
  {
    if s != [] && AllDigits(s) && DigitsValue(s) < UINT64_LIMIT then
      if s[0] != ZERO || |s| == 1 then FormatDigitsValue(s); Some(DigitsValue(s))
      else Some(DigitsValue(s))
    else None
  }

  /** Reading back the digits of `n` gives `n`. */
  lemma {:induction false} DigitsValueFormat(n: nat)
    ensures DigitsValue(FormatUint(n)) == n
    decreases n
  {
    if n >= 10 {
      DigitsValueFormat(n / 10);
      var s := FormatUint(n);
      assert s[..|s| - 1] == FormatUint(n / 10);
    }
  }

  /** Round trip: `ParseUint` inverts `FormatUint` on every `uint64`. */
  lemma ParseFormatUint(n: uint64)
    ensures ParseUint(FormatUint(n)) == Some(n)
  {
    DigitsValueFormat(n);
  }

  /** Formatting the value of a digit run with no superfluous leading zero
      gives the run back. */
  lemma {:induction false} FormatDigitsValue(s: seq<byte>)
    requires |s| > 0 && AllDigits(s) && (s[0] == ZERO ==> |s| == 1)
    ensures FormatUint(DigitsValue(s)) == s
    decreases |s|
  {
    var p := s[..|s| - 1];
    var d := s[|s| - 1] - ZERO;
    if |s| > 1 {
      FormatDigitsValue(p);
      assert DigitsValue(p) != 0;
      var n := DigitsValue(s);
      assert n / 10 == DigitsValue(p) && n % 10 == d;
      assert s == p + [s[|s| - 1]];
    } else {
      assert DigitsValue(p) == 0;
      assert s == [ZERO + d];
    }
  }

  /** A digit run with no superfluous leading zero is a JSON number. */
  lemma DigitsAreNumber(s: seq<byte>)
    requires |s| > 0 && AllDigits(s) && (s[0] == ZERO ==> |s| == 1)
    ensures Json.IsNumber(s)
  {
    var j := Json.IntEnd(s, 0);
    assert j == |s|;
  }

  /** `FormatUint` and `FormatInt` produce JSON numbers (section 6 of RFC 8259). */
  lemma FormatIsNumber(v: int)
    ensures Json.IsNumber(FormatInt(v))
  {
    var d := FormatUint(if v < 0 then -v else v);
    DigitsAreNumber(d);
    if v < 0 {
      var s := [MINUS] + d;
      assert s[1..] == d;
      var j := Json.IntEnd(s, 1);
      assert j == |s|;
    }
  }
}
