/** Well-formed UTF-8 per section 4 of RFC 3629, the check that Go's
    `utf8.Valid` performs on comment bodies. */
module Utf8 {
  import opened Bytes

  predicate InRange(c: byte, lo: int, hi: int) {
    lo <= c <= hi
  }

  predicate IsTail(c: byte) {
    InRange(c, 0x80, 0xBF)
  }

  /** The length of the well-formed character that `s` starts with, or 0 when
      `s` does not start with one (the UTF8-char rule of RFC 3629). */
  function CharLength(s: seq<byte>): (k: nat)
    ensures k <= 4 && k <= |s|
    ensures |s| > 0 && s[0] < 0x80 ==> k == 1
  {
    if |s| == 0 then 0
    else if s[0] < 0x80 then 1
    else if InRange(s[0], 0xC2, 0xDF) then
      if |s| >= 2 && IsTail(s[1]) then 2 else 0
    else if InRange(s[0], 0xE0, 0xEF) then
      var lo := if s[0] == 0xE0 then 0xA0 else 0x80;
      var hi := if s[0] == 0xED then 0x9F else 0xBF;
      if |s| >= 3 && InRange(s[1], lo, hi) && IsTail(s[2]) then 3 else 0
    else if InRange(s[0], 0xF0, 0xF4) then
      var lo := if s[0] == 0xF0 then 0x90 else 0x80;
      var hi := if s[0] == 0xF4 then 0x8F else 0xBF;
      if |s| >= 4 && InRange(s[1], lo, hi) && IsTail(s[2]) && IsTail(s[3]) then 4 else 0
    else 0
  }

  /** `s` is a sequence of well-formed UTF-8 characters (UTF8-octets). */
  predicate Valid(s: seq<byte>)
    decreases |s|, 1
  {
    s == [] || ValidFirst(s)
  }

  /** `s` starts with a well-formed character and the rest is valid. */
  predicate ValidFirst(s: seq<byte>)
    requires s != []
    decreases |s|, 0
  {
    CharLength(s) > 0 && Valid(s[CharLength(s)..])
  }

  /** A character is recognised from its own bytes, whatever follows it. */
  lemma CharLengthPrefix(s: seq<byte>, t: seq<byte>)
    requires CharLength(s) > 0
    ensures CharLength(s + t) == CharLength(s)
  {
    assert forall i :: 0 <= i < |s| ==> (s + t)[i] == s[i];
  }

  /** The concatenation of two valid texts is valid. */
  lemma {:induction false} ValidConcat(s: seq<byte>, t: seq<byte>)
    requires Valid(s) && Valid(t)
    ensures Valid(s + t)
    decreases |s|
  {
    if s != [] {
      var k := CharLength(s);
      CharLengthPrefix(s, t);
      assert (s + t)[k..] == s[k..] + t;
      ValidConcat(s[k..], t);
    } else {
      assert s + t == t;
    }
  }

  /** Seven-bit ASCII text is valid UTF-8. */
  lemma {:induction false} AsciiValid(s: seq<byte>)
    requires forall i :: 0 <= i < |s| ==> s[i] < 0x80
    ensures Valid(s)
    decreases |s|
  {
    if s != [] {
      AsciiValid(s[1..]);
    }
  }
}
