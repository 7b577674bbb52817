/** Bytes, ASCII constants and the small byte-slice helpers that the HuJSON
    package takes from Go's `bytes` and `strings` packages (`HasPrefix`,
    `Index`, `IndexByte`, `Count`, `LastIndexByte`, `ReplaceAll`). */
module Bytes {

  /** An 8-bit byte, as Go's `byte`. */
  type byte = x: int | 0 <= x < 0x100

  const TAB: byte := '\t' as int
  const NEWLINE: byte := '\n' as int
  const CR: byte := '\r' as int
  const SPACE: byte := ' ' as int
  const QUOTE: byte := '"' as int
  const PLUS: byte := '+' as int
  const COMMA: byte := ',' as int
  const MINUS: byte := '-' as int
  const DOT: byte := '.' as int
  const SLASH: byte := '/' as int
  const STAR: byte := '*' as int
  const ZERO: byte := '0' as int
  const COLON: byte := ':' as int
  const BACKSLASH: byte := '\\' as int
  const TILDE: byte := '~' as int
  const OPEN_BRACE: byte := '{' as int
  const CLOSE_BRACE: byte := '}' as int
  const OPEN_BRACKET: byte := '[' as int
  const CLOSE_BRACKET: byte := ']' as int

  /** The bytes of an ASCII string literal. */
  function Ascii(s: string): (r: seq<byte>)
    requires forall i :: 0 <= i < |s| ==> s[i] as int < 0x80
    ensures |r| == |s|
    ensures forall i :: 0 <= i < |s| ==> r[i] == s[i] as int
  {
    seq(|s|, i requires 0 <= i < |s| => s[i] as int)
  }

  /** Whitespace per RFC 8259, section 2. */
  predicate IsSpace(c: byte) {
    c == SPACE || c == TAB || c == CR || c == NEWLINE
  }

  predicate IsDigit(c: byte) {
    '0' as int <= c <= '9' as int
  }

  predicate HasPrefix(s: seq<byte>, p: seq<byte>) {
    |p| <= |s| && s[..|p|] == p
  }

  /** Whether `p` occurs in `s` at offset `i`. */
  predicate OccursAt(s: seq<byte>, p: seq<byte>, i: int) {
    0 <= i && i + |p| <= |s| && s[i..i + |p|] == p
  }

  /** The offset of the first occurrence of `p` in `s` at or after `i`, or -1. */
  function IndexFrom(s: seq<byte>, p: seq<byte>, i: nat): (r: int)
    requires i <= |s|
    ensures r == -1 || (i <= r && r + |p| <= |s|)
    decreases |s| - i, 1
  {
    if |s| - i < |p| then -1 else IndexAt(s, p, i)
  }

  /** `i` when `p` occurs at offset `i` of `s`, else the search goes on. */
  function IndexAt(s: seq<byte>, p: seq<byte>, i: nat): (r: int)
    requires i + |p| <= |s|
    ensures r == -1 || (i <= r && r + |p| <= |s|)
    decreases |s| - i, 0
  {
    if s[i..i + |p|] == p then i else IndexFrom(s, p, i + 1)
  }

  /** The offset of the first occurrence of `p` in `s`, or -1 (Go's `bytes.Index`). */
  function IndexOf(s: seq<byte>, p: seq<byte>): (r: int)
    ensures r == -1 || (0 <= r && r + |p| <= |s|)
  {
    IndexFrom(s, p, 0)
  }

  /** `IndexFrom` finds an occurrence, and no occurrence comes before it. */
  lemma {:induction false} IndexFromFirst(s: seq<byte>, p: seq<byte>, i: nat)
    requires i <= |s|
    ensures IndexFrom(s, p, i) >= 0 ==> OccursAt(s, p, IndexFrom(s, p, i))
    ensures forall j :: i <= j && (IndexFrom(s, p, i) < 0 || j < IndexFrom(s, p, i)) ==> !OccursAt(s, p, j)
    decreases |s| - i
  {
    if |s| - i >= |p| && s[i..i + |p|] != p {
      IndexFromFirst(s, p, i + 1);
    }
  }

  /** `IndexOf` finds an occurrence, and no occurrence comes before it. */
  lemma IndexOfFirst(s: seq<byte>, p: seq<byte>)
    ensures IndexOf(s, p) >= 0 ==> OccursAt(s, p, IndexOf(s, p))
    ensures forall j :: 0 <= j && (IndexOf(s, p) < 0 || j < IndexOf(s, p)) ==> !OccursAt(s, p, j)
  {
    IndexFromFirst(s, p, 0);
  }

  /** Searching a suffix is searching the whole from the suffix's start. */
  lemma {:induction false} IndexFromShift(s: seq<byte>, p: seq<byte>, k: nat, j: nat)
    requires k + j <= |s|
    ensures IndexFrom(s[k..], p, j) ==
      if IndexFrom(s, p, k + j) < 0 then -1 else IndexFrom(s, p, k + j) - k
    decreases |s| - k - j
  {
    if |s| - (k + j) >= |p| {
      assert s[k..][j..j + |p|] == s[k + j..k + j + |p|];
      if s[k + j..k + j + |p|] != p {
        IndexFromShift(s, p, k, j + 1);
      }
    }
  }

  /** A first occurrence is still the first occurrence once more bytes follow. */
  lemma {:induction false} IndexFromExtend(s: seq<byte>, t: seq<byte>, p: seq<byte>, i: nat)
    requires i <= |s| && IndexFrom(s, p, i) >= 0
    ensures IndexFrom(s + t, p, i) == IndexFrom(s, p, i)
    decreases |s| - i
  {
    assert (s + t)[i..i + |p|] == s[i..i + |p|];
    if s[i..i + |p|] != p {
      IndexFromExtend(s, t, p, i + 1);
    }
  }

  lemma IndexOfExtend(s: seq<byte>, t: seq<byte>, p: seq<byte>)
    requires IndexOf(s, p) >= 0
    ensures IndexOf(s + t, p) == IndexOf(s, p)
  {
    IndexFromExtend(s, t, p, 0);
  }

  /** A first occurrence is still the first occurrence when the text is cut
      anywhere after it. */
  lemma {:induction false} IndexFromTruncate(s: seq<byte>, p: seq<byte>, i: nat, n: nat)
    requires i <= |s| && IndexFrom(s, p, i) >= 0 && IndexFrom(s, p, i) + |p| <= n <= |s|
    ensures IndexFrom(s[..n], p, i) == IndexFrom(s, p, i)
    decreases |s| - i
  {
    assert s[..n][i..i + |p|] == s[i..i + |p|];
    if s[i..i + |p|] != p {
      IndexFromTruncate(s, p, i + 1, n);
    }
  }

  lemma IndexOfTruncate(s: seq<byte>, p: seq<byte>, n: nat)
    requires IndexOf(s, p) >= 0 && IndexOf(s, p) + |p| <= n <= |s|
    ensures IndexOf(s[..n], p) == IndexOf(s, p)
  {
    IndexFromTruncate(s, p, 0, n);
  }

  /** The offset of the first `c` in `s`, or -1 (Go's `bytes.IndexByte`). */
  function IndexByte(s: seq<byte>, c: byte): (r: int)
    ensures -1 <= r < |s|
    ensures r >= 0 ==> s[r] == c
    ensures forall j :: 0 <= j < |s| && (r < 0 || j < r) ==> s[j] != c
  {
    if s == [] then -1
    else if s[0] == c then 0
    else
      var k := IndexByte(s[1..], c);
      if k < 0 then -1 else k + 1
  }

  /** The number of `c` bytes in `s` (Go's `bytes.Count` with a one-byte separator). */
  function Count(s: seq<byte>, c: byte): (r: nat)
    ensures r <= |s|
    ensures r == 0 <==> c !in s
  {
    if s == [] then 0
    else Count(s[..|s| - 1], c) + (if s[|s| - 1] == c then 1 else 0)
  }

  /** The offset of the last `c` in `s`, or -1 (Go's `bytes.LastIndexByte`). */
  function LastIndexByte(s: seq<byte>, c: byte): (r: int)
    ensures -1 <= r < |s|
    ensures r >= 0 ==> s[r] == c
    ensures forall j :: r < j < |s| ==> s[j] != c
  {
    if s == [] then -1
    else if s[|s| - 1] == c then |s| - 1
    else LastIndexByte(s[..|s| - 1], c)
  }

  /** `s` with every non-overlapping occurrence of `pat` replaced by `rep`,
      scanning left to right (Go's `strings.ReplaceAll` for a non-empty pattern). */
  function ReplaceAll(s: seq<byte>, pat: seq<byte>, rep: seq<byte>): seq<byte>
    requires |pat| > 0
    decreases |s|
  {
    if |s| < |pat| then s
    else if s[..|pat|] == pat then rep + ReplaceAll(s[|pat|..], pat, rep)
    else [s[0]] + ReplaceAll(s[1..], pat, rep)
  }

  /** The count of a concatenation is the sum of the counts. */
  lemma {:induction false} CountConcat(s: seq<byte>, t: seq<byte>, c: byte)
    ensures Count(s + t, c) == Count(s, c) + Count(t, c)
    decreases |t|
  {
    if t == [] {
      assert s + t == s;
    } else {
      assert (s + t)[..|s + t| - 1] == s + t[..|t| - 1];
      CountConcat(s, t[..|t| - 1], c);
    }
  }

  /** A byte that cannot start the pattern is copied, and replacing goes on
      after it. */
  lemma ReplaceAllCons(c: byte, t: seq<byte>, pat: seq<byte>, rep: seq<byte>)
    requires |pat| > 0 && c != pat[0]
    ensures ReplaceAll([c] + t, pat, rep) == [c] + ReplaceAll(t, pat, rep)
  {
    var s := [c] + t;
    if |s| < |pat| {
      assert |t| < |pat|;
    } else {
      assert s[..|pat|][0] == c;
      assert s[1..] == t;
    }
  }

  /** An occurrence of the pattern at the start is replaced, and replacing
      goes on after it. */
  lemma ReplaceAllHead(t: seq<byte>, pat: seq<byte>, rep: seq<byte>)
    requires |pat| > 0
    ensures ReplaceAll(pat + t, pat, rep) == rep + ReplaceAll(t, pat, rep)
  {
    assert (pat + t)[..|pat|] == pat;
    assert (pat + t)[|pat|..] == t;
  }

  /** Replacing is the identity on text in which the pattern cannot start. */
  lemma {:induction false} ReplaceAllAbsent(s: seq<byte>, pat: seq<byte>, rep: seq<byte>)
    requires |pat| > 0 && pat[0] !in s
    ensures ReplaceAll(s, pat, rep) == s
    decreases |s|
  {
    if |s| >= |pat| {
      assert s[..|pat|][0] == s[0];
      ReplaceAllAbsent(s[1..], pat, rep);
    }
  }
}
