/** Whitespace and comments ("extra" bytes) and the parse errors of the HuJSON
    package: the grammar of an extra, and the scanners `consumeExtra` and
    `consumeWhitespace` of util/hujson/parse.go. */
module Lexer {
  import opened Bytes
  import opened Wrappers
  import Utf8

  /** What the parser was doing when the input ran out. */
  datatype EofContext =
    | ParsingValue
    | ObjectAfterName
    | ObjectAfterValue
    | ArrayAfterValue
    | ParsingString
    | ParsingComment

  /** The kinds of parse failure; the message text of Go's errors is not modelled. */
  datatype ErrorKind =
    | UnexpectedEof(context: EofContext)
    | InvalidUtf8InComment
    | InvalidObjectEnd                 // a '}' where a value must start
    | InvalidArrayEnd                  // a ']' where a value must start
    | InvalidObjectNameStart(c: byte)  // an object name that is not a string
    | InvalidAfterObjectName(c: byte)  // expecting ':'
    | InvalidAfterObjectValue(c: byte) // expecting ',' or '}'
    | InvalidAfterArrayValue(c: byte)  // expecting ',' or ']'
    | InvalidValueStart(c: byte)       // no value can start with c
    | InvalidLiteral                   // the literal is not a JSON scalar
    | InvalidAfterTopLevel(c: byte)    // input left after the top-level value

  const LINE_COMMENT_START: seq<byte> := [SLASH, SLASH]
  const LINE_COMMENT_END: seq<byte> := [NEWLINE]
  const BLOCK_COMMENT_START: seq<byte> := [SLASH, STAR]
  const BLOCK_COMMENT_END: seq<byte> := [STAR, SLASH]

  /** How a comment at the start of some bytes ends. */
  datatype Comment = NoComment | Unterminated | BadUtf8 | Complete(length: nat)

  predicate StartsLineComment(s: seq<byte>) {
    |s| >= 2 && s[0] == SLASH && s[1] == SLASH
  }

  predicate StartsBlockComment(s: seq<byte>) {
    |s| >= 2 && s[0] == SLASH && s[1] == STAR
  }

  predicate StartsComment(s: seq<byte>) {
    StartsLineComment(s) || StartsBlockComment(s)
  }

  /** Whether `s` starts with a byte that `consumeExtra` would consume. */
  predicate StartsExtra(s: seq<byte>) {
    |s| > 0 && (IsSpace(s[0]) || StartsComment(s))
  }

  /** A comment whose two-byte opening is followed by a body that runs to the
      first `end`; the body must be valid UTF-8. */
  function Delimited(s: seq<byte>, end: seq<byte>): (c: Comment)
    requires |s| >= 2
    ensures c.Complete? ==> 2 + |end| <= c.length <= |s|
    ensures c != NoComment
  {
    var j := IndexFrom(s, end, 2);
    if j < 0 then Unterminated
    else if !Utf8.Valid(s[2..j]) then BadUtf8
    else Complete(j + |end|)
  }

  /** The comment that `s` starts with: a line comment runs to the first
      newline (included), a block comment to the first `*` `/`. */
  function ScanComment(s: seq<byte>): (c: Comment)
    ensures c.Complete? ==> 3 <= c.length <= |s|
    ensures c != NoComment <==> StartsComment(s)
  {
    if StartsLineComment(s) then Delimited(s, LINE_COMMENT_END)
    else if StartsBlockComment(s) then Delimited(s, BLOCK_COMMENT_END)
    else NoComment
  }

  /** The HuJSON `ws` rule: a run of RFC 8259 whitespace, line comments and
      block comments with UTF-8 bodies. */
  predicate IsExtra(s: seq<byte>)
    decreases |s|, 1
  {
    s == [] || ExtraFirst(s)
  }

  /** `s` starts with a whitespace byte or a complete comment, and the rest
      is an extra. */
  predicate ExtraFirst(s: seq<byte>)
    requires s != []
    decreases |s|, 0
  {
    if IsSpace(s[0]) then IsExtra(s[1..])
    else
      match ScanComment(s)
      case Complete(k) => IsExtra(s[k..])
      case _ => false
  }

  /** The end marker of the comment that `s` starts with. */
  function CommentEnd(s: seq<byte>): seq<byte> {
    if StartsLineComment(s) then LINE_COMMENT_END else BLOCK_COMMENT_END
  }

  /** A complete comment is recognised from its own bytes: it ends in the
      same place in any text that agrees with it up to its end. */
  lemma ScanCommentPrefix(s: seq<byte>, t: seq<byte>)
    requires ScanComment(s).Complete?
    requires ScanComment(s).length <= |t| && t[..ScanComment(s).length] == s[..ScanComment(s).length]
    ensures ScanComment(t) == ScanComment(s)
  {
    var k := ScanComment(s).length;
    var end := CommentEnd(s);
    var j := IndexFrom(s, end, 2);
    assert t[0] == s[0] && t[1] == s[1] by {
      assert t[..k][0] == s[..k][0] && t[..k][1] == s[..k][1];
    }
    IndexFromTruncate(s, end, 2, k);
    assert t[..k] + t[k..] == t;
    IndexFromExtend(t[..k], t[k..], end, 2);
    assert t[2..j] == s[2..j] by {
      assert t[2..j] == t[..k][2..j] && s[2..j] == s[..k][2..j];
    }
  }

  /** A complete comment is an extra on its own. */
  lemma CompleteCommentIsExtra(s: seq<byte>)
    requires ScanComment(s).Complete?
    ensures IsExtra(s[..ScanComment(s).length])
  {
    var k := ScanComment(s).length;
    ScanCommentPrefix(s, s[..k]);
    assert s[..k][k..] == [];
  }

  /** Runs of whitespace are extras. */
  lemma {:induction false} SpacesAreExtra(w: seq<byte>)
    requires forall i :: 0 <= i < |w| ==> IsSpace(w[i])
    ensures IsExtra(w)
    decreases |w|
  {
    if w != [] {
      SpacesAreExtra(w[1..]);
    }
  }

  /** Extras concatenate. */
  lemma {:induction false} ExtraConcat(x: seq<byte>, y: seq<byte>)
    requires IsExtra(x) && IsExtra(y)
    ensures IsExtra(x + y)
    decreases |x|
  {
    if x == [] {
      assert x + y == y;
    } else if IsSpace(x[0]) {
      assert (x + y)[1..] == x[1..] + y;
      ExtraConcat(x[1..], y);
    } else {
      var k := ScanComment(x).length;
      ScanCommentPrefix(x, x + y);
      assert (x + y)[k..] == x[k..] + y;
      ExtraConcat(x[k..], y);
    }
  }

  /** The error `consumeExtra` reports for a comment it cannot skip. */
  function CommentError(c: Comment): (r: Option<ErrorKind>)
    ensures r.Some? <==> c.Unterminated? || c.BadUtf8?
  {
    match c
    case Unterminated => Some(UnexpectedEof(ParsingComment))
    case BadUtf8 => Some(InvalidUtf8InComment)
    case _ => None
  }

  /** What `consumeExtra` computes from offset `n`: the offset it stops at,
      and the error it reports there, if any. */
  function SkipExtra(b: seq<byte>, n: nat): (r: (nat, Option<ErrorKind>))
    requires n <= |b|
    ensures n <= r.0 <= |b|
    decreases |b| - n, 1
  {
    if n == |b| then (n, None) else SkipToken(b, n)
  }

  /** `SkipExtra` at a byte: whitespace and complete comments are skipped,
      anything else ends the scan. */
  function SkipToken(b: seq<byte>, n: nat): (r: (nat, Option<ErrorKind>))
    requires n < |b|
    ensures n <= r.0 <= |b|
    decreases |b| - n, 0
  {
    if IsSpace(b[n]) then SkipExtra(b, n + 1)
    else
      match ScanComment(b[n..])
      case Complete(k) => SkipExtra(b, n + k)
      case NoComment => (n, None)
      case _ => (n, CommentError(ScanComment(b[n..])))
  }

  /** The scan stops, without error, where no whitespace or comment starts. */
  lemma SkipStops(b: seq<byte>, n: nat)
    requires n <= |b| && !StartsExtra(b[n..])
    ensures SkipExtra(b, n) == (n, None)
  {
    if n < |b| {
      assert b[n..][0] == b[n];
      assert ScanComment(b[n..]) == NoComment;
    }
  }

  /** `consumeExtra` skips an extra. */
  lemma {:induction false} SkipExtraIsExtra(b: seq<byte>, n: nat)
    requires n <= |b|
    ensures IsExtra(b[n..SkipExtra(b, n).0])
    decreases |b| - n
  {
    var m := SkipExtra(b, n).0;
    if n == |b| || m == n {
      assert b[n..m] == [];
    } else if IsSpace(b[n]) {
      assert SkipExtra(b, n) == SkipExtra(b, n + 1);
      SkipExtraIsExtra(b, n + 1);
      assert b[n..m][1..] == b[n + 1..m];
    } else {
      assert SkipExtra(b, n) == SkipToken(b, n);
      assert ScanComment(b[n..]).Complete?;
      var k := ScanComment(b[n..]).length;
      assert SkipExtra(b, n) == SkipExtra(b, n + k);
      SkipExtraIsExtra(b, n + k);
      CompleteCommentIsExtra(b[n..]);
      assert b[n..][..k] == b[n..n + k];
      ExtraConcat(b[n..n + k], b[n + k..m]);
      assert b[n..n + k] + b[n + k..m] == b[n..m];
    }
  }

  /** `consumeExtra` skips the longest extra: it stops where no whitespace
      or comment starts, or at a comment that is unterminated or not UTF-8,
      which it reports. */
  lemma {:induction false} SkipExtraEnd(b: seq<byte>, n: nat)
    requires n <= |b|
    ensures var (m, err) := SkipExtra(b, n);
      err == CommentError(ScanComment(b[m..])) &&
      (err.None? ==> !StartsExtra(b[m..])) &&
      (err.Some? ==> m < |b| && b[m] == SLASH)
    decreases |b| - n
  {
    if n < |b| {
      if IsSpace(b[n]) {
        SkipExtraEnd(b, n + 1);
      } else if ScanComment(b[n..]).Complete? {
        SkipExtraEnd(b, n + ScanComment(b[n..]).length);
      } else {
        assert b[n..][0] == b[n];
      }
    }
  }

  /** Whitespace is skipped the same way one byte at a time or in a run. */
  lemma {:induction false} SkipSpaces(b: seq<byte>, n: nat, k: nat)
    requires n + k <= |b|
    requires forall i :: n <= i < n + k ==> IsSpace(b[i])
    ensures SkipExtra(b, n) == SkipExtra(b, n + k)
    decreases k
  {
    if k > 0 {
      SkipSpaces(b, n + 1, k - 1);
      assert SkipExtra(b, n) == SkipToken(b, n);
    }
  }

  /** `consumeWhitespace`: the length of the longest prefix of `b` made of
      whitespace bytes. */
  method ConsumeWhitespace(b: seq<byte>) returns (n: nat)
    ensures n <= |b|
    ensures forall i :: 0 <= i < n ==> IsSpace(b[i])
    ensures n == |b| || !IsSpace(b[n])
  {
    n := 0;
    while n < |b| && IsSpace(b[n])
      invariant n <= |b|
      invariant forall i :: 0 <= i < n ==> IsSpace(b[i])
    {
      n := n + 1;
    }
  }

  /** The openings `consumeExtra` tests for are the two comment openings. */
  lemma Openings(s: seq<byte>)
    ensures HasPrefix(s, LINE_COMMENT_START) <==> StartsLineComment(s)
    ensures HasPrefix(s, BLOCK_COMMENT_START) <==> StartsBlockComment(s)
    ensures |LINE_COMMENT_START| == |BLOCK_COMMENT_START| == 2
  {
    if |s| >= 2 {
      assert s[..2][0] == s[0] && s[..2][1] == s[1];
    }
  }

  /** The comment at offset `m` of `b`, in the terms in which `consumeExtra`
      finds its end: the first `end` in the bytes after the two-byte opening,
      and the UTF-8 check of the bytes before it. */
  lemma CommentAt(b: seq<byte>, m: nat, end: seq<byte>)
    requires m <= |b| && StartsComment(b[m..]) && end == CommentEnd(b[m..])
    ensures m + 2 <= |b|
    ensures var i := IndexOf(b[m + 2..], end);
      SkipExtra(b, m) ==
        if i < 0 then (m, Some(UnexpectedEof(ParsingComment)))
        else if !Utf8.Valid(b[m + 2..m + 2 + i]) then (m, Some(InvalidUtf8InComment))
        else SkipExtra(b, m + 2 + i + |end|)
  {
    var s := b[m..];
    IndexFromShift(s, end, 2, 0);
    assert s[2..] == b[m + 2..];
    var i := IndexOf(b[m + 2..], end);
    if i >= 0 {
      assert s[2..2 + i] == b[m + 2..m + 2 + i];
    }
  }

  /** The comment case of `consumeExtra`, at a '/' at offset `n`: either the
      scan ends here (`stop`, with the result of the whole scan) or it goes on
      after a complete comment at offset `m`. */
  method ConsumeComment(b: seq<byte>, n: nat) returns (m: nat, err: Option<ErrorKind>, stop: bool)
    requires n < |b| && b[n] == SLASH
    ensures stop ==> (m, err) == SkipExtra(b, n)
    ensures !stop ==> n < m <= |b| && SkipExtra(b, m) == SkipExtra(b, n)
  {
    var start, end;
    Openings(b[n..]);
    if HasPrefix(b[n..], LINE_COMMENT_START) {
      start, end := LINE_COMMENT_START, LINE_COMMENT_END;
    } else if HasPrefix(b[n..], BLOCK_COMMENT_START) {
      start, end := BLOCK_COMMENT_START, BLOCK_COMMENT_END;
    } else {
      SkipStops(b, n);
      return n, None, true;
    }
    CommentAt(b, n, end);
    m := n + |start|;
    var i := IndexOf(b[m..], end);
    if i < 0 {
      return m - |start|, Some(UnexpectedEof(ParsingComment)), true;
    }
    if !Utf8.Valid(b[m..m + i]) {
      return m - |start|, Some(InvalidUtf8InComment), true;
    }
    return m + i + |end|, None, false;
  }

  /** `consumeExtra`: skips whitespace and comments from offset `n0`. */
  method ConsumeExtra(n0: nat, b: seq<byte>) returns (n: nat, err: Option<ErrorKind>)
    requires n0 <= |b|
    ensures (n, err) == SkipExtra(b, n0)
  {
    n := n0;
    while n < |b|
      invariant n0 <= n <= |b|
      invariant SkipExtra(b, n) == SkipExtra(b, n0)
    {
      var c := b[n];
      if IsSpace(c) {
        var k := ConsumeWhitespace(b[n..]);
        forall i | n <= i < n + k ensures IsSpace(b[i]) {
          assert b[n..][i - n] == b[i];
        }
        SkipSpaces(b, n, k);
        n := n + k;
      } else if c == SLASH {
        var stop;
        n, err, stop := ConsumeComment(b, n);
        if stop {
          return;
        }
      } else {
        SkipStops(b, n);
        return n, None;
      }
    }
    return n, None;
  }
}
