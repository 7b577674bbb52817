/** The single-pass recursive-descent parser of util/hujson/parse.go.

    Every byte of the input is attributed to some before-extra, literal,
    delimiter or after-extra: a parsed value packs back to exactly the bytes
    it was parsed from, with its offsets where those bytes lie. A '}' or ']'
    where a value should start is reported to the enclosing container as
    `Close`, which finishes that container when the byte is its own closer
    and is an error anywhere else; Go signals the same thing with the
    sentinel errors `errInvalidObjectEnd` and `errInvalidArrayEnd`. */
module Parser {
  import opened Bytes
  import opened Wrappers
  import opened Lexer
  import opened Values
  import opened Packing
  import Json

  /** The outcome of one parsing step: a parsed `T` and the offset after
      it, a closing byte where a value should start, or a failure at an
      offset. */
  datatype Step<T> =
    | Parsed(value: T, next: nat)
    | Close(at: nat)
    | Failed(offset: nat, kind: ErrorKind)

  /** The outcome of `Parse`: the value, or the error with its 1-based line
      and column. */
  datatype ParseResult =
    | Ok(v: Value)
    | Error(line: nat, column: nat, offset: nat, kind: ErrorKind)

  // ---------------------------------------------------------------------
  // Tokens

  /** The bytes that the bare-literal scanner accepts: `[-+.a-zA-Z0-9]`. */
  predicate IsLiteralByte(c: byte) {
    c == MINUS || c == PLUS || c == DOT || 'a' as int <= c <= 'z' as int ||
    'A' as int <= c <= 'Z' as int || IsDigit(c)
  }

  /** The bytes with a branch of their own where a value starts. */
  predicate IsStructural(c: byte) {
    c == OPEN_BRACE || c == CLOSE_BRACE || c == OPEN_BRACKET || c == CLOSE_BRACKET || c == QUOTE
  }

  /** A '}' or ']' at offset `i`. */
  predicate IsCloser(b: seq<byte>, i: int) {
    0 <= i < |b| && (b[i] == CLOSE_BRACE || b[i] == CLOSE_BRACKET)
  }

  /** The end of the run of literal bytes that starts at `i`. */
  function BareEnd(b: seq<byte>, i: nat): (j: nat)
    requires i <= |b|
    ensures i <= j <= |b|
    ensures forall k :: i <= k < j ==> IsLiteralByte(b[k])
    ensures j == |b| || !IsLiteralByte(b[j])
    decreases |b| - i
  {
    if i < |b| && IsLiteralByte(b[i]) then BareEnd(b, i + 1) else i
  }

  /** The offset after the quotation mark that closes a string whose body
      continues at `i`, or -1 when the input ends first; a backslash makes
      the next byte part of the body. */
  function StringClose(b: seq<byte>, i: nat, inEscape: bool): (r: int)
    requires i <= |b|
    ensures r == -1 || (i < r <= |b| && b[r - 1] == QUOTE)
    decreases |b| - i
  {
    if i == |b| then -1
    else if inEscape then StringClose(b, i + 1, false)
    else if b[i] == BACKSLASH then StringClose(b, i + 1, true)
    else if b[i] == QUOTE then i + 1
    else StringClose(b, i + 1, false)
  }

  /** The literal token at offset `n`: a quoted string, or the run of
      literal bytes; none when a string is not closed. */
  function LiteralAt(b: seq<byte>, n: nat): Option<seq<byte>>
    requires n < |b|
  {
    if b[n] == QUOTE then
      var e := StringClose(b, n + 1, false);
      if e < 0 then None else Some(b[n..e])
    else Some(b[n..BareEnd(b, n)])
  }

  // ---------------------------------------------------------------------
  // What the results mean

  /** What the input shows at the offset of an error of this kind. */
  predicate Explains(b: seq<byte>, offset: nat, kind: ErrorKind) {
    offset <= |b| &&
    match kind
    case UnexpectedEof(ParsingComment) => CommentError(ScanComment(b[offset..])) == Some(kind)
    case InvalidUtf8InComment => CommentError(ScanComment(b[offset..])) == Some(kind)
    case UnexpectedEof(_) => offset == |b|
    case InvalidObjectEnd => offset < |b| && b[offset] == CLOSE_BRACE
    case InvalidArrayEnd => offset < |b| && b[offset] == CLOSE_BRACKET
    case InvalidObjectNameStart(c) => offset < |b| && b[offset] == c && c != QUOTE
    case InvalidAfterObjectName(c) =>
      offset < |b| && b[offset] == c && c != COLON && !StartsExtra(b[offset..])
    case InvalidAfterObjectValue(c) =>
      offset < |b| && b[offset] == c && c != COMMA && c != CLOSE_BRACE && !StartsExtra(b[offset..])
    case InvalidAfterArrayValue(c) =>
      offset < |b| && b[offset] == c && c != COMMA && c != CLOSE_BRACKET && !StartsExtra(b[offset..])
    case InvalidValueStart(c) =>
      offset < |b| && b[offset] == c && !IsLiteralByte(c) && !IsStructural(c)
    case InvalidLiteral =>
      offset < |b| && LiteralAt(b, offset).Some? && !IsValidLiteral(LiteralAt(b, offset).value)
    case InvalidAfterTopLevel(c) => offset < |b| && b[offset] == c && !StartsExtra(b[offset..])
  }

  /** A failure at or after the offset where parsing started. */
  predicate Failure(b: seq<byte>, n0: nat, offset: nat, kind: ErrorKind) {
    n0 <= offset && Explains(b, offset, kind)
  }

  /** `node` was parsed from exactly `b[n0..next]`. */
  predicate NodeParsed(b: seq<byte>, n0: nat, node: Node, next: nat) {
    n0 < next <= |b| && PackNode(node) == b[n0..next] &&
    NodePlaced(node, n0) && NodeWellFormed(node)
  }

  /** `v` was parsed from exactly `b[n0..next]`, its extras are the bytes
      around its offsets, and the after-extra runs as far as it can. */
  predicate ValueParsed(b: seq<byte>, n0: nat, v: Value, next: nat) {
    n0 <= v.startOffset < v.endOffset <= next <= |b| &&
    v.beforeExtra == b[n0..v.startOffset] && v.afterExtra == b[v.endOffset..next] &&
    Pack(v) == b[n0..next] && Placed(v, n0) && WellFormed(v) &&
    !StartsExtra(b[next..])
  }

  // ---------------------------------------------------------------------
  // Line and column

  /** `lineColumn`: the 1-based line and column of offset `n`. */
  function LineColumn(b: seq<byte>, n: nat): (nat, nat)
    requires n <= |b|
  {
    (1 + Count(b[..n], NEWLINE), n - LastIndexByte(b[..n], NEWLINE))
  }

  /** The first byte is at line 1, column 1. */
  lemma LineColumnStart(b: seq<byte>)
    ensures LineColumn(b, 0) == (1, 1)
  {
    assert b[..0] == [];
  }

  /** A newline moves to column 1 of the next line; any other byte moves
      one column to the right. */
  lemma LineColumnStep(b: seq<byte>, n: nat)
    requires n < |b|
    ensures b[n] == NEWLINE ==> LineColumn(b, n + 1) == (LineColumn(b, n).0 + 1, 1)
    ensures b[n] != NEWLINE ==> LineColumn(b, n + 1) == (LineColumn(b, n).0, LineColumn(b, n).1 + 1)
  {
    assert b[..n + 1][..n] == b[..n];
  }

  /** On the first line the column is the offset plus one. */
  lemma LineColumnFirstLine(b: seq<byte>, n: nat)
    requires n <= |b| && NEWLINE !in b[..n]
    ensures LineColumn(b, n) == (1, n + 1)
  {
    assert forall i :: 0 <= i < n ==> b[..n][i] in b[..n];
  }

  // ---------------------------------------------------------------------
  // The parser

  /** `Parse`: one value covering all of `b`, with surrounding extras. */
  method Parse(b: seq<byte>) returns (r: ParseResult)
    ensures r.Ok? ==> Pack(r.v) == b && Placed(r.v, 0) && WellFormed(r.v)
    ensures r.Error? ==> Explains(b, r.offset, r.kind) && (r.line, r.column) == LineColumn(b, r.offset)
  {
    var s := ParseNext(b, 0);
    match s
    case Failed(offset, kind) =>
      var (line, column) := LineColumn(b, offset);
      r := Error(line, column, offset, kind);
    case Close(at) =>
      var (line, column) := LineColumn(b, at);
      r := Error(line, column, at, if b[at] == CLOSE_BRACE then InvalidObjectEnd else InvalidArrayEnd);
    case Parsed(v, n) =>
      if n < |b| {
        var (line, column) := LineColumn(b, n);
        r := Error(line, column, n, InvalidAfterTopLevel(b[n]));
      } else {
        assert b[0..n] == b;
        r := Ok(v);
      }
  }

  /** `parseNext`: a value with the whitespace and comments around it. */
  method ParseNext(b: seq<byte>, n0: nat) returns (r: Step<Value>)
    requires n0 <= |b|
    ensures r.Parsed? ==> ValueParsed(b, n0, r.value, r.next)
    ensures r.Close? ==> n0 <= r.at && IsCloser(b, r.at) && IsExtra(b[n0..r.at])
    ensures var (m, err) := SkipExtra(b, n0); err.None? && m < |b| && IsCloser(b, m) ==> r == Close(m)
    ensures r.Failed? ==> Failure(b, n0, r.offset, r.kind)
    decreases |b| - n0, 2
  {
    var n, err := ConsumeExtra(n0, b);
    SkipExtraIsExtra(b, n0);
    SkipExtraEnd(b, n0);
    if err.Some? {
      return Failed(n, err.value);
    }
    var s := ParseNextValue(b, n);
    match s
    case Failed(offset, kind) =>
      r := Failed(offset, kind);
    case Close(at) =>
      r := Close(at);
    case Parsed(node, e) =>
      var m, err2 := ConsumeExtra(e, b);
      SkipExtraIsExtra(b, e);
      SkipExtraEnd(b, e);
      if err2.Some? {
        return Failed(m, err2.value);
      }
      var v := Value(b[n0..n], n, node, e, b[e..m]);
      ValueAround(b, n0, v, m);
      r := Parsed(v, m);
  }

  /** `parseNextValue`: a value without the extras around it. */
  method ParseNextValue(b: seq<byte>, n0: nat) returns (r: Step<Node>)
    requires n0 <= |b|
    ensures r.Parsed? ==> NodeParsed(b, n0, r.value, r.next)
    ensures r.Close? ==> r.at == n0 && IsCloser(b, n0)
    ensures n0 < |b| && IsCloser(b, n0) ==> r == Close(n0)
    ensures r.Failed? ==> Failure(b, n0, r.offset, r.kind)
    decreases |b| - n0, 1
  {
    if n0 == |b| {
      return Failed(n0, UnexpectedEof(ParsingValue));
    }
    var c := b[n0];
    if c == OPEN_BRACE {
      r := ParseObject(b, n0);
    } else if c == CLOSE_BRACE || c == CLOSE_BRACKET {
      r := Close(n0);
    } else if c == OPEN_BRACKET {
      r := ParseArray(b, n0);
    } else if c == QUOTE {
      r := ParseString(b, n0);
    } else {
      r := ParseBareLiteral(b, n0);
    }
  }

  /** The object branch of `parseNextValue`. */
  method ParseObject(b: seq<byte>, n0: nat) returns (r: Step<Node>)
    requires n0 < |b| && b[n0] == OPEN_BRACE
    ensures r.Parsed? ==> NodeParsed(b, n0, r.value, r.next) && r.value.ObjectNode?
    ensures !r.Close?
    ensures r.Failed? ==> Failure(b, n0, r.offset, r.kind)
    decreases |b| - n0, 0
  {
    var members: seq<Member> := [];
    var n := n0 + 1;
    while true
      invariant n0 < n <= |b|
      invariant MembersSoFar(b, n0, n, members)
      decreases |b| - n
    {
      var s := ParseMember(b, n);
      if s.Failed? {
        return Failed(s.offset, s.kind);
      }
      if s.Close? {
        var obj := Object(members, |members| > 0, b[n..s.at]);
        ObjectCloses(b, n0, n, s.at, obj);
        return Parsed(ObjectNode(obj), s.at + 1);
      }
      var outcome := AfterMember(b, n0, n, members, s.value, s.next);
      if outcome.Some? {
        return outcome.value;
      }
      members := members + [s.value];
      n := s.next + 1;
    }
  }

  /** What may follow a member: ',', after which the loop goes on (no
      outcome), or '}', which ends the parsed object, or an error (the
      outcome of the object branch). */
  method AfterMember(b: seq<byte>, n0: nat, n: nat, members: seq<Member>, m: Member, n2: nat)
    returns (outcome: Option<Step<Node>>)
    requires n0 < n <= |b| && MembersSoFar(b, n0, n, members)
    requires MemberParsed(b, n, m, n2)
    ensures outcome.None? <==> n2 < |b| && b[n2] == COMMA
    ensures outcome.None? ==> MembersSoFar(b, n0, n2 + 1, members + [m])
    ensures n2 < |b| && b[n2] == CLOSE_BRACE ==>
      outcome == Some(Parsed(ObjectNode(Object(members + [m], false, [])), n2 + 1))
    ensures outcome.Some? && outcome.value.Parsed? ==>
      NodeParsed(b, n0, outcome.value.value, outcome.value.next) && outcome.value.value.ObjectNode?
    ensures outcome.Some? ==> !outcome.value.Close?
    ensures outcome.Some? && outcome.value.Failed? ==>
      outcome.value.offset == n2 && Failure(b, n0, n2, outcome.value.kind)
  {
    AppendMember(b, n0, n, members, m, n2);
    if n2 == |b| {
      outcome := Some(Failed(n2, UnexpectedEof(ObjectAfterValue)));
    } else if b[n2] == COMMA {
      MemberThenComma(b, n0, n2, members, m);
      outcome := None;
    } else if b[n2] == CLOSE_BRACE {
      MemberThenClose(b, n0, n2, members, m);
      outcome := Some(Parsed(ObjectNode(Object(members + [m], false, [])), n2 + 1));
    } else {
      outcome := Some(Failed(n2, InvalidAfterObjectValue(b[n2])));
    }
  }

  /** One pass of the loop of the object branch up to the value: the name,
      the colon and the value, or the '}' that closes the object where a
      name should start. */
  method ParseMember(b: seq<byte>, n: nat) returns (r: Step<Member>)
    requires n <= |b|
    ensures r.Parsed? ==> MemberParsed(b, n, r.value, r.next)
    ensures r.Close? ==> n <= r.at < |b| && b[r.at] == CLOSE_BRACE && IsExtra(b[n..r.at])
    ensures var (m, err) := SkipExtra(b, n); err.None? && m < |b| && b[m] == CLOSE_BRACE ==> r == Close(m)
    ensures r.Failed? ==> Failure(b, n, r.offset, r.kind)
    decreases |b| - n, 3
  {
    // The name.
    var sk := ParseNext(b, n);
    if sk.Failed? {
      return Failed(sk.offset, sk.kind);
    }
    if sk.Close? {
      if b[sk.at] == CLOSE_BRACKET {
        return Failed(sk.at, InvalidArrayEnd);
      }
      return Close(sk.at);
    }
    var name := sk.value;
    var n1 := sk.next;
    if NodeKind(name.value) != KIND_STRING {
      return Failed(name.startOffset, InvalidObjectNameStart(b[name.startOffset]));
    }

    // The colon.
    if n1 == |b| {
      return Failed(n1, UnexpectedEof(ObjectAfterName));
    }
    if b[n1] != COLON {
      return Failed(n1, InvalidAfterObjectName(b[n1]));
    }

    // The value.
    var sv := ParseNext(b, n1 + 1);
    if sv.Failed? {
      return Failed(sv.offset, sv.kind);
    }
    if sv.Close? {
      return Failed(sv.at, if b[sv.at] == CLOSE_BRACE then InvalidObjectEnd else InvalidArrayEnd);
    }
    var m := Member(name, sv.value);
    MemberJoined(b, n, n1, sv.next, m);
    return Parsed(m, sv.next);
  }

  /** The array branch of `parseNextValue`. */
  method ParseArray(b: seq<byte>, n0: nat) returns (r: Step<Node>)
    requires n0 < |b| && b[n0] == OPEN_BRACKET
    ensures r.Parsed? ==> NodeParsed(b, n0, r.value, r.next) && r.value.ArrayNode?
    ensures !r.Close?
    ensures r.Failed? ==> Failure(b, n0, r.offset, r.kind)
    decreases |b| - n0, 0
  {
    var elements: seq<Value> := [];
    var n := n0 + 1;
    while true
      invariant n0 < n <= |b|
      invariant ElementsSoFar(b, n0, n, elements)
      decreases |b| - n
    {
      var s := ParseElement(b, n);
      if s.Failed? {
        return Failed(s.offset, s.kind);
      }
      if s.Close? {
        var arr := Array(elements, |elements| > 0, b[n..s.at]);
        ArrayCloses(b, n0, n, s.at, arr);
        return Parsed(ArrayNode(arr), s.at + 1);
      }
      var outcome := AfterElement(b, n0, n, elements, s.value, s.next);
      if outcome.Some? {
        return outcome.value;
      }
      elements := elements + [s.value];
      n := s.next + 1;
    }
  }

  /** What may follow an element: ',', after which the loop goes on (no
      outcome), or ']', which ends the parsed array, or an error (the
      outcome of the array branch). */
  method AfterElement(b: seq<byte>, n0: nat, n: nat, elements: seq<Value>, v: Value, n1: nat)
    returns (outcome: Option<Step<Node>>)
    requires n0 < n <= |b| && ElementsSoFar(b, n0, n, elements)
    requires ValueParsed(b, n, v, n1)
    ensures outcome.None? <==> n1 < |b| && b[n1] == COMMA
    ensures outcome.None? ==> ElementsSoFar(b, n0, n1 + 1, elements + [v])
    ensures n1 < |b| && b[n1] == CLOSE_BRACKET ==>
      outcome == Some(Parsed(ArrayNode(Array(elements + [v], false, [])), n1 + 1))
    ensures outcome.Some? && outcome.value.Parsed? ==>
      NodeParsed(b, n0, outcome.value.value, outcome.value.next) && outcome.value.value.ArrayNode?
    ensures outcome.Some? ==> !outcome.value.Close?
    ensures outcome.Some? && outcome.value.Failed? ==>
      outcome.value.offset == n1 && Failure(b, n0, n1, outcome.value.kind)
  {
    AppendElement(b, n0, n, elements, v, n1);
    if n1 == |b| {
      outcome := Some(Failed(n1, UnexpectedEof(ArrayAfterValue)));
    } else if b[n1] == COMMA {
      ElementThenComma(b, n0, n1, elements, v);
      outcome := None;
    } else if b[n1] == CLOSE_BRACKET {
      ElementThenClose(b, n0, n1, elements, v);
      outcome := Some(Parsed(ArrayNode(Array(elements + [v], false, [])), n1 + 1));
    } else {
      outcome := Some(Failed(n1, InvalidAfterArrayValue(b[n1])));
    }
  }

  /** One pass of the loop of the array branch up to the element: the
      element, or the ']' that closes the array where an element should
      start. A '}' there is an error. */
  method ParseElement(b: seq<byte>, n: nat) returns (r: Step<Value>)
    requires n <= |b|
    ensures r.Parsed? ==> ValueParsed(b, n, r.value, r.next)
    ensures r.Close? ==> n <= r.at < |b| && b[r.at] == CLOSE_BRACKET && IsExtra(b[n..r.at])
    ensures var (m, err) := SkipExtra(b, n); err.None? && m < |b| && b[m] == CLOSE_BRACKET ==> r == Close(m)
    ensures var (m, err) := SkipExtra(b, n); err.None? && m < |b| && b[m] == CLOSE_BRACE ==> r == Failed(m, InvalidObjectEnd)
    ensures r.Failed? ==> Failure(b, n, r.offset, r.kind)
    decreases |b| - n, 3
  {
    r := ParseNext(b, n);
    if r.Close? && b[r.at] == CLOSE_BRACE {
      r := Failed(r.at, InvalidObjectEnd);
    }
  }

  /** The string branch of `parseNextValue`. */
  method ParseString(b: seq<byte>, n0: nat) returns (r: Step<Node>)
    requires n0 < |b| && b[n0] == QUOTE
    ensures r.Parsed? ==>
      NodeParsed(b, n0, r.value, r.next) && r.value.LiteralNode? && LiteralAt(b, n0) == Some(r.value.lit)
    ensures !r.Close?
    ensures r.Failed? ==> Failure(b, n0, r.offset, r.kind)
    ensures r.Failed? ==> r == Failed(|b|, UnexpectedEof(ParsingString)) || r == Failed(n0, InvalidLiteral)
    ensures LiteralAt(b, n0).Some? && IsValidLiteral(LiteralAt(b, n0).value) ==> r.Parsed?
  {
    var n := n0 + 1;
    var inEscape := false;
    while true
      invariant n0 < n <= |b|
      invariant StringClose(b, n, inEscape) == StringClose(b, n0 + 1, false)
      decreases |b| - n
    {
      if n == |b| {
        return Failed(n, UnexpectedEof(ParsingString));
      }
      if inEscape {
        inEscape := false;
      } else if b[n] == BACKSLASH {
        inEscape := true;
      } else if b[n] == QUOTE {
        r := CheckLiteral(b, n0, n + 1);
        return;
      }
      n := n + 1;
    }
  }

  /** The branch of `parseNextValue` for null, booleans and numbers. */
  method ParseBareLiteral(b: seq<byte>, n0: nat) returns (r: Step<Node>)
    requires n0 < |b| && !IsStructural(b[n0])
    ensures r.Parsed? ==>
      NodeParsed(b, n0, r.value, r.next) && r.value.LiteralNode? && LiteralAt(b, n0) == Some(r.value.lit)
    ensures !r.Close?
    ensures r.Failed? ==> Failure(b, n0, r.offset, r.kind)
    ensures r.Failed? ==> r == Failed(n0, InvalidValueStart(b[n0])) || r == Failed(n0, InvalidLiteral)
    ensures LiteralAt(b, n0).Some? && IsValidLiteral(LiteralAt(b, n0).value) ==> r.Parsed?
  {
    var n := n0;
    while n < |b| && IsLiteralByte(b[n])
      invariant n0 <= n <= |b|
      invariant BareEnd(b, n) == BareEnd(b, n0)
      decreases |b| - n
    {
      n := n + 1;
    }
    if n == n0 {
      return Failed(n0, InvalidValueStart(b[n0]));
    }
    r := CheckLiteral(b, n0, n);
  }

  /** The end of the string and bare-literal branches: the token is kept
      when it is a JSON scalar and is an invalid literal otherwise. */
  method CheckLiteral(b: seq<byte>, n0: nat, e: nat) returns (r: Step<Node>)
    requires n0 < e <= |b| && LiteralAt(b, n0) == Some(b[n0..e])
    ensures r.Parsed? ==> r == Parsed(LiteralNode(b[n0..e]), e) && NodeParsed(b, n0, r.value, r.next)
    ensures r.Parsed? <==> IsValidLiteral(b[n0..e])
    ensures !r.Close?
    ensures r.Failed? ==> r == Failed(n0, InvalidLiteral) && Failure(b, n0, r.offset, r.kind)
  {
    var lit := b[n0..e];
    if !IsValidLiteral(lit) {
      return Failed(n0, InvalidLiteral);
    }
    return Parsed(LiteralNode(lit), e);
  }

  // ---------------------------------------------------------------------
  // Steps of the container proofs

  /** `m` was parsed from exactly `b[n..next]`, and the after-extra of its
      value runs as far as it can. */
  predicate MemberParsed(b: seq<byte>, n: nat, m: Member, next: nat) {
    n < next <= |b| && PackMember(m) == b[n..next] && MemberPlaced(m, n) &&
    MemberWellFormed(m) && !StartsExtra(b[next..])
  }

  /** The object text from its '{' up to offset `n` is the members parsed
      so far, each followed by a comma. */
  predicate MembersSoFar(b: seq<byte>, n0: nat, n: nat, ms: seq<Member>)
    requires n0 <= n <= |b|
  {
    b[n0..n] == [OPEN_BRACE] + Terminated(ms) && MembersPlaced(ms, n0 + 1) &&
    forall i :: 0 <= i < |ms| ==> MemberWellFormed(ms[i])
  }

  /** The array text from its '[' up to offset `n` is the elements parsed
      so far, each followed by a comma. */
  predicate ElementsSoFar(b: seq<byte>, n0: nat, n: nat, vs: seq<Value>)
    requires n0 <= n <= |b|
  {
    b[n0..n] == [OPEN_BRACKET] + TerminatedElements(vs) && ElementsPlaced(vs, n0 + 1) &&
    forall i :: 0 <= i < |vs| ==> WellFormed(vs[i])
  }

  /** A value parsed between two extras, with the extras and offsets that
      `parseNext` records. */
  lemma ValueAround(b: seq<byte>, n0: nat, v: Value, m: nat)
    requires n0 <= v.startOffset <= v.endOffset <= m <= |b|
    requires v.beforeExtra == b[n0..v.startOffset] && v.afterExtra == b[v.endOffset..m]
    requires NodeParsed(b, v.startOffset, v.value, v.endOffset)
    requires IsExtra(v.beforeExtra) && IsExtra(v.afterExtra) && !StartsExtra(b[m..])
    ensures ValueParsed(b, n0, v, m)
  {
    assert b[n0..m] == b[n0..v.startOffset] + b[v.startOffset..v.endOffset] + b[v.endOffset..m];
  }

  /** A string name, a colon and a value make a member. */
  lemma MemberJoined(b: seq<byte>, n: nat, n1: nat, n2: nat, m: Member)
    requires n <= n1 < |b| && b[n1] == COLON
    requires ValueParsed(b, n, m.name, n1) && NodeKind(m.name.value) == KIND_STRING
    requires ValueParsed(b, n1 + 1, m.value, n2)
    ensures MemberParsed(b, n, m, n2)
  {
    assert b[n..n2] == b[n..n1] + [b[n1]] + b[n1 + 1..n2];
    assert m.name.value.LiteralNode?;
    assert NodeWellFormed(m.name.value);
    KindOfValid(m.name.value.lit);
  }

  /** A member parsed after the members so far extends the object's text. */
  lemma AppendMember(b: seq<byte>, n0: nat, n: nat, ms: seq<Member>, m: Member, n2: nat)
    requires n0 < n <= |b| && MembersSoFar(b, n0, n, ms)
    requires MemberParsed(b, n, m, n2)
    ensures b[n0..n2] == [OPEN_BRACE] + Terminated(ms) + PackMember(m)
    ensures MembersPlaced(ms + [m], n0 + 1)
    ensures forall i :: 0 <= i < |ms + [m]| ==> MemberWellFormed((ms + [m])[i])
  {
    assert (ms + [m])[..|ms|] == ms;
    assert |b[n0..n]| == n - n0;
    assert b[n0..n2] == b[n0..n] + b[n..n2];
  }

  /** A comma after the new member keeps the loop of the object branch going. */
  lemma MemberThenComma(b: seq<byte>, n0: nat, n2: nat, ms: seq<Member>, m: Member)
    requires n0 < n2 < |b| && b[n2] == COMMA
    requires b[n0..n2] == [OPEN_BRACE] + Terminated(ms) + PackMember(m)
    requires MembersPlaced(ms + [m], n0 + 1)
    requires forall i :: 0 <= i < |ms + [m]| ==> MemberWellFormed((ms + [m])[i])
    ensures MembersSoFar(b, n0, n2 + 1, ms + [m])
  {
    MemberTerminated(b, n0, n2, ms, m);
  }

  /** The comma after a member terminates it. */
  lemma MemberTerminated(b: seq<byte>, n0: nat, n2: nat, ms: seq<Member>, m: Member)
    requires n0 < n2 < |b| && b[n2] == COMMA
    requires b[n0..n2] == [OPEN_BRACE] + Terminated(ms) + PackMember(m)
    ensures b[n0..n2 + 1] == [OPEN_BRACE] + Terminated(ms + [m])
  {
    assert (ms + [m])[..|ms|] == ms && (ms + [m])[|ms|] == m;
    assert Terminated(ms + [m]) == Terminated(ms) + PackMember(m) + [COMMA];
    assert b[n0..n2 + 1] == b[n0..n2] + [b[n2]];
  }

  /** A '}' after the new member finishes the object, without a trailing
      comma and with no extra of its own. */
  lemma MemberThenClose(b: seq<byte>, n0: nat, n2: nat, ms: seq<Member>, m: Member)
    requires n0 < n2 < |b| && b[n2] == CLOSE_BRACE
    requires b[n0..n2] == [OPEN_BRACE] + Terminated(ms) + PackMember(m)
    requires MembersPlaced(ms + [m], n0 + 1)
    requires forall i :: 0 <= i < |ms + [m]| ==> MemberWellFormed((ms + [m])[i])
    ensures NodeParsed(b, n0, ObjectNode(Object(ms + [m], false, [])), n2 + 1)
  {
    var node := ObjectNode(Object(ms + [m], false, []));
    assert (ms + [m])[..|ms|] == ms;
    assert PackMembers(ms + [m], false) == Terminated(ms) + PackMember(m);
    assert PackNode(node) == b[n0..n2] + [CLOSE_BRACE];
    assert b[n0..n2 + 1] == b[n0..n2] + [b[n2]];
    assert NodePlaced(node, n0);
    assert IsExtra([]);
  }

  /** An element parsed after the elements so far extends the array's text. */
  lemma AppendElement(b: seq<byte>, n0: nat, n: nat, vs: seq<Value>, v: Value, n1: nat)
    requires n0 < n <= |b| && ElementsSoFar(b, n0, n, vs)
    requires ValueParsed(b, n, v, n1)
    ensures b[n0..n1] == [OPEN_BRACKET] + TerminatedElements(vs) + Pack(v)
    ensures ElementsPlaced(vs + [v], n0 + 1)
    ensures forall i :: 0 <= i < |vs + [v]| ==> WellFormed((vs + [v])[i])
  {
    assert (vs + [v])[..|vs|] == vs;
    assert |b[n0..n]| == n - n0;
    assert b[n0..n1] == b[n0..n] + b[n..n1];
  }

  /** A comma after the new element keeps the loop of the array branch going. */
  lemma ElementThenComma(b: seq<byte>, n0: nat, n1: nat, vs: seq<Value>, v: Value)
    requires n0 < n1 < |b| && b[n1] == COMMA
    requires b[n0..n1] == [OPEN_BRACKET] + TerminatedElements(vs) + Pack(v)
    requires ElementsPlaced(vs + [v], n0 + 1)
    requires forall i :: 0 <= i < |vs + [v]| ==> WellFormed((vs + [v])[i])
    ensures ElementsSoFar(b, n0, n1 + 1, vs + [v])
  {
    ElementTerminated(b, n0, n1, vs, v);
  }

  /** The comma after an element terminates it. */
  lemma ElementTerminated(b: seq<byte>, n0: nat, n1: nat, vs: seq<Value>, v: Value)
    requires n0 < n1 < |b| && b[n1] == COMMA
    requires b[n0..n1] == [OPEN_BRACKET] + TerminatedElements(vs) + Pack(v)
    ensures b[n0..n1 + 1] == [OPEN_BRACKET] + TerminatedElements(vs + [v])
  {
    assert (vs + [v])[..|vs|] == vs && (vs + [v])[|vs|] == v;
    assert TerminatedElements(vs + [v]) == TerminatedElements(vs) + Pack(v) + [COMMA];
    assert b[n0..n1 + 1] == b[n0..n1] + [b[n1]];
  }

  /** A ']' after the new element finishes the array, without a trailing
      comma and with no extra of its own. */
  lemma ElementThenClose(b: seq<byte>, n0: nat, n1: nat, vs: seq<Value>, v: Value)
    requires n0 < n1 < |b| && b[n1] == CLOSE_BRACKET
    requires b[n0..n1] == [OPEN_BRACKET] + TerminatedElements(vs) + Pack(v)
    requires ElementsPlaced(vs + [v], n0 + 1)
    requires forall i :: 0 <= i < |vs + [v]| ==> WellFormed((vs + [v])[i])
    ensures NodeParsed(b, n0, ArrayNode(Array(vs + [v], false, [])), n1 + 1)
  {
    assert (vs + [v])[..|vs|] == vs;
    assert b[n0..n1 + 1] == b[n0..n1] + [b[n1]];
    assert IsExtra([]);
  }

  /** A '}' where a name should start finishes the object: the extra before
      it is the object's own, and the trailing comma is set when there is a
      member before it. */
  lemma ObjectCloses(b: seq<byte>, n0: nat, n: nat, at: nat, obj: Object)
    requires n0 < n <= at < |b| && b[at] == CLOSE_BRACE
    requires MembersSoFar(b, n0, n, obj.members)
    requires obj == Object(obj.members, |obj.members| > 0, b[n..at]) && IsExtra(b[n..at])
    ensures NodeParsed(b, n0, ObjectNode(obj), at + 1)
  {
    PackMembersTerminated(obj.members);
    assert b[n0..at + 1] == b[n0..n] + b[n..at] + [b[at]];
  }

  /** A ']' where an element should start finishes the array. */
  lemma ArrayCloses(b: seq<byte>, n0: nat, n: nat, at: nat, arr: Array)
    requires n0 < n <= at < |b| && b[at] == CLOSE_BRACKET
    requires ElementsSoFar(b, n0, n, arr.elements)
    requires arr == Array(arr.elements, |arr.elements| > 0, b[n..at]) && IsExtra(b[n..at])
    ensures NodeParsed(b, n0, ArrayNode(arr), at + 1)
  {
    PackElementsTerminated(arr.elements);
    assert b[n0..at + 1] == b[n0..n] + b[n..at] + [b[at]];
  }
}
