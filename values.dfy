/** The HuJSON syntax tree of util/hujson/types.go: values with their
    surrounding extras and offsets, literals, objects and arrays; the literal
    kinds and builders, deep copies, the helpers shared by objects and arrays,
    and `Extra.IsValid`. Go's pointers into the tree become values: an
    operation that mutates a child in place here returns the updated tree. */
module Values {
  import opened Bytes
  import opened Wrappers
  import Json
  import Decimal
  import Lexer

  /** Whitespace and comments, as their raw bytes. */
  type Extra = seq<byte>

  /** The raw bytes of a JSON null, boolean, string or number. */
  type Literal = seq<byte>

  /** A JSON value with the extras around it. The offsets are those of the
      first byte of the value and of the byte after it in the parsed input. */
  datatype Value = Value(
    beforeExtra: Extra,
    startOffset: int,
    value: Node,
    endOffset: int,
    afterExtra: Extra)

  /** The value itself: `Literal | *Object | *Array`. */
  datatype Node =
    | LiteralNode(lit: Literal)
    | ObjectNode(obj: Object)
    | ArrayNode(arr: Array)

  /** An object member: its name and its value. */
  datatype Member = Member(name: Value, value: Value)

  /** `afterExtra` lies after the last member, before the closing '}'. */
  datatype Object = Object(members: seq<Member>, emitTrailingComma: bool, afterExtra: Extra)

  /** `afterExtra` lies after the last element, before the closing ']'. */
  datatype Array = Array(elements: seq<Value>, emitTrailingComma: bool, afterExtra: Extra)

  // ---------------------------------------------------------------------
  // Literal kinds, builders and accessors

  const KIND_NULL: byte := 'n' as int
  const KIND_FALSE: byte := 'f' as int
  const KIND_TRUE: byte := 't' as int
  const KIND_STRING: byte := '"' as int
  const KIND_NUMBER: byte := '0' as int
  const KIND_OBJECT: byte := '{' as int
  const KIND_ARRAY: byte := '[' as int

  /** `Literal.Kind`: the first byte of the literal's grammar, '0' for every
      number, and 0 for an empty literal or one that starts no JSON scalar. */
  function LiteralKind(l: Literal): byte {
    if |l| == 0 then 0
    else if l[0] == KIND_NULL || l[0] == KIND_FALSE || l[0] == KIND_TRUE || l[0] == QUOTE then l[0]
    else if l[0] == MINUS || IsDigit(l[0]) then KIND_NUMBER
    else 0
  }

  /** `Kind` of any value: '{' for objects and '[' for arrays. */
  function NodeKind(n: Node): byte {
    match n
    case LiteralNode(l) => LiteralKind(l)
    case ObjectNode(_) => KIND_OBJECT
    case ArrayNode(_) => KIND_ARRAY
  }

  /** `Literal.IsValid`: a JSON null, boolean, string or number, without
      surrounding whitespace. */
  predicate IsValidLiteral(l: Literal) {
    Json.IsScalar(l)
  }

  /** The kind of a valid literal names what it is: each of the five kinds
      holds exactly for the literals of that grammar. */
  lemma KindOfValid(l: Literal)
    requires IsValidLiteral(l)
    ensures LiteralKind(l) == KIND_NULL <==> l == Json.NULL
    ensures LiteralKind(l) == KIND_TRUE <==> l == Json.TRUE
    ensures LiteralKind(l) == KIND_FALSE <==> l == Json.FALSE
    ensures LiteralKind(l) == KIND_NUMBER <==> Json.IsNumber(l)
    ensures LiteralKind(l) == KIND_STRING <==> Json.IsString(l)
    ensures LiteralKind(l) != 0
  {
    if Json.IsNumber(l) {
      Json.NumberShape(l);
    }
    if Json.IsString(l) {
      assert l[0] == QUOTE;
    }
    assert Json.NULL[0] == KIND_NULL && Json.TRUE[0] == KIND_TRUE && Json.FALSE[0] == KIND_FALSE;
  }

  /** The `Bool` builder. */
  function Bool(v: bool): Literal {
    if v then Json.TRUE else Json.FALSE
  }

  /** The `Int` builder: `v` in decimal ASCII. */
  function Int(v: Decimal.int64): Literal {
    Decimal.FormatInt(v)
  }

  /** The `Uint` builder: `v` in decimal ASCII. */
  function Uint(v: Decimal.uint64): Literal {
    Decimal.FormatUint(v)
  }

  /** `Literal.Bool`: true exactly for the bytes `true`. */
  function LiteralBool(l: Literal): bool {
    l == Json.TRUE
  }

  /** `Bool` and `Literal.Bool` are inverse, and `Bool` builds valid booleans. */
  lemma BoolRoundTrip(v: bool)
    ensures LiteralBool(Bool(v)) == v
    ensures IsValidLiteral(Bool(v))
    ensures LiteralKind(Bool(v)) == (if v then KIND_TRUE else KIND_FALSE)
  {
    assert Json.TRUE != Json.FALSE by {
      assert |Json.TRUE| != |Json.FALSE|;
    }
    assert Json.TRUE[0] == KIND_TRUE && Json.FALSE[0] == KIND_FALSE;
  }

  /** `Int` and `Uint` build valid JSON numbers, of kind '0'. */
  lemma IntegersAreNumbers(i: Decimal.int64, u: Decimal.uint64)
    ensures IsValidLiteral(Int(i)) && LiteralKind(Int(i)) == KIND_NUMBER
    ensures IsValidLiteral(Uint(u)) && LiteralKind(Uint(u)) == KIND_NUMBER
  {
    Decimal.FormatIsNumber(i);
    Decimal.FormatIsNumber(u);
    Json.NumberShape(Int(i));
    Json.NumberShape(Uint(u));
  }

  // ---------------------------------------------------------------------
  // Deep copies

  /** `copyBytes`: a fresh copy of the bytes. */
  function CopyBytes(b: seq<byte>): (r: seq<byte>)
    ensures r == b
  {
    seq(|b|, i requires 0 <= i < |b| => b[i])
  }

  /** `Value.Clone`: a deep copy, equal to the original in every part. */
  function CloneValue(v: Value): (r: Value)
    ensures r == v
    decreases v, 2
  {
    v.(beforeExtra := CopyBytes(v.beforeExtra),
       value := CloneNode(v.value),
       afterExtra := CopyBytes(v.afterExtra))
  }

  /** `Clone` of a literal, an object or an array. */
  function CloneNode(n: Node): (r: Node)
    ensures r == n
    decreases n, 1
  {
    match n
    case LiteralNode(l) => LiteralNode(CopyBytes(l))
    case ObjectNode(o) =>
      ObjectNode(o.(members := CloneMembers(o.members), afterExtra := CopyBytes(o.afterExtra)))
    case ArrayNode(a) =>
      ArrayNode(a.(elements := CloneElements(a.elements), afterExtra := CopyBytes(a.afterExtra)))
  }

  /** The members of a cloned object: each name and value cloned, in order. */
  function CloneMembers(ms: seq<Member>): (r: seq<Member>)
    ensures r == ms
    decreases ms
  {
    if ms == [] then [] else CloneMembers(ms[..|ms| - 1]) + [CloneMember(ms[|ms| - 1])]
  }

  /** A cloned member: its name and its value cloned. */
  function CloneMember(m: Member): (r: Member)
    ensures r == m
  {
    Member(CloneValue(m.name), CloneValue(m.value))
  }

  /** The elements of a cloned array, each cloned, in order. */
  function CloneElements(vs: seq<Value>): (r: seq<Value>)
    ensures r == vs
    decreases vs
  {
    if vs == [] then [] else CloneElements(vs[..|vs| - 1]) + [CloneValue(vs[|vs| - 1])]
  }

  // ---------------------------------------------------------------------
  // The helpers shared by objects and arrays (`composite`)

  /** The values a container holds, in order: for an object the name and
      then the value of each member, for an array each element. */
  function Children(n: Node): (r: seq<Value>)
    ensures n.ObjectNode? ==> |r| == 2 * |n.obj.members|
    ensures n.ObjectNode? ==> forall i :: 0 <= i < |n.obj.members| ==>
      r[2 * i] == n.obj.members[i].name && r[2 * i + 1] == n.obj.members[i].value
    ensures n.ArrayNode? ==> r == n.arr.elements
    ensures n.LiteralNode? ==> r == []
  {
    match n
    case LiteralNode(_) => []
    case ObjectNode(o) => MemberValues(o.members)
    case ArrayNode(a) => a.elements
  }

  function MemberValues(ms: seq<Member>): (r: seq<Value>)
    ensures |r| == 2 * |ms|
    ensures forall i :: 0 <= i < |ms| ==> r[2 * i] == ms[i].name && r[2 * i + 1] == ms[i].value
  {
    if ms == [] then []
    else MemberValues(ms[..|ms| - 1]) + [ms[|ms| - 1].name, ms[|ms| - 1].value]
  }

  /** `len`: the number of members or elements. */
  function Len(n: Node): nat
    requires !n.LiteralNode?
  {
    if n.ObjectNode? then |n.obj.members| else |n.arr.elements|
  }

  /** `firstValue`: the first member's name, or the first element. */
  function FirstValue(n: Node): Option<Value>
    requires !n.LiteralNode?
  {
    match n
    case ObjectNode(o) => if |o.members| > 0 then Some(o.members[0].name) else None
    case ArrayNode(a) => if |a.elements| > 0 then Some(a.elements[0]) else None
  }

  /** `lastValue`: the last member's value, or the last element. */
  function LastValue(n: Node): Option<Value>
    requires !n.LiteralNode?
  {
    match n
    case ObjectNode(o) => if |o.members| > 0 then Some(o.members[|o.members| - 1].value) else None
    case ArrayNode(a) => if |a.elements| > 0 then Some(a.elements[|a.elements| - 1]) else None
  }

  /** `firstValue` and `lastValue` are the first and the last of the
      children, and there are none exactly when the container is empty. */
  lemma FirstAndLastChildren(n: Node)
    requires !n.LiteralNode?
    ensures FirstValue(n).None? <==> Len(n) == 0
    ensures LastValue(n).None? <==> Len(n) == 0
    ensures Len(n) > 0 ==> FirstValue(n) == Some(Children(n)[0])
    ensures Len(n) > 0 ==> LastValue(n) == Some(Children(n)[|Children(n)| - 1])
  {
    if n.ObjectNode? && Len(n) > 0 {
      var k := |n.obj.members| - 1;
      assert Children(n)[2 * k + 1] == n.obj.members[k].value;
      assert Children(n)[2 * 0] == n.obj.members[0].name;
    }
  }

  /** What `rangeValues` does with the children `cs`: it calls `f` on them in
      order (`calls`), stops at the first call that returns false, and
      reports whether every call returned true. */
  ghost predicate RangedOver(cs: seq<Value>, f: Value -> bool, ok: bool, calls: seq<Value>) {
    |calls| <= |cs| && calls == cs[..|calls|] &&
    (ok <==> forall i :: 0 <= i < |cs| ==> f(cs[i])) &&
    (ok ==> calls == cs) &&
    (!ok ==> |calls| > 0 && !f(calls[|calls| - 1]) && forall i :: 0 <= i < |calls| - 1 ==> f(calls[i]))
  }

  /** `Object.rangeValues`: the name and then the value of each member. */
  method ObjectRangeValues(o: Object, f: Value -> bool) returns (ok: bool, ghost calls: seq<Value>)
    ensures RangedOver(Children(ObjectNode(o)), f, ok, calls)
  {
    ghost var cs := Children(ObjectNode(o));
    calls := [];
    var i := 0;
    while i < |o.members|
      invariant 0 <= i <= |o.members|
      invariant calls == cs[..2 * i]
      invariant forall j :: 0 <= j < 2 * i ==> f(cs[j])
    {
      calls := calls + [o.members[i].name];
      assert calls == cs[..2 * i + 1];
      if !f(o.members[i].name) {
        return false, calls;
      }
      calls := calls + [o.members[i].value];
      assert calls == cs[..2 * i + 2];
      if !f(o.members[i].value) {
        return false, calls;
      }
      i := i + 1;
    }
    assert calls == cs;
    return true, calls;
  }

  /** `Array.rangeValues`: each element. */
  method ArrayRangeValues(a: Array, f: Value -> bool) returns (ok: bool, ghost calls: seq<Value>)
    ensures RangedOver(Children(ArrayNode(a)), f, ok, calls)
  {
    calls := [];
    var i := 0;
    while i < |a.elements|
      invariant 0 <= i <= |a.elements|
      invariant calls == a.elements[..i]
      invariant forall j :: 0 <= j < i ==> f(a.elements[j])
    {
      calls := calls + [a.elements[i]];
      if !f(a.elements[i]) {
        return false, calls;
      }
      i := i + 1;
    }
    assert calls == a.elements;
    return true, calls;
  }

  // ---------------------------------------------------------------------
  // Extra.IsValid

  /** Skipping succeeds over the whole of a valid extra. */
  lemma {:induction false} SkipWholeExtra(b: seq<byte>, n: nat)
    requires n <= |b| && Lexer.IsExtra(b[n..])
    ensures Lexer.SkipExtra(b, n) == (|b|, None)
    decreases |b| - n
  {
    if n < |b| {
      var s := b[n..];
      assert s[0] == b[n];
      if IsSpace(b[n]) {
        assert s[1..] == b[n + 1..];
        SkipWholeExtra(b, n + 1);
      } else {
        var k := Lexer.ScanComment(s).length;
        assert s[k..] == b[n + k..];
        SkipWholeExtra(b, n + k);
      }
    }
  }

  /** `Extra.IsValid`: `consumeExtra` skips all of `e` without error, which
      is exactly when `e` is whitespace and complete comments. */
  method ExtraIsValid(e: Extra) returns (ok: bool)
    ensures ok <==> Lexer.IsExtra(e)
  {
    var n, err := Lexer.ConsumeExtra(0, e);
    ok := n == |e| && err.None?;
    Lexer.SkipExtraIsExtra(e, 0);
    assert e[0..|e|] == e;
    if Lexer.IsExtra(e) {
      assert e[0..] == e;
      SkipWholeExtra(e, 0);
    }
  }
}
