/** The document of section 5 of RFC 6901, cut down to the members whose
    names need no decoding, and what `Value.Find` designates in it: the
    pointers of util/hujson/find_test.go that resolve through these members,
    and the ones that designate nothing. */
module FindExamples {
  import opened Bytes
  import opened Wrappers
  import opened Values
  import opened Pointer

  const FOO: seq<byte> := ['f' as int, 'o' as int, 'o' as int]
  const BAR: seq<byte> := ['b' as int, 'a' as int, 'r' as int]
  const BAZ: seq<byte> := ['b' as int, 'a' as int, 'z' as int]
  /** The name "a/b". */
  const A_SLASH_B: seq<byte> := ['a' as int, SLASH, 'b' as int]
  /** The name "m~n". */
  const M_TILDE_N: seq<byte> := ['m' as int, TILDE, 'n' as int]

  /** A string literal without escapes. */
  function Quoted(s: seq<byte>): Literal {
    [QUOTE] + s + [QUOTE]
  }

  /** A literal without extras; `Find` does not look at offsets. */
  function Leaf(l: Literal): Value {
    Value([], 0, LiteralNode(l), 0, [])
  }

  /** `["bar", "baz"]` */
  function FooArray(): Value {
    Value([], 0, ArrayNode(Array([Leaf(Quoted(BAR)), Leaf(Quoted(BAZ))], false, [])), 0, [])
  }

  /** `{"foo": ["bar", "baz"], "": 0, "a/b": 1, "m~n": 8}` */
  function Doc(): Value {
    Value([], 0, ObjectNode(Object([
      Member(Leaf(Quoted(FOO)), FooArray()),
      Member(Leaf(Quoted([])), Leaf([ZERO])),
      Member(Leaf(Quoted(A_SLASH_B)), Leaf(['1' as int])),
      Member(Leaf(Quoted(M_TILDE_N)), Leaf(['8' as int]))], false, [])), 0, [])
  }

  /** A name written without escapes matches exactly the bytes it holds. */
  lemma QuotedMatches(s: seq<byte>, t: seq<byte>, unquote: Unquote)
    requires BACKSLASH !in s
    ensures EqualString(Quoted(s), t, unquote) <==> s == t
  {
    var b := Quoted(s);
    assert forall i :: 0 <= i < |s| ==> s[i] in s;
    assert BACKSLASH !in b;
    EqualStringFastPath(b, t, unquote);
    if b == [QUOTE] + t + [QUOTE] {
      assert s == b[1..|b| - 1] == t;
    }
  }

  /** The member at `i` is the first one named `name`. */
  lemma NamedAt(name: seq<byte>, i: nat, unquote: Unquote)
    requires i < 4
    requires name == [FOO, [], A_SLASH_B, M_TILDE_N][i]
    ensures NameMatches(Doc().value.obj.members[i], name, unquote)
    ensures forall j :: 0 <= j < i ==> !NameMatches(Doc().value.obj.members[j], name, unquote)
  {
    var ms := Doc().value.obj.members;
    var names := [FOO, [], A_SLASH_B, M_TILDE_N];
    forall j | 0 <= j <= i
      ensures NameMatches(ms[j], name, unquote) <==> names[j] == name
    {
      assert BACKSLASH !in names[j];
      QuotedMatches(names[j], name, unquote);
    }
    forall j | 0 <= j < i
      ensures names[j] != name
    {
      assert names[j] != names[i] by {
        assert |names[j]| != |names[i]| || names[j][0] != names[i][0];
      }
    }
  }

  /** A name holding neither '~' nor '/' is its own reference token. */
  lemma {:induction false} EscapePlain(s: seq<byte>)
    requires TILDE !in s && SLASH !in s
    ensures Escape(s) == s
    decreases |s|
  {
    if s != [] {
      assert s[0] in s;
      assert forall i :: 1 <= i < |s| ==> s[i] in s;
      EscapePlain(s[1..]);
    }
  }

  /** How the names "a/b" and "m~n" are written in a pointer. */
  lemma EscapedNames()
    ensures [SLASH] + Escape(A_SLASH_B) + [] == [SLASH, 'a' as int, TILDE, '1' as int, 'b' as int]
    ensures [SLASH] + Escape(M_TILDE_N) + [] == [SLASH, 'm' as int, TILDE, ZERO, 'n' as int]
  {
    assert A_SLASH_B[1..] == [SLASH, 'b' as int] && A_SLASH_B[1..][1..] == ['b' as int];
    assert M_TILDE_N[1..] == [TILDE, 'n' as int] && M_TILDE_N[1..][1..] == ['n' as int];
    EscapePlain(['b' as int]);
    EscapePlain(['n' as int]);
  }

  /** The empty pointer designates the document, "/foo" its first member. */
  lemma FindsFoo(unquote: Unquote)
    ensures Find(Doc(), [], unquote) == Some(Doc())
    ensures Find(Doc(), [SLASH] + FOO, unquote) == Some(FooArray())
  {
    FindReaches(Doc(), [], unquote);
    NamedAt(FOO, 0, unquote);
    EscapePlain(FOO);
    FindMember(Doc(), FOO, [], unquote, 0);
    FindReaches(FooArray(), [], unquote);
    assert [SLASH] + FOO + [] == [SLASH] + FOO;
  }

  /** "/" designates the member whose name is empty. */
  lemma FindsEmptyName(unquote: Unquote)
    ensures Find(Doc(), [SLASH], unquote) == Some(Leaf([ZERO]))
  {
    NamedAt([], 1, unquote);
    FindMember(Doc(), [], [], unquote, 1);
    FindReaches(Leaf([ZERO]), [], unquote);
    assert [SLASH] + Escape([]) + [] == [SLASH];
  }

  /** "/a~1b" designates the member named "a/b". */
  lemma FindsEscapedSlash(unquote: Unquote)
    ensures Find(Doc(), [SLASH, 'a' as int, TILDE, '1' as int, 'b' as int], unquote) == Some(Leaf(['1' as int]))
  {
    NamedAt(A_SLASH_B, 2, unquote);
    EscapedNames();
    FindMember(Doc(), A_SLASH_B, [], unquote, 2);
    FindReaches(Leaf(['1' as int]), [], unquote);
  }

  /** "/m~0n" designates the member named "m~n". */
  lemma FindsEscapedTilde(unquote: Unquote)
    ensures Find(Doc(), [SLASH, 'm' as int, TILDE, ZERO, 'n' as int], unquote) == Some(Leaf(['8' as int]))
  {
    NamedAt(M_TILDE_N, 3, unquote);
    EscapedNames();
    FindMember(Doc(), M_TILDE_N, [], unquote, 3);
    FindReaches(Leaf(['8' as int]), [], unquote);
  }

  /** Pointers into the array: "0" is its first element, "00" is no index. */
  lemma FindsElements(unquote: Unquote)
    ensures Find(Doc(), [SLASH] + FOO + [SLASH, ZERO], unquote) == Some(Leaf(Quoted(BAR)))
    ensures Find(Doc(), [SLASH] + FOO + [SLASH, ZERO, ZERO], unquote) == None
  {
    var doc := Doc();
    NamedAt(FOO, 0, unquote);
    EscapePlain(FOO);
    FindMember(doc, FOO, [SLASH, ZERO], unquote, 0);
    FindMember(doc, FOO, [SLASH, ZERO, ZERO], unquote, 0);
    FindElement(FooArray(), 0, [], unquote);
    FindReaches(Leaf(Quoted(BAR)), [], unquote);
    assert [SLASH] + Decimal.FormatUint(0) + [] == [SLASH, ZERO];
    PaddedZeroIsNoIndex(FooArray(), [], unquote);
    assert [SLASH, ZERO, ZERO] + [] == [SLASH, ZERO, ZERO];
  }

  /** A pointer without its leading '/' designates nothing. */
  lemma FindsNoSlash(unquote: Unquote)
    ensures Find(Doc(), FOO, unquote) == None
  {
    FindReaches(Doc(), FOO, unquote);
  }

  /** A reference token that names no member designates nothing. */
  lemma FindsNoMember(unquote: Unquote)
    ensures Find(Doc(), [SLASH] + FOO + [SPACE], unquote) == None
  {
    var ms := Doc().value.obj.members;
    var name := FOO + [SPACE];
    var names := [FOO, [], A_SLASH_B, M_TILDE_N];
    forall j | 0 <= j < 4
      ensures !NameMatches(ms[j], name, unquote)
    {
      assert BACKSLASH !in names[j];
      QuotedMatches(names[j], name, unquote);
      assert |names[j]| != |name|;
    }
    assert FirstMatch(ms, name, unquote, 0) == None;
    FooSpaceToken();
  }

  /** "/foo " is one reference token, "foo ", which needs no unescaping. */
  lemma FooSpaceToken()
    ensures Split([SLASH] + FOO + [SPACE]) == (FOO + [SPACE], [])
    ensures Unescape(FOO + [SPACE]) == FOO + [SPACE]
  {
    var token := FOO + [SPACE];
    assert forall k :: 0 <= k < |token| ==> token[k] in token;
    SplitKnown(token, []);
    assert [SLASH] + token + [] == [SLASH] + FOO + [SPACE];
  }
}
