/** `Value.Find` of util/hujson/find.go: resolving a JSON pointer (RFC 6901)
    against a HuJSON tree. Go returns a pointer into the tree, or nil; here
    the result is the value found, or none. Decoding a name that holds
    escape sequences is Go's `json.Unmarshal`, which is not part of this
    model: it is the parameter `unquote`. */
module Pointer {
  import opened Bytes
  import opened Wrappers
  import opened Values
  import Decimal

  /** Decodes a JSON string literal (with its quotation marks) to its bytes,
      or fails. */
  type Unquote = seq<byte> -> Option<seq<byte>>

  /** The escape sequences of section 4 of RFC 6901. */
  const ESCAPED_TILDE: seq<byte> := [TILDE, ZERO]
  const ESCAPED_SLASH: seq<byte> := [TILDE, '1' as int]

  // ---------------------------------------------------------------------
  // Reference tokens

  /** Cuts the leading '/' off a pointer and splits what follows at the next
      '/': the reference token, and the rest of the pointer. */
  function Split(ptr: seq<byte>): (r: (seq<byte>, seq<byte>))
    requires |ptr| > 0 && ptr[0] == SLASH
    ensures ptr == [SLASH] + r.0 + r.1
    ensures SLASH !in r.0
    ensures r.1 == [] || r.1[0] == SLASH
  {
    var p := ptr[1..];
    assert ptr == [SLASH] + p;
    var i := IndexByte(p, SLASH);
    if i >= 0 then
      assert p == p[..i] + p[i..];
      assert forall j :: 0 <= j < i ==> p[..i][j] != SLASH;
      (p[..i], p[i..])
    else
      (p, [])
  }

  /** A reference token with "~1" replaced by '/' and then "~0" by '~';
      a token without '~' is left as it is. */
  function Unescape(token: seq<byte>): seq<byte> {
    if IndexByte(token, TILDE) >= 0 then
      ReplaceAll(ReplaceAll(token, ESCAPED_SLASH, [SLASH]), ESCAPED_TILDE, [TILDE])
    else token
  }

  /** How a name is written as a reference token: '~' as "~0" and '/' as "~1". */
  function Escape(s: seq<byte>): seq<byte>
    decreases |s|
  {
    if s == [] then [] else EscapeByte(s[0]) + Escape(s[1..])
  }

  function EscapeByte(c: byte): seq<byte> {
    if c == TILDE then ESCAPED_TILDE else if c == SLASH then ESCAPED_SLASH else [c]
  }

  /** `s` with each '~' written as "~0" and nothing else changed: what is
      left of an escaped name once "~1" has been replaced. */
  function EscapeTildes(s: seq<byte>): seq<byte>
    decreases |s|
  {
    if s == [] then []
    else (if s[0] == TILDE then ESCAPED_TILDE else [s[0]]) + EscapeTildes(s[1..])
  }

  // ---------------------------------------------------------------------
  // Matching object names

  /** `Literal.equalString`: a string literal without backslashes is
      compared byte for byte between its quotation marks; any other literal
      is decoded first. */
  function EqualString(b: Literal, s: seq<byte>, unquote: Unquote): bool {
    if |b| >= 2 && b[0] == QUOTE && b[|b| - 1] == QUOTE && IndexByte(b, BACKSLASH) < 0 then
      b[1..|b| - 1] == s
    else
      var s2 := unquote(b);
      s2.Some? && s == s2.value
  }

  /** The member's name is a literal that spells `name`. */
  predicate NameMatches(m: Member, name: seq<byte>, unquote: Unquote) {
    m.name.value.LiteralNode? && EqualString(m.name.value.lit, name, unquote)
  }

  /** The first member from index `i` on whose name spells `name`. */
  function FirstMatch(ms: seq<Member>, name: seq<byte>, unquote: Unquote, i: nat): (r: Option<nat>)
    requires i <= |ms|
    ensures r.Some? ==> i <= r.value < |ms| && NameMatches(ms[r.value], name, unquote)
    ensures forall j :: i <= j < |ms| && (r.None? || j < r.value) ==> !NameMatches(ms[j], name, unquote)
    decreases |ms| - i
  {
    if i == |ms| then None
    else if NameMatches(ms[i], name, unquote) then Some(i)
    else FirstMatch(ms, name, unquote, i + 1)
  }

  /** An array index: an unsigned 64-bit decimal, where zero must be written
      as "0" alone. */
  function ArrayIndex(token: seq<byte>): Option<nat> {
    match Decimal.ParseUint(token)
    case None => None
    case Some(i) => if i == 0 && token != [ZERO] then None else Some(i)
  }

  // ---------------------------------------------------------------------
  // Find

  /** One step of `Value.Find`: the value of the first member named `name`,
      the element whose index `name` spells, or none. */
  function Child(v: Value, name: seq<byte>, unquote: Unquote): (r: Option<Value>)
    ensures r.Some? ==> r.value in Targets(v.value)
  {
    match v.value
    case ObjectNode(o) =>
      (match FirstMatch(o.members, name, unquote, 0)
       case None => None
       case Some(i) => assert o.members[i].value == Targets(v.value)[i]; Some(o.members[i].value))
    case ArrayNode(a) =>
      (match ArrayIndex(name)
       case None => None
       case Some(i) => if i < |a.elements| then Some(a.elements[i]) else None)
    case LiteralNode(_) => None
  }

  /** `Value.Find`: the value that `ptr` designates, or none when the
      pointer is malformed or designates nothing. */
  function Find(v: Value, ptr: seq<byte>, unquote: Unquote): Option<Value>
    decreases |ptr|
  {
    if ptr == [] then Some(v)
    else if ptr[0] != SLASH then None
    else
      var (token, rest) := Split(ptr);
      match Child(v, Unescape(token), unquote)
      case None => None
      case Some(c) => Find(c, rest, unquote)
  }

  /** The values a pointer can step to: member values and elements. */
  function Targets(n: Node): (r: seq<Value>)
    ensures n.ObjectNode? ==>
      |r| == |n.obj.members| && forall i :: 0 <= i < |r| ==> r[i] == n.obj.members[i].value
    ensures n.ArrayNode? ==> r == n.arr.elements
    ensures n.LiteralNode? ==> r == []
  {
    match n
    case LiteralNode(_) => []
    case ObjectNode(o) => seq(|o.members|, i requires 0 <= i < |o.members| => o.members[i].value)
    case ArrayNode(a) => a.elements
  }

  /** `w` is reached from `v` in `depth` steps, each to a member value or an
      element. */
  ghost predicate Reaches(v: Value, w: Value, depth: nat)
    decreases depth
  {
    if depth == 0 then w == v
    else exists c :: c in Targets(v.value) && Reaches(c, w, depth - 1)
  }

  // ---------------------------------------------------------------------
  // Lemmas

  /** The empty pointer designates the value itself, a pointer that does
      not start with '/' designates nothing, and anything found lies as many
      steps down the tree as the pointer has reference tokens. */
  lemma {:induction false} FindReaches(v: Value, ptr: seq<byte>, unquote: Unquote)
    ensures ptr == [] ==> Find(v, ptr, unquote) == Some(v)
    ensures ptr != [] && ptr[0] != SLASH ==> Find(v, ptr, unquote) == None
    ensures Find(v, ptr, unquote).Some? ==> Reaches(v, Find(v, ptr, unquote).value, Count(ptr, SLASH))
    decreases |ptr|
  {
    if ptr != [] && ptr[0] == SLASH && Find(v, ptr, unquote).Some? {
      var c := FindStep(v, ptr, unquote);
      var rest := Split(ptr).1;
      var w := Find(v, ptr, unquote).value;
      SplitCount(ptr);
      FindReaches(c, rest, unquote);
      assert c in Targets(v.value) && Reaches(c, w, Count(rest, SLASH));
    }
  }

  /** A literal has nothing for a reference token to designate. */
  lemma FindInLiteral(v: Value, ptr: seq<byte>, unquote: Unquote)
    requires v.value.LiteralNode? && ptr != []
    ensures Find(v, ptr, unquote) == None
  {
    if ptr[0] == SLASH {
      assert Child(v, Unescape(Split(ptr).0), unquote) == None;
    }
  }

  /** A pointer that finds something takes its first step to a child. */
  lemma FindStep(v: Value, ptr: seq<byte>, unquote: Unquote) returns (c: Value)
    requires |ptr| > 0 && ptr[0] == SLASH && Find(v, ptr, unquote).Some?
    ensures c in Targets(v.value)
    ensures Find(v, ptr, unquote) == Find(c, Split(ptr).1, unquote)
  {
    c := Child(v, Unescape(Split(ptr).0), unquote).value;
  }

  /** Each reference token accounts for exactly one '/'. */
  lemma SplitCount(ptr: seq<byte>)
    requires |ptr| > 0 && ptr[0] == SLASH
    ensures Count(ptr, SLASH) == 1 + Count(Split(ptr).1, SLASH)
  {
    var (token, rest) := Split(ptr);
    CountConcat([SLASH] + token, rest, SLASH);
    CountConcat([SLASH], token, SLASH);
    assert Count([SLASH], SLASH) == 1 by {
      assert [SLASH][..0] == [];
    }
    assert Count(token, SLASH) == 0;
  }

  /** An escaped name holds no '/'. */
  lemma {:induction false} EscapeHasNoSlash(s: seq<byte>)
    ensures SLASH !in Escape(s)
    decreases |s|
  {
    if s != [] {
      EscapeHasNoSlash(s[1..]);
    }
  }

  /** Replacing "~1" in an escaped name restores its '/' bytes. */
  lemma {:induction false} UnescapeSlashes(s: seq<byte>)
    ensures ReplaceAll(Escape(s), ESCAPED_SLASH, [SLASH]) == EscapeTildes(s)
    decreases |s|
  {
    if s != [] {
      var t := Escape(s[1..]);
      UnescapeSlashes(s[1..]);
      if s[0] == SLASH {
        ReplaceAllHead(t, ESCAPED_SLASH, [SLASH]);
      } else if s[0] == TILDE {
        assert Escape(s) == ESCAPED_TILDE + t;
        EscapedTildeStays(t);
      } else {
        ReplaceAllCons(s[0], t, ESCAPED_SLASH, [SLASH]);
      }
    }
  }

  /** An escaped '~' is not mistaken for an escaped '/'. */
  lemma EscapedTildeStays(t: seq<byte>)
    ensures ReplaceAll(ESCAPED_TILDE + t, ESCAPED_SLASH, [SLASH]) == ESCAPED_TILDE + ReplaceAll(t, ESCAPED_SLASH, [SLASH])
  {
    var u := ESCAPED_TILDE + t;
    assert u[..2] != ESCAPED_SLASH by {
      assert u[..2][1] == ZERO;
    }
    assert u[1..] == [ZERO] + t;
    ReplaceAllCons(ZERO, t, ESCAPED_SLASH, [SLASH]);
  }

  /** Replacing "~0" then restores the '~' bytes. */
  lemma {:induction false} UnescapeTildes(s: seq<byte>)
    ensures ReplaceAll(EscapeTildes(s), ESCAPED_TILDE, [TILDE]) == s
    decreases |s|
  {
    if s != [] {
      var t := EscapeTildes(s[1..]);
      UnescapeTildes(s[1..]);
      if s[0] == TILDE {
        ReplaceAllHead(t, ESCAPED_TILDE, [TILDE]);
      } else {
        ReplaceAllCons(s[0], t, ESCAPED_TILDE, [TILDE]);
      }
      assert [s[0]] + s[1..] == s;
    }
  }

  /** Unescaping undoes escaping: every name can be written as a reference
      token. */
  lemma UnescapeEscape(s: seq<byte>)
    ensures Unescape(Escape(s)) == s
  {
    UnescapeSlashes(s);
    UnescapeTildes(s);
    if IndexByte(Escape(s), TILDE) < 0 {
      assert TILDE !in Escape(s);
      ReplaceAllAbsent(Escape(s), ESCAPED_SLASH, [SLASH]);
      ReplaceAllAbsent(EscapeTildes(s), ESCAPED_TILDE, [TILDE]);
    }
  }

  /** Unescaping replaces "~1" first: "~01" stands for "~1", not for "/". */
  lemma UnescapeOrder()
    ensures Unescape([TILDE, ZERO, '1' as int]) == [TILDE, '1' as int]
  {
    var t := [TILDE, ZERO, '1' as int];
    assert IndexByte(t, TILDE) == 0;
    ReplaceAllCons(ZERO, ['1' as int], ESCAPED_SLASH, [SLASH]);
    assert ReplaceAll(t, ESCAPED_SLASH, [SLASH]) == [TILDE] + ReplaceAll([ZERO, '1' as int], ESCAPED_SLASH, [SLASH]) by {
      assert t[..2][1] == ZERO;
      assert t[1..] == [ZERO, '1' as int];
    }
    assert ReplaceAll(['1' as int], ESCAPED_SLASH, [SLASH]) == ['1' as int];
    assert ReplaceAll(t, ESCAPED_SLASH, [SLASH]) == t;
    ReplaceAllHead(['1' as int], ESCAPED_TILDE, [TILDE]);
    assert t == ESCAPED_TILDE + ['1' as int];
  }

  /** A name written between quotation marks without backslashes matches
      exactly its own bytes: on that path `equalString` holds exactly when
      the literal is the name in quotation marks. */
  lemma EqualStringFastPath(b: Literal, s: seq<byte>, unquote: Unquote)
    requires |b| >= 2 && b[0] == QUOTE && b[|b| - 1] == QUOTE && BACKSLASH !in b
    ensures EqualString(b, s, unquote) <==> b == [QUOTE] + s + [QUOTE]
  {
    if b == [QUOTE] + s + [QUOTE] {
      assert b[1..|b| - 1] == s;
    }
    if b[1..|b| - 1] == s {
      assert b == [b[0]] + b[1..|b| - 1] + [b[|b| - 1]];
    }
  }

  /** Following an escaped name into an object leads into the value of the
      first member with that name; later members with the same name are
      never reached. */
  lemma FindMember(v: Value, name: seq<byte>, rest: seq<byte>, unquote: Unquote, i: nat)
    requires v.value.ObjectNode? && i < |v.value.obj.members|
    requires rest == [] || rest[0] == SLASH
    requires NameMatches(v.value.obj.members[i], name, unquote)
    requires forall j :: 0 <= j < i ==> !NameMatches(v.value.obj.members[j], name, unquote)
    ensures Find(v, [SLASH] + Escape(name) + rest, unquote) == Find(v.value.obj.members[i].value, rest, unquote)
  {
    var ptr := [SLASH] + Escape(name) + rest;
    EscapeHasNoSlash(name);
    SplitKnown(Escape(name), rest);
    UnescapeEscape(name);
    var r := FirstMatch(v.value.obj.members, name, unquote, 0);
    assert r == Some(i);
  }

  /** A pointer split at a known token boundary. */
  lemma SplitKnown(token: seq<byte>, rest: seq<byte>)
    requires SLASH !in token && (rest == [] || rest[0] == SLASH)
    ensures Split([SLASH] + token + rest) == (token, rest)
  {
    var ptr := [SLASH] + token + rest;
    var p := ptr[1..];
    assert p == token + rest;
    var k := IndexByte(p, SLASH);
    if rest == [] {
      assert p == token;
      assert forall j :: 0 <= j < |p| ==> p[j] != SLASH by {
        forall j | 0 <= j < |p| ensures p[j] != SLASH {
          assert p[j] in token;
        }
      }
    } else {
      assert p[|token|] == SLASH;
      assert k == |token|;
      assert p[..k] == token && p[k..] == rest;
    }
  }

  /** One step into an array along a token without '/' or '~': the token
      must spell an index, and the index must be in range. */
  lemma FindArrayStep(v: Value, token: seq<byte>, rest: seq<byte>, unquote: Unquote)
    requires v.value.ArrayNode? && SLASH !in token && TILDE !in token
    requires rest == [] || rest[0] == SLASH
    ensures ArrayIndex(token).None? ==> Find(v, [SLASH] + token + rest, unquote) == None
    ensures ArrayIndex(token).Some? && ArrayIndex(token).value >= |v.value.arr.elements| ==>
      Find(v, [SLASH] + token + rest, unquote) == None
    ensures ArrayIndex(token).Some? && ArrayIndex(token).value < |v.value.arr.elements| ==>
      Find(v, [SLASH] + token + rest, unquote) == Find(v.value.arr.elements[ArrayIndex(token).value], rest, unquote)
  {
    SplitKnown(token, rest);
    assert forall j :: 0 <= j < |token| ==> token[j] in token;
    assert Unescape(token) == token;
  }

  /** Following the decimal spelling of an index into an array leads into
      that element. */
  lemma FindElement(v: Value, i: nat, rest: seq<byte>, unquote: Unquote)
    requires v.value.ArrayNode? && i < |v.value.arr.elements| && i < Decimal.UINT64_LIMIT
    requires rest == [] || rest[0] == SLASH
    ensures Find(v, [SLASH] + Decimal.FormatUint(i) + rest, unquote) == Find(v.value.arr.elements[i], rest, unquote)
  {
    var token := Decimal.FormatUint(i);
    assert SLASH !in token && TILDE !in token by {
      forall k | 0 <= k < |token| ensures token[k] != SLASH && token[k] != TILDE {
        assert IsDigit(token[k]);
      }
    }
    Decimal.ParseFormatUint(i);
    assert ArrayIndex(token) == Some(i);
    FindArrayStep(v, token, rest, unquote);
  }

  /** "00" is zero written with a leading zero: not an index. */
  lemma PaddedZero()
    ensures ArrayIndex([ZERO, ZERO]) == None
  {
    assert Decimal.DigitsValue([ZERO]) == 0 by {
      assert [ZERO][..0] == [];
    }
    assert Decimal.DigitsValue([ZERO, ZERO]) == Decimal.DigitsValue([ZERO]) * 10 by {
      assert [ZERO, ZERO][..1] == [ZERO];
    }
  }

  /** "01" is one with a leading zero: Go's parser accepts it. */
  lemma PaddedOne()
    ensures ArrayIndex([ZERO, '1' as int]) == Some(1)
  {
    assert Decimal.DigitsValue([ZERO]) == 0 by {
      assert [ZERO][..0] == [];
    }
    assert Decimal.DigitsValue([ZERO, '1' as int]) == Decimal.DigitsValue([ZERO]) * 10 + 1 by {
      assert [ZERO, '1' as int][..1] == [ZERO];
    }
  }

  /** Zero written with more than one digit is not an index. */
  lemma PaddedZeroIsNoIndex(v: Value, rest: seq<byte>, unquote: Unquote)
    requires v.value.ArrayNode?
    requires rest == [] || rest[0] == SLASH
    ensures Find(v, [SLASH, ZERO, ZERO] + rest, unquote) == None
  {
    PaddedZero();
    FindArrayStep(v, [ZERO, ZERO], rest, unquote);
    assert [SLASH, ZERO, ZERO] == [SLASH] + [ZERO, ZERO];
  }

  /** Only an all-zero token is refused for its leading zeros: "01" is
      accepted as index 1. */
  lemma LeadingZeroIndex(v: Value, rest: seq<byte>, unquote: Unquote)
    requires v.value.ArrayNode? && 1 < |v.value.arr.elements|
    requires rest == [] || rest[0] == SLASH
    ensures Find(v, [SLASH, ZERO, '1' as int] + rest, unquote) == Find(v.value.arr.elements[1], rest, unquote)
  {
    PaddedOne();
    FindArrayStep(v, [ZERO, '1' as int], rest, unquote);
    assert [SLASH, ZERO, '1' as int] == [SLASH] + [ZERO, '1' as int];
  }
}
