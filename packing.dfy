/** The text a HuJSON tree stands for, and the shape every parsed tree has.

    `Pack` serializes a tree: the before-extra, the literal bytes or the
    container with its punctuation, then the after-extra. A container emits a
    trailing ',' after its last member or element when its flag is set, then
    its own after-extra, then its closing byte. This is the layout that the
    package documentation promises (util/hujson/types.go:20-22) and that the
    parser records; the body of `Value.Pack` is not part of this model, so
    this function serves only to state the lossless round trip and the
    length preservation of the transforms.

    `Placed(v, at)` says that the offsets stored in `v` and in all of its
    descendants are those of `Pack(v)` laid out from offset `at`.
    `WellFormed(v)` says that every extra is whitespace and complete
    comments, every literal is a JSON scalar, every object name is a string,
    and no empty container claims a trailing comma. */
module Packing {
  import opened Bytes
  import opened Values
  import Json
  import Lexer

  // ---------------------------------------------------------------------
  // Serialization

  function Pack(v: Value): seq<byte>
    decreases v, 1
  {
    v.beforeExtra + PackNode(v.value) + v.afterExtra
  }

  function PackNode(n: Node): seq<byte>
    decreases n, 0
  {
    match n
    case LiteralNode(l) => l
    case ObjectNode(o) =>
      [OPEN_BRACE] + PackMembers(o.members, o.emitTrailingComma) + o.afterExtra + [CLOSE_BRACE]
    case ArrayNode(a) =>
      [OPEN_BRACKET] + PackElements(a.elements, a.emitTrailingComma) + a.afterExtra + [CLOSE_BRACKET]
  }

  /** A member: its name, a colon, its value. */
  function PackMember(m: Member): seq<byte>
    decreases m
  {
    Pack(m.name) + [COLON] + Pack(m.value)
  }

  /** Members each followed by a comma. */
  function Terminated(ms: seq<Member>): seq<byte>
    decreases ms, 0
  {
    if ms == [] then [] else Terminated(ms[..|ms| - 1]) + PackMember(ms[|ms| - 1]) + [COMMA]
  }

  /** Members separated by commas, with a comma after the last one when
      `trailingComma` is set. */
  function PackMembers(ms: seq<Member>, trailingComma: bool): seq<byte>
    decreases ms, 1
  {
    if ms == [] then []
    else if trailingComma then Terminated(ms)
    else Terminated(ms[..|ms| - 1]) + PackMember(ms[|ms| - 1])
  }

  /** Elements each followed by a comma. */
  function TerminatedElements(vs: seq<Value>): seq<byte>
    decreases vs, 0
  {
    if vs == [] then [] else TerminatedElements(vs[..|vs| - 1]) + Pack(vs[|vs| - 1]) + [COMMA]
  }

  /** Elements separated by commas, with a comma after the last one when
      `trailingComma` is set. */
  function PackElements(vs: seq<Value>, trailingComma: bool): seq<byte>
    decreases vs, 1
  {
    if vs == [] then []
    else if trailingComma then TerminatedElements(vs)
    else TerminatedElements(vs[..|vs| - 1]) + Pack(vs[|vs| - 1])
  }

  // ---------------------------------------------------------------------
  // Offsets

  /** The offsets of `v` and of all its descendants are where `Pack(v)`
      puts them when it is laid out from offset `at`. */
  predicate Placed(v: Value, at: int)
    decreases v, 1
  {
    v.startOffset == at + |v.beforeExtra| &&
    v.endOffset == v.startOffset + |PackNode(v.value)| &&
    NodePlaced(v.value, v.startOffset)
  }

  predicate NodePlaced(n: Node, at: int)
    decreases n, 0
  {
    match n
    case LiteralNode(_) => true
    case ObjectNode(o) => MembersPlaced(o.members, at + 1)
    case ArrayNode(a) => ElementsPlaced(a.elements, at + 1)
  }

  predicate MemberPlaced(m: Member, at: int)
    decreases m
  {
    Placed(m.name, at) && Placed(m.value, at + |Pack(m.name)| + 1)
  }

  /** Members laid out from `at`, each followed by a comma. */
  predicate MembersPlaced(ms: seq<Member>, at: int)
    decreases ms
  {
    ms == [] ||
    (MembersPlaced(ms[..|ms| - 1], at) && MemberPlaced(ms[|ms| - 1], at + |Terminated(ms[..|ms| - 1])|))
  }

  /** Elements laid out from `at`, each followed by a comma. */
  predicate ElementsPlaced(vs: seq<Value>, at: int)
    decreases vs
  {
    vs == [] ||
    (ElementsPlaced(vs[..|vs| - 1], at) && Placed(vs[|vs| - 1], at + |TerminatedElements(vs[..|vs| - 1])|))
  }

  // ---------------------------------------------------------------------
  // Well-formed trees

  predicate WellFormed(v: Value)
    decreases v, 1
  {
    Lexer.IsExtra(v.beforeExtra) && Lexer.IsExtra(v.afterExtra) && NodeWellFormed(v.value)
  }

  predicate NodeWellFormed(n: Node)
    decreases n, 0
  {
    match n
    case LiteralNode(l) => IsValidLiteral(l)
    case ObjectNode(o) =>
      Lexer.IsExtra(o.afterExtra) && (o.emitTrailingComma ==> o.members != []) &&
      forall i :: 0 <= i < |o.members| ==> MemberWellFormed(o.members[i])
    case ArrayNode(a) =>
      Lexer.IsExtra(a.afterExtra) && (a.emitTrailingComma ==> a.elements != []) &&
      forall i :: 0 <= i < |a.elements| ==> WellFormed(a.elements[i])
  }

  /** Both parts are well formed, and the name is a string literal. */
  predicate MemberWellFormed(m: Member)
    decreases m
  {
    WellFormed(m.name) && WellFormed(m.value) &&
    m.name.value.LiteralNode? && Json.IsString(m.name.value.lit)
  }

  // ---------------------------------------------------------------------
  // Lemmas

  /** Closing a container right after a comma: with the flag set exactly
      when there is a member, the members are each followed by a comma. */
  lemma PackMembersTerminated(ms: seq<Member>)
    ensures PackMembers(ms, ms != []) == Terminated(ms)
  {
  }

  lemma PackElementsTerminated(vs: seq<Value>)
    ensures PackElements(vs, vs != []) == TerminatedElements(vs)
  {
  }
}
