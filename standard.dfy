/** The transforms of util/hujson/standard.go.

    `Minimize` drops every extra and every trailing comma; `Standardize`
    overwrites comments and trailing commas with spaces, so that the text
    keeps its length and its line structure. Go rewrites the tree in place
    through the pointers that `rangeValues` hands out; here the tree is a
    value, and each method returns the rewritten tree. The offsets are kept
    as they are: the recomputation (`UpdateOffsets`) that the exported
    methods run afterwards is not part of this model, and for `Standardize`
    the lemma `StandardizedPlaced` shows it has nothing to change. */
module Standard {
  import opened Bytes
  import opened Values
  import opened Packing
  import Lexer
  import Parser

  // ---------------------------------------------------------------------
  // Extra.standardize

  /** `t` is `s` with some bytes other than whitespace overwritten by spaces. */
  predicate Neutralized(s: seq<byte>, t: seq<byte>) {
    |t| == |s| && forall i :: 0 <= i < |s| ==> t[i] == s[i] || (t[i] == SPACE && !IsSpace(s[i]))
  }

  /** Only whitespace bytes. */
  predicate AllSpace(s: seq<byte>) {
    forall i :: 0 <= i < |s| ==> IsSpace(s[i])
  }

  /** What `Extra.standardize` leaves of one byte. */
  function BlankByte(c: byte): byte {
    if IsSpace(c) then c else SPACE
  }

  /** `Extra.standardize`: every byte that is not whitespace becomes a space. */
  function Blank(e: Extra): (r: Extra)
    ensures Neutralized(e, r) && AllSpace(r)
  {
    seq(|e|, i requires 0 <= i < |e| => BlankByte(e[i]))
  }

  /** `Extra.standardize`, in place. */
  method StandardizeExtra(b: array<byte>)
    modifies b
    ensures b[..] == Blank(old(b[..]))
  {
    for i := 0 to b.Length
      invariant forall j :: 0 <= j < i ==> b[j] == BlankByte(old(b[j]))
      invariant forall j :: i <= j < b.Length ==> b[j] == old(b[j])
    {
      if !IsSpace(b[i]) {
        b[i] := SPACE;
      }
    }
  }

  /** Standardizes a copy of `e` in place and returns it. */
  method BlankExtra(e: Extra) returns (r: Extra)
    ensures r == Blank(e)
  {
    var b := new byte[|e|](i requires 0 <= i < |e| => e[i]);
    StandardizeExtra(b);
    r := b[..];
  }

  /** Blanking twice is blanking once. */
  lemma BlankIdempotent(e: Extra)
    ensures Blank(Blank(e)) == Blank(e)
  {
  }

  /** Blanked bytes are a valid extra. */
  lemma BlankIsExtra(e: Extra)
    ensures Lexer.IsExtra(Blank(e))
  {
    Lexer.SpacesAreExtra(Blank(e));
  }

  /** Whitespace followed by an extra is an extra. */
  lemma SpacesThenExtra(w: seq<byte>, e: seq<byte>)
    requires AllSpace(w) && Lexer.IsExtra(e)
    ensures Lexer.IsExtra(w + e)
  {
    Lexer.SpacesAreExtra(w);
    Lexer.ExtraConcat(w, e);
  }

  /** Neutralized parts make a neutralized whole. */
  lemma NeutralizedConcat(s1: seq<byte>, t1: seq<byte>, s2: seq<byte>, t2: seq<byte>)
    requires Neutralized(s1, t1) && Neutralized(s2, t2)
    ensures Neutralized(s1 + s2, t1 + t2)
  {
    forall i | 0 <= i < |s1 + s2|
      ensures (t1 + t2)[i] == (s1 + s2)[i] || ((t1 + t2)[i] == SPACE && !IsSpace((s1 + s2)[i]))
    {
      if i >= |s1| {
        assert (t1 + t2)[i] == t2[i - |s1|] && (s1 + s2)[i] == s2[i - |s1|];
      }
    }
  }

  /** Texts with newlines in the same places have the same number of
      newlines and the same last newline. */
  lemma {:induction false} SameNewlines(s: seq<byte>, t: seq<byte>)
    requires |s| == |t| && forall i :: 0 <= i < |s| ==> (s[i] == NEWLINE <==> t[i] == NEWLINE)
    ensures Count(s, NEWLINE) == Count(t, NEWLINE)
    ensures LastIndexByte(s, NEWLINE) == LastIndexByte(t, NEWLINE)
    decreases |s|
  {
    if s != [] {
      SameNewlines(s[..|s| - 1], t[..|t| - 1]);
    }
  }

  /** Overwriting bytes other than whitespace keeps every offset on the
      same line and column. */
  lemma NeutralizedLineColumn(s: seq<byte>, t: seq<byte>, n: nat)
    requires Neutralized(s, t) && n <= |s|
    ensures Parser.LineColumn(s, n) == Parser.LineColumn(t, n)
  {
    SameNewlines(s[..n], t[..n]);
  }

  // ---------------------------------------------------------------------
  // minimize

  /** `Value.minimize`: no extras and no trailing commas anywhere in the
      tree; literals, names and the order of members and elements stay. */
  function Minimized(v: Value): Value
    decreases v, 1
  {
    Value([], v.startOffset, MinimizedNode(v.value), v.endOffset, [])
  }

  function MinimizedNode(n: Node): Node
    decreases n, 0
  {
    match n
    case LiteralNode(_) => n
    case ObjectNode(o) =>
      ObjectNode(Object(seq(|o.members|, i requires 0 <= i < |o.members| => MinimizedMember(o.members[i])), false, []))
    case ArrayNode(a) =>
      ArrayNode(Array(seq(|a.elements|, i requires 0 <= i < |a.elements| => Minimized(a.elements[i])), false, []))
  }

  function MinimizedMember(m: Member): Member
    decreases m
  {
    Member(Minimized(m.name), Minimized(m.value))
  }

  /** No extra and no trailing comma anywhere in the tree. */
  predicate Stripped(v: Value)
    decreases v, 1
  {
    v.beforeExtra == [] && v.afterExtra == [] && StrippedNode(v.value)
  }

  predicate StrippedNode(n: Node)
    decreases n, 0
  {
    match n
    case LiteralNode(_) => true
    case ObjectNode(o) =>
      !o.emitTrailingComma && o.afterExtra == [] &&
      forall i :: 0 <= i < |o.members| ==> Stripped(o.members[i].name) && Stripped(o.members[i].value)
    case ArrayNode(a) =>
      !a.emitTrailingComma && a.afterExtra == [] &&
      forall i :: 0 <= i < |a.elements| ==> Stripped(a.elements[i])
  }

  /** `Value.minimize`, walking the children as `rangeValues` does. */
  method Minimize(v: Value) returns (r: Value)
    ensures r == Minimized(v)
    decreases v, 1
  {
    var node := MinimizeNode(v.value);
    r := Value([], v.startOffset, node, v.endOffset, []);
  }

  method MinimizeNode(n: Node) returns (r: Node)
    ensures r == MinimizedNode(n)
    decreases n, 0
  {
    match n {
      case LiteralNode(_) =>
        r := n;
      case ObjectNode(o) =>
        var members: seq<Member> := [];
        for i := 0 to |o.members|
          invariant |members| == i
          invariant forall j :: 0 <= j < i ==> members[j] == MinimizedMember(o.members[j])
        {
          var name := Minimize(o.members[i].name);
          var value := Minimize(o.members[i].value);
          members := members + [Member(name, value)];
        }
        r := ObjectNode(Object(members, false, []));
      case ArrayNode(a) =>
        var elements: seq<Value> := [];
        for i := 0 to |a.elements|
          invariant |elements| == i
          invariant forall j :: 0 <= j < i ==> elements[j] == Minimized(a.elements[j])
        {
          var e := Minimize(a.elements[i]);
          elements := elements + [e];
        }
        r := ArrayNode(Array(elements, false, []));
    }
  }

  /** After `minimize` nothing is left to strip. */
  lemma {:induction false} MinimizedStripped(v: Value)
    ensures Stripped(Minimized(v))
    decreases v, 1
  {
    MinimizedNodeStripped(v.value);
  }

  lemma {:induction false} MinimizedNodeStripped(n: Node)
    ensures StrippedNode(MinimizedNode(n))
    decreases n, 0
  {
    match n
    case LiteralNode(_) =>
    case ObjectNode(o) =>
      forall i | 0 <= i < |o.members|
        ensures Stripped(Minimized(o.members[i].name)) && Stripped(Minimized(o.members[i].value))
      {
        MinimizedStripped(o.members[i].name);
        MinimizedStripped(o.members[i].value);
      }
    case ArrayNode(a) =>
      forall i | 0 <= i < |a.elements|
        ensures Stripped(Minimized(a.elements[i]))
      {
        MinimizedStripped(a.elements[i]);
      }
  }

  /** `minimize` changes a tree exactly when it has something to strip. */
  lemma {:induction false} MinimizedFixpoint(v: Value)
    ensures Minimized(v) == v <==> Stripped(v)
    decreases v, 1
  {
    MinimizedStripped(v);
    if Stripped(v) {
      MinimizedNodeFixpoint(v.value);
    }
  }

  lemma {:induction false} MinimizedNodeFixpoint(n: Node)
    requires StrippedNode(n)
    ensures MinimizedNode(n) == n
    decreases n, 0
  {
    match n
    case LiteralNode(_) =>
    case ObjectNode(o) =>
      forall i | 0 <= i < |o.members|
        ensures MinimizedMember(o.members[i]) == o.members[i]
      {
        MinimizedFixpoint(o.members[i].name);
        MinimizedFixpoint(o.members[i].value);
      }
    case ArrayNode(a) =>
      forall i | 0 <= i < |a.elements|
        ensures Minimized(a.elements[i]) == a.elements[i]
      {
        MinimizedFixpoint(a.elements[i]);
      }
  }

  /** Minimizing twice is minimizing once. */
  lemma MinimizedIdempotent(v: Value)
    ensures Minimized(Minimized(v)) == Minimized(v)
  {
    MinimizedStripped(v);
    MinimizedFixpoint(Minimized(v));
  }

  /** The JSON that two trees hold is the same: equal literals, and objects
      and arrays with as many members or elements, pairwise the same, in the
      same order. Extras, offsets and trailing commas are not compared. */
  predicate SameJson(v: Value, w: Value)
    decreases v, 1
  {
    SameJsonNode(v.value, w.value)
  }

  predicate SameJsonNode(n: Node, m: Node)
    decreases n, 0
  {
    match n
    case LiteralNode(l) => m == LiteralNode(l)
    case ObjectNode(o) =>
      m.ObjectNode? && |m.obj.members| == |o.members| &&
      forall i :: 0 <= i < |o.members| ==>
        SameJson(o.members[i].name, m.obj.members[i].name) && SameJson(o.members[i].value, m.obj.members[i].value)
    case ArrayNode(a) =>
      m.ArrayNode? && |m.arr.elements| == |a.elements| &&
      forall i :: 0 <= i < |a.elements| ==> SameJson(a.elements[i], m.arr.elements[i])
  }

  /** `minimize` changes nothing but extras and trailing commas: literals,
      names and the number and order of members and elements stay. */
  lemma {:induction false} MinimizedSameJson(v: Value)
    ensures SameJson(v, Minimized(v))
    decreases v, 1
  {
    MinimizedNodeSameJson(v.value);
  }

  lemma {:induction false} MinimizedNodeSameJson(n: Node)
    ensures SameJsonNode(n, MinimizedNode(n))
    decreases n, 0
  {
    match n
    case LiteralNode(_) =>
    case ObjectNode(o) =>
      var ms := MinimizedNode(n).obj.members;
      forall i | 0 <= i < |o.members|
        ensures SameJson(o.members[i].name, ms[i].name) && SameJson(o.members[i].value, ms[i].value)
      {
        assert ms[i] == MinimizedMember(o.members[i]);
        MinimizedSameJson(o.members[i].name);
        MinimizedSameJson(o.members[i].value);
      }
    case ArrayNode(a) =>
      var vs := MinimizedNode(n).arr.elements;
      forall i | 0 <= i < |a.elements|
        ensures SameJson(a.elements[i], vs[i])
      {
        MinimizedSameJson(a.elements[i]);
      }
  }

  /** `minimize` keeps a tree well formed. */
  lemma {:induction false} MinimizedWellFormed(v: Value)
    requires WellFormed(v)
    ensures WellFormed(Minimized(v))
    decreases v, 1
  {
    MinimizedNodeWellFormed(v.value);
  }

  lemma {:induction false} MinimizedNodeWellFormed(n: Node)
    requires NodeWellFormed(n)
    ensures NodeWellFormed(MinimizedNode(n))
    decreases n, 0
  {
    match n
    case LiteralNode(_) =>
    case ObjectNode(o) =>
      forall i | 0 <= i < |o.members|
        ensures MemberWellFormed(MinimizedMember(o.members[i]))
      {
        assert MemberWellFormed(o.members[i]);
        assert Minimized(o.members[i].name).value == o.members[i].name.value;
        MinimizedWellFormed(o.members[i].name);
        MinimizedWellFormed(o.members[i].value);
      }
    case ArrayNode(a) =>
      forall i | 0 <= i < |a.elements|
        ensures WellFormed(Minimized(a.elements[i]))
      {
        MinimizedWellFormed(a.elements[i]);
      }
  }

  // ---------------------------------------------------------------------
  // standardize

  /** The after-extra that a container with members hands to its last child.
      Go hands it over as it is (`blankMoved == false`); with `blankMoved`
      it is standardized as well, which is what the documentation of
      `Standardize` promises (see `StandardizeKeepsMovedComment`). */
  function Moved(e: Extra, blankMoved: bool): Extra {
    if blankMoved then Blank(e) else e
  }

  /** The last child takes over its container's trailing comma, as one
      space, and then the container's after-extra. */
  function Absorb(v: Value, trailingComma: bool, e: Extra): Value {
    v.(afterExtra := v.afterExtra + (if trailingComma then [SPACE] else []) + e)
  }

  /** `Value.standardize`: every extra blanked, and every container without
      its trailing comma, whose bytes move to the last child. */
  function Standardized(v: Value, blankMoved: bool): Value
    decreases v, 1
  {
    Value(Blank(v.beforeExtra), v.startOffset, StandardizedNode(v.value, blankMoved), v.endOffset, Blank(v.afterExtra))
  }

  function StandardizedNode(n: Node, blankMoved: bool): Node
    decreases n, 0
  {
    match n
    case LiteralNode(_) => n
    case ObjectNode(o) =>
      var ms := StandardizedMembers(o.members, blankMoved);
      if ms == [] then ObjectNode(Object([], false, Blank(o.afterExtra)))
      else
        var last := ms[|ms| - 1];
        var moved := Member(last.name, Absorb(last.value, o.emitTrailingComma, Moved(o.afterExtra, blankMoved)));
        ObjectNode(Object(ms[..|ms| - 1] + [moved], false, []))
    case ArrayNode(a) =>
      var vs := StandardizedElements(a.elements, blankMoved);
      if vs == [] then ArrayNode(Array([], false, Blank(a.afterExtra)))
      else
        var moved := Absorb(vs[|vs| - 1], a.emitTrailingComma, Moved(a.afterExtra, blankMoved));
        ArrayNode(Array(vs[..|vs| - 1] + [moved], false, []))
  }

  /** The members, each standardized on its own. */
  function StandardizedMembers(ms: seq<Member>, blankMoved: bool): seq<Member>
    decreases ms
  {
    seq(|ms|, i requires 0 <= i < |ms| => StandardizedMember(ms[i], blankMoved))
  }

  function StandardizedMember(m: Member, blankMoved: bool): Member
    decreases m
  {
    Member(Standardized(m.name, blankMoved), Standardized(m.value, blankMoved))
  }

  /** The elements, each standardized on its own. */
  function StandardizedElements(vs: seq<Value>, blankMoved: bool): seq<Value>
    decreases vs
  {
    seq(|vs|, i requires 0 <= i < |vs| => Standardized(vs[i], blankMoved))
  }

  /** `Value.standardize`: the extras are blanked in place, and a container
      first standardizes its children, as `rangeValues` walks them. */
  method Standardize(v: Value, blankMoved: bool) returns (r: Value)
    ensures r == Standardized(v, blankMoved)
    decreases v, 1
  {
    var before := BlankExtra(v.beforeExtra);
    var node := StandardizeNode(v.value, blankMoved);
    var after := BlankExtra(v.afterExtra);
    r := Value(before, v.startOffset, node, v.endOffset, after);
  }

  method StandardizeNode(n: Node, blankMoved: bool) returns (r: Node)
    ensures r == StandardizedNode(n, blankMoved)
    decreases n, 0
  {
    match n {
      case LiteralNode(_) =>
        r := n;
      case ObjectNode(o) =>
        var members: seq<Member> := [];
        for i := 0 to |o.members|
          invariant |members| == i
          invariant forall j :: 0 <= j < i ==> members[j] == StandardizedMember(o.members[j], blankMoved)
        {
          var name := Standardize(o.members[i].name, blankMoved);
          var value := Standardize(o.members[i].value, blankMoved);
          members := members + [Member(name, value)];
        }
        assert members == StandardizedMembers(o.members, blankMoved);
        var afterExtra := o.afterExtra;
        if |members| > 0 {
          var last := members[|members| - 1];
          var value := AbsorbInto(last.value, o.emitTrailingComma, o.afterExtra, blankMoved);
          members := members[..|members| - 1] + [Member(last.name, value)];
          afterExtra := [];
        }
        afterExtra := BlankExtra(afterExtra);
        r := ObjectNode(Object(members, false, afterExtra));
      case ArrayNode(a) =>
        var elements: seq<Value> := [];
        for i := 0 to |a.elements|
          invariant |elements| == i
          invariant forall j :: 0 <= j < i ==> elements[j] == Standardized(a.elements[j], blankMoved)
        {
          var e := Standardize(a.elements[i], blankMoved);
          elements := elements + [e];
        }
        assert elements == StandardizedElements(a.elements, blankMoved);
        var afterExtra := a.afterExtra;
        if |elements| > 0 {
          var value := AbsorbInto(elements[|elements| - 1], a.emitTrailingComma, a.afterExtra, blankMoved);
          elements := elements[..|elements| - 1] + [value];
          afterExtra := [];
        }
        afterExtra := BlankExtra(afterExtra);
        r := ArrayNode(Array(elements, false, afterExtra));
    }
  }

  /** Appends a space for the trailing comma, if any, and then the
      container's after-extra to the after-extra of the last child. */
  method AbsorbInto(last: Value, trailingComma: bool, e: Extra, blankMoved: bool) returns (r: Value)
    ensures r == Absorb(last, trailingComma, Moved(e, blankMoved))
  {
    var after := last.afterExtra;
    if trailingComma {
      after := after + [SPACE];
    }
    var moved := e;
    if blankMoved {
      moved := BlankExtra(e);
    }
    r := last.(afterExtra := after + moved);
  }

  // ---------------------------------------------------------------------
  // What standardize keeps: the length and the lines of the text

  /** Standardizing only overwrites bytes other than whitespace with spaces:
      the text keeps its length, and every newline stays where it is. */
  lemma {:induction false} StandardizedNeutral(v: Value, blankMoved: bool)
    ensures Neutralized(Pack(v), Pack(Standardized(v, blankMoved)))
    decreases v, 1
  {
    StandardizedNodeNeutral(v.value, blankMoved);
    NeutralizedConcat(v.beforeExtra, Blank(v.beforeExtra),
                      PackNode(v.value), PackNode(StandardizedNode(v.value, blankMoved)));
    NeutralizedConcat(v.beforeExtra + PackNode(v.value),
                      Blank(v.beforeExtra) + PackNode(StandardizedNode(v.value, blankMoved)),
                      v.afterExtra, Blank(v.afterExtra));
  }

  lemma {:induction false} StandardizedNodeNeutral(n: Node, blankMoved: bool)
    ensures Neutralized(PackNode(n), PackNode(StandardizedNode(n, blankMoved)))
    decreases n, 0
  {
    match n
    case LiteralNode(_) =>
    case ObjectNode(o) => StandardizedObjectNeutral(o, blankMoved);
    case ArrayNode(a) => StandardizedArrayNeutral(a, blankMoved);
  }

  lemma {:induction false} StandardizedObjectNeutral(o: Object, blankMoved: bool)
    ensures Neutralized(PackNode(ObjectNode(o)), PackNode(StandardizedNode(ObjectNode(o), blankMoved)))
    decreases o
  {
    var ms := o.members;
    if ms == [] {
      EmptyContainerNeutral(OPEN_BRACE, CLOSE_BRACE, o.afterExtra);
    } else {
      var k := |ms| - 1;
      var ms' := StandardizedMembers(ms, blankMoved);
      var moved := Member(ms'[k].name, Absorb(ms'[k].value, o.emitTrailingComma, Moved(o.afterExtra, blankMoved)));
      var rs := ms'[..k] + [moved];
      TerminatedNeutral(ms, k, blankMoved);
      StandardizedMemberNeutral(ms[k], blankMoved);
      assert rs[..k] == ms'[..k];
      assert PackMembers(rs, false) == Terminated(ms'[..k]) + PackMember(moved);
      PackMemberAbsorb(ms'[k], o.emitTrailingComma, Moved(o.afterExtra, blankMoved));
      assert PackMembers(ms, o.emitTrailingComma) ==
        Terminated(ms[..k]) + PackMember(ms[k]) + (if o.emitTrailingComma then [COMMA] else []);
      ContainerNeutral(OPEN_BRACE, CLOSE_BRACE, Terminated(ms[..k]), Terminated(ms'[..k]),
                       PackMember(ms[k]), PackMember(ms'[k]), o.emitTrailingComma, o.afterExtra, blankMoved);
      assert StandardizedNode(ObjectNode(o), blankMoved) == ObjectNode(Object(rs, false, []));
      assert PackNode(ObjectNode(Object(rs, false, []))) == [OPEN_BRACE] + PackMembers(rs, false) + [] + [CLOSE_BRACE];
    }
  }

  lemma {:induction false} StandardizedArrayNeutral(a: Array, blankMoved: bool)
    ensures Neutralized(PackNode(ArrayNode(a)), PackNode(StandardizedNode(ArrayNode(a), blankMoved)))
    decreases a
  {
    var vs := a.elements;
    if vs == [] {
      EmptyContainerNeutral(OPEN_BRACKET, CLOSE_BRACKET, a.afterExtra);
    } else {
      var k := |vs| - 1;
      var vs' := StandardizedElements(vs, blankMoved);
      var moved := Absorb(vs'[k], a.emitTrailingComma, Moved(a.afterExtra, blankMoved));
      var rs := vs'[..k] + [moved];
      TerminatedElementsNeutral(vs, k, blankMoved);
      StandardizedNeutral(vs[k], blankMoved);
      assert rs[..k] == vs'[..k];
      assert PackElements(rs, false) == TerminatedElements(vs'[..k]) + Pack(moved);
      PackAbsorb(vs'[k], a.emitTrailingComma, Moved(a.afterExtra, blankMoved));
      assert PackElements(vs, a.emitTrailingComma) ==
        TerminatedElements(vs[..k]) + Pack(vs[k]) + (if a.emitTrailingComma then [COMMA] else []);
      ContainerNeutral(OPEN_BRACKET, CLOSE_BRACKET, TerminatedElements(vs[..k]), TerminatedElements(vs'[..k]),
                       Pack(vs[k]), Pack(vs'[k]), a.emitTrailingComma, a.afterExtra, blankMoved);
      assert StandardizedNode(ArrayNode(a), blankMoved) == ArrayNode(Array(rs, false, []));
      assert PackNode(ArrayNode(Array(rs, false, []))) == [OPEN_BRACKET] + PackElements(rs, false) + [] + [CLOSE_BRACKET];
    }
  }

  /** An empty container keeps its brackets and blanks its after-extra. */
  lemma EmptyContainerNeutral(open: byte, close: byte, e: Extra)
    ensures Neutralized([open] + [] + e + [close], [open] + [] + Blank(e) + [close])
  {
    NeutralizedConcat([open], [open], e, Blank(e));
    NeutralizedConcat([open] + e, [open] + Blank(e), [close], [close]);
    assert [open] + [] + e == [open] + e && [open] + [] + Blank(e) == [open] + Blank(e);
  }

  lemma {:induction false} StandardizedMemberNeutral(m: Member, blankMoved: bool)
    ensures Neutralized(PackMember(m), PackMember(StandardizedMember(m, blankMoved)))
    decreases m
  {
    var m' := StandardizedMember(m, blankMoved);
    StandardizedNeutral(m.name, blankMoved);
    StandardizedNeutral(m.value, blankMoved);
    NeutralizedConcat(Pack(m.name), Pack(m'.name), [COLON], [COLON]);
    NeutralizedConcat(Pack(m.name) + [COLON], Pack(m'.name) + [COLON], Pack(m.value), Pack(m'.value));
  }

  /** The first `k` members, each followed by its comma. */
  lemma {:induction false} TerminatedNeutral(ms: seq<Member>, k: nat, blankMoved: bool)
    requires k <= |ms|
    ensures Neutralized(Terminated(ms[..k]), Terminated(StandardizedMembers(ms, blankMoved)[..k]))
    decreases ms, k
  {
    if k > 0 {
      var ms' := StandardizedMembers(ms, blankMoved);
      TerminatedNeutral(ms, k - 1, blankMoved);
      StandardizedMemberNeutral(ms[k - 1], blankMoved);
      assert ms[..k][..k - 1] == ms[..k - 1] && ms'[..k][..k - 1] == ms'[..k - 1];
      NeutralizedConcat(Terminated(ms[..k - 1]), Terminated(ms'[..k - 1]), PackMember(ms[k - 1]), PackMember(ms'[k - 1]));
      NeutralizedConcat(Terminated(ms[..k - 1]) + PackMember(ms[k - 1]), Terminated(ms'[..k - 1]) + PackMember(ms'[k - 1]),
                        [COMMA], [COMMA]);
    }
  }

  /** The first `k` elements, each followed by its comma. */
  lemma {:induction false} TerminatedElementsNeutral(vs: seq<Value>, k: nat, blankMoved: bool)
    requires k <= |vs|
    ensures Neutralized(TerminatedElements(vs[..k]), TerminatedElements(StandardizedElements(vs, blankMoved)[..k]))
    decreases vs, k
  {
    if k > 0 {
      var vs' := StandardizedElements(vs, blankMoved);
      TerminatedElementsNeutral(vs, k - 1, blankMoved);
      StandardizedNeutral(vs[k - 1], blankMoved);
      assert vs[..k][..k - 1] == vs[..k - 1] && vs'[..k][..k - 1] == vs'[..k - 1];
      NeutralizedConcat(TerminatedElements(vs[..k - 1]), TerminatedElements(vs'[..k - 1]), Pack(vs[k - 1]), Pack(vs'[k - 1]));
      NeutralizedConcat(TerminatedElements(vs[..k - 1]) + Pack(vs[k - 1]), TerminatedElements(vs'[..k - 1]) + Pack(vs'[k - 1]),
                        [COMMA], [COMMA]);
    }
  }

  /** An absorbing child is laid out with the space and the extra after it. */
  lemma PackAbsorb(v: Value, trailingComma: bool, e: Extra)
    ensures Pack(Absorb(v, trailingComma, e)) == Pack(v) + (if trailingComma then [SPACE] else []) + e
  {
  }

  lemma PackMemberAbsorb(m: Member, trailingComma: bool, e: Extra)
    ensures PackMember(Member(m.name, Absorb(m.value, trailingComma, e))) ==
      PackMember(m) + (if trailingComma then [SPACE] else []) + e
  {
    PackAbsorb(m.value, trailingComma, e);
  }

  /** The tail of a container with members: the trailing comma becomes a
      space and the after-extra moves in front of the closing byte. */
  lemma ContainerNeutral(open: byte, close: byte, t: seq<byte>, t': seq<byte>, p: seq<byte>, p': seq<byte>,
                         trailingComma: bool, e: Extra, blankMoved: bool)
    requires Neutralized(t, t') && Neutralized(p, p')
    ensures Neutralized([open] + (t + p + (if trailingComma then [COMMA] else [])) + e + [close],
                        [open] + (t' + (p' + (if trailingComma then [SPACE] else []) + Moved(e, blankMoved))) + [] + [close])
  {
    var c := if trailingComma then [COMMA] else [];
    var sp := if trailingComma then [SPACE] else [];
    var m := Moved(e, blankMoved);
    assert Neutralized(c, sp);
    assert Neutralized(e, m);
    NeutralizedConcat(t, t', p, p');
    NeutralizedConcat(t + p, t' + p', c, sp);
    NeutralizedConcat(t + p + c, t' + p' + sp, e, m);
    NeutralizedConcat([open], [open], t + p + c + e, t' + p' + sp + m);
    NeutralizedConcat([open] + (t + p + c + e), [open] + (t' + p' + sp + m), [close], [close]);
    assert [open] + (t + p + c) + e + [close] == [open] + (t + p + c + e) + [close];
    assert [open] + (t' + (p' + sp + m)) + [] + [close] == [open] + (t' + p' + sp + m) + [close];
  }

  /** Standardizing keeps every offset of the text on its line and column,
      so the positions reported for the original text still hold. */
  lemma StandardizedLineColumn(v: Value, blankMoved: bool, n: nat)
    requires n <= |Pack(v)|
    ensures n <= |Pack(Standardized(v, blankMoved))|
    ensures Parser.LineColumn(Pack(v), n) == Parser.LineColumn(Pack(Standardized(v, blankMoved)), n)
  {
    StandardizedNeutral(v, blankMoved);
    NeutralizedLineColumn(Pack(v), Pack(Standardized(v, blankMoved)), n);
  }

  // ---------------------------------------------------------------------
  // What standardize keeps: the offsets

  /** Offsets that were consistent with the text stay consistent after
      standardizing: the offset update that `Standardize` runs afterwards
      has nothing to change. */
  lemma {:induction false} StandardizedPlaced(v: Value, blankMoved: bool, at: int)
    requires Placed(v, at)
    ensures Placed(Standardized(v, blankMoved), at)
    decreases v, 1
  {
    StandardizedNodeNeutral(v.value, blankMoved);
    StandardizedNodePlaced(v.value, blankMoved, v.startOffset);
  }

  lemma {:induction false} StandardizedNodePlaced(n: Node, blankMoved: bool, at: int)
    requires NodePlaced(n, at)
    ensures NodePlaced(StandardizedNode(n, blankMoved), at)
    decreases n, 0
  {
    match n
    case LiteralNode(_) =>
    case ObjectNode(o) => StandardizedObjectPlaced(o, blankMoved, at);
    case ArrayNode(a) => StandardizedArrayPlaced(a, blankMoved, at);
  }

  lemma {:induction false} StandardizedObjectPlaced(o: Object, blankMoved: bool, at: int)
    requires NodePlaced(ObjectNode(o), at)
    ensures NodePlaced(StandardizedNode(ObjectNode(o), blankMoved), at)
    decreases o
  {
    var ms := o.members;
    if ms != [] {
      var k := |ms| - 1;
      var ms' := StandardizedMembers(ms, blankMoved);
      var moved := Member(ms'[k].name, Absorb(ms'[k].value, o.emitTrailingComma, Moved(o.afterExtra, blankMoved)));
      var rs := ms'[..k] + [moved];
      var x := at + 1 + |Terminated(ms[..k])|;
      MembersPlacedStandardized(ms, k, blankMoved, at + 1);
      TerminatedNeutral(ms, k, blankMoved);
      StandardizedMemberPlaced(ms[k], blankMoved, x);
      assert rs[..k] == ms'[..k] && rs[k] == moved;
      assert MemberPlaced(moved, x);
    }
  }

  lemma {:induction false} StandardizedArrayPlaced(a: Array, blankMoved: bool, at: int)
    requires NodePlaced(ArrayNode(a), at)
    ensures NodePlaced(StandardizedNode(ArrayNode(a), blankMoved), at)
    decreases a
  {
    var vs := a.elements;
    if vs != [] {
      var k := |vs| - 1;
      var vs' := StandardizedElements(vs, blankMoved);
      var moved := Absorb(vs'[k], a.emitTrailingComma, Moved(a.afterExtra, blankMoved));
      var rs := vs'[..k] + [moved];
      var x := at + 1 + |TerminatedElements(vs[..k])|;
      ElementsPlacedStandardized(vs, k, blankMoved, at + 1);
      TerminatedElementsNeutral(vs, k, blankMoved);
      StandardizedPlaced(vs[k], blankMoved, x);
      assert rs[..k] == vs'[..k] && rs[k] == moved;
      assert Placed(moved, x);
    }
  }

  lemma {:induction false} StandardizedMemberPlaced(m: Member, blankMoved: bool, at: int)
    requires MemberPlaced(m, at)
    ensures MemberPlaced(StandardizedMember(m, blankMoved), at)
    decreases m
  {
    StandardizedNeutral(m.name, blankMoved);
    StandardizedPlaced(m.name, blankMoved, at);
    StandardizedPlaced(m.value, blankMoved, at + |Pack(m.name)| + 1);
  }

  /** The first `k` members stay where they were. */
  lemma {:induction false} MembersPlacedStandardized(ms: seq<Member>, k: nat, blankMoved: bool, at: int)
    requires k <= |ms| && MembersPlaced(ms[..k], at)
    ensures MembersPlaced(StandardizedMembers(ms, blankMoved)[..k], at)
    decreases ms, k
  {
    if k > 0 {
      var ms' := StandardizedMembers(ms, blankMoved);
      assert ms[..k][..k - 1] == ms[..k - 1] && ms'[..k][..k - 1] == ms'[..k - 1];
      MembersPlacedStandardized(ms, k - 1, blankMoved, at);
      TerminatedNeutral(ms, k - 1, blankMoved);
      StandardizedMemberPlaced(ms[k - 1], blankMoved, at + |Terminated(ms[..k - 1])|);
    }
  }

  /** The first `k` elements stay where they were. */
  lemma {:induction false} ElementsPlacedStandardized(vs: seq<Value>, k: nat, blankMoved: bool, at: int)
    requires k <= |vs| && ElementsPlaced(vs[..k], at)
    ensures ElementsPlaced(StandardizedElements(vs, blankMoved)[..k], at)
    decreases vs, k
  {
    if k > 0 {
      var vs' := StandardizedElements(vs, blankMoved);
      assert vs[..k][..k - 1] == vs[..k - 1] && vs'[..k][..k - 1] == vs'[..k - 1];
      ElementsPlacedStandardized(vs, k - 1, blankMoved, at);
      TerminatedElementsNeutral(vs, k - 1, blankMoved);
      StandardizedPlaced(vs[k - 1], blankMoved, at + |TerminatedElements(vs[..k - 1])|);
    }
  }

  // ---------------------------------------------------------------------
  // What standardize keeps: a well-formed tree, and everything but extras

  /** Standardizing keeps a tree well formed: blanked extras and moved
      extras are extras, and no empty container is left with a comma. */
  lemma {:induction false} StandardizedWellFormed(v: Value, blankMoved: bool)
    requires WellFormed(v)
    ensures WellFormed(Standardized(v, blankMoved))
    decreases v, 1
  {
    BlankIsExtra(v.beforeExtra);
    BlankIsExtra(v.afterExtra);
    StandardizedNodeWellFormed(v.value, blankMoved);
  }

  lemma {:induction false} StandardizedNodeWellFormed(n: Node, blankMoved: bool)
    requires NodeWellFormed(n)
    ensures NodeWellFormed(StandardizedNode(n, blankMoved))
    decreases n, 0
  {
    match n
    case LiteralNode(_) =>
    case ObjectNode(o) => StandardizedObjectWellFormed(o, blankMoved);
    case ArrayNode(a) => StandardizedArrayWellFormed(a, blankMoved);
  }

  lemma {:induction false} StandardizedObjectWellFormed(o: Object, blankMoved: bool)
    requires NodeWellFormed(ObjectNode(o))
    ensures NodeWellFormed(StandardizedNode(ObjectNode(o), blankMoved))
    decreases o
  {
    var ms := o.members;
    var ms' := StandardizedMembers(ms, blankMoved);
    forall i | 0 <= i < |ms|
      ensures MemberWellFormed(ms'[i])
    {
      StandardizedMemberWellFormed(ms[i], blankMoved);
    }
    if ms == [] {
      BlankIsExtra(o.afterExtra);
    } else {
      var k := |ms| - 1;
      var moved := Member(ms'[k].name, Absorb(ms'[k].value, o.emitTrailingComma, Moved(o.afterExtra, blankMoved)));
      var rs := ms'[..k] + [moved];
      assert ms'[k] == StandardizedMember(ms[k], blankMoved);
      assert ms'[k].value == Standardized(ms[k].value, blankMoved);
      AbsorbWellFormed(ms'[k].value, o.emitTrailingComma, o.afterExtra, blankMoved);
      assert MemberWellFormed(moved);
      assert forall i :: 0 <= i < |rs| ==> MemberWellFormed(rs[i]);
      assert StandardizedNode(ObjectNode(o), blankMoved) == ObjectNode(Object(rs, false, []));
    }
  }

  lemma {:induction false} StandardizedArrayWellFormed(a: Array, blankMoved: bool)
    requires NodeWellFormed(ArrayNode(a))
    ensures NodeWellFormed(StandardizedNode(ArrayNode(a), blankMoved))
    decreases a
  {
    var vs := a.elements;
    var vs' := StandardizedElements(vs, blankMoved);
    forall i | 0 <= i < |vs|
      ensures WellFormed(vs'[i])
    {
      StandardizedWellFormed(vs[i], blankMoved);
    }
    if vs == [] {
      BlankIsExtra(a.afterExtra);
    } else {
      var k := |vs| - 1;
      var moved := Absorb(vs'[k], a.emitTrailingComma, Moved(a.afterExtra, blankMoved));
      var rs := vs'[..k] + [moved];
      assert vs'[k] == Standardized(vs[k], blankMoved);
      assert vs'[k].afterExtra == Blank(vs[k].afterExtra);
      AbsorbWellFormed(vs'[k], a.emitTrailingComma, a.afterExtra, blankMoved);
      assert forall i :: 0 <= i < |rs| ==> WellFormed(rs[i]);
      assert StandardizedNode(ArrayNode(a), blankMoved) == ArrayNode(Array(rs, false, []));
    }
  }

  lemma {:induction false} StandardizedMemberWellFormed(m: Member, blankMoved: bool)
    requires MemberWellFormed(m)
    ensures MemberWellFormed(StandardizedMember(m, blankMoved))
    decreases m
  {
    StandardizedWellFormed(m.name, blankMoved);
    StandardizedWellFormed(m.value, blankMoved);
    assert Standardized(m.name, blankMoved).value == m.name.value;
  }

  /** A standardized last child that takes over a well-formed after-extra
      is still well formed. */
  lemma AbsorbWellFormed(v: Value, trailingComma: bool, e: Extra, blankMoved: bool)
    requires WellFormed(v) && AllSpace(v.afterExtra) && Lexer.IsExtra(e)
    ensures WellFormed(Absorb(v, trailingComma, Moved(e, blankMoved)))
  {
    var w := v.afterExtra + (if trailingComma then [SPACE] else []);
    assert AllSpace(w);
    if blankMoved {
      BlankIsExtra(e);
    }
    SpacesThenExtra(w, Moved(e, blankMoved));
  }

  /** Standardizing changes extras and trailing commas only: minimizing
      afterwards gives what minimizing gives. */
  lemma {:induction false} MinimizedStandardized(v: Value, blankMoved: bool)
    ensures Minimized(Standardized(v, blankMoved)) == Minimized(v)
    decreases v, 1
  {
    MinimizedStandardizedNode(v.value, blankMoved);
  }

  lemma {:induction false} MinimizedStandardizedNode(n: Node, blankMoved: bool)
    ensures MinimizedNode(StandardizedNode(n, blankMoved)) == MinimizedNode(n)
    decreases n, 0
  {
    match n
    case LiteralNode(_) =>
    case ObjectNode(o) => MinimizedStandardizedObject(o, blankMoved);
    case ArrayNode(a) => MinimizedStandardizedArray(a, blankMoved);
  }

  lemma {:induction false} MinimizedStandardizedObject(o: Object, blankMoved: bool)
    ensures MinimizedNode(StandardizedNode(ObjectNode(o), blankMoved)) == MinimizedNode(ObjectNode(o))
    decreases o
  {
    var ms := o.members;
    var ms' := StandardizedMembers(ms, blankMoved);
    forall i | 0 <= i < |ms|
      ensures MinimizedMember(ms'[i]) == MinimizedMember(ms[i])
    {
      assert ms'[i] == StandardizedMember(ms[i], blankMoved);
      MinimizedStandardized(ms[i].name, blankMoved);
      MinimizedStandardized(ms[i].value, blankMoved);
    }
    if ms != [] {
      var k := |ms| - 1;
      var moved := Member(ms'[k].name, Absorb(ms'[k].value, o.emitTrailingComma, Moved(o.afterExtra, blankMoved)));
      var rs := ms'[..k] + [moved];
      assert MinimizedMember(moved) == MinimizedMember(ms'[k]);
      assert forall i :: 0 <= i < |rs| ==> MinimizedMember(rs[i]) == MinimizedMember(ms[i]);
    }
  }

  lemma {:induction false} MinimizedStandardizedArray(a: Array, blankMoved: bool)
    ensures MinimizedNode(StandardizedNode(ArrayNode(a), blankMoved)) == MinimizedNode(ArrayNode(a))
    decreases a
  {
    var vs := a.elements;
    var vs' := StandardizedElements(vs, blankMoved);
    forall i | 0 <= i < |vs|
      ensures Minimized(vs'[i]) == Minimized(vs[i])
    {
      MinimizedStandardized(vs[i], blankMoved);
    }
    if vs != [] {
      var k := |vs| - 1;
      var moved := Absorb(vs'[k], a.emitTrailingComma, Moved(a.afterExtra, blankMoved));
      var rs := vs'[..k] + [moved];
      assert Minimized(moved) == Minimized(vs'[k]);
      assert forall i :: 0 <= i < |rs| ==> Minimized(rs[i]) == Minimized(vs[i]);
    }
  }

  /** `standardize` keeps the JSON that the tree holds. */
  lemma {:induction false} StandardizedSameJson(v: Value, blankMoved: bool)
    ensures SameJson(v, Standardized(v, blankMoved))
    decreases v, 1
  {
    StandardizedNodeSameJson(v.value, blankMoved);
  }

  lemma {:induction false} StandardizedNodeSameJson(n: Node, blankMoved: bool)
    ensures SameJsonNode(n, StandardizedNode(n, blankMoved))
    decreases n, 0
  {
    match n
    case LiteralNode(_) =>
    case ObjectNode(o) => StandardizedObjectSameJson(o, blankMoved);
    case ArrayNode(a) => StandardizedArraySameJson(a, blankMoved);
  }

  lemma {:induction false} StandardizedObjectSameJson(o: Object, blankMoved: bool)
    ensures SameJsonNode(ObjectNode(o), StandardizedNode(ObjectNode(o), blankMoved))
    decreases o
  {
    var ms := o.members;
    var ms' := StandardizedMembers(ms, blankMoved);
    var rs := StandardizedNode(ObjectNode(o), blankMoved).obj.members;
    forall i | 0 <= i < |ms|
      ensures SameJson(ms[i].name, rs[i].name) && SameJson(ms[i].value, rs[i].value)
    {
      assert ms'[i] == StandardizedMember(ms[i], blankMoved);
      assert rs[i].name == ms'[i].name && rs[i].value.value == ms'[i].value.value;
      StandardizedSameJson(ms[i].name, blankMoved);
      StandardizedSameJson(ms[i].value, blankMoved);
    }
  }

  lemma {:induction false} StandardizedArraySameJson(a: Array, blankMoved: bool)
    ensures SameJsonNode(ArrayNode(a), StandardizedNode(ArrayNode(a), blankMoved))
    decreases a
  {
    var vs := a.elements;
    var vs' := StandardizedElements(vs, blankMoved);
    var rs := StandardizedNode(ArrayNode(a), blankMoved).arr.elements;
    forall i | 0 <= i < |vs|
      ensures SameJson(vs[i], rs[i])
    {
      assert rs[i].value == vs'[i].value;
      StandardizedSameJson(vs[i], blankMoved);
    }
  }

  // ---------------------------------------------------------------------
  // Standard JSON

  /** Nothing specific to HuJSON is left: every extra is whitespace, no
      container has a trailing comma, and a container with members has no
      after-extra (the field is only for empty containers and for the bytes
      after a trailing comma, util/hujson/types.go:266-268). */
  predicate Standard(v: Value)
    decreases v, 1
  {
    AllSpace(v.beforeExtra) && AllSpace(v.afterExtra) && StandardNode(v.value)
  }

  predicate StandardNode(n: Node)
    decreases n, 0
  {
    match n
    case LiteralNode(_) => true
    case ObjectNode(o) =>
      !o.emitTrailingComma && AllSpace(o.afterExtra) && (o.members != [] ==> o.afterExtra == []) &&
      forall i :: 0 <= i < |o.members| ==> Standard(o.members[i].name) && Standard(o.members[i].value)
    case ArrayNode(a) =>
      !a.emitTrailingComma && AllSpace(a.afterExtra) && (a.elements != [] ==> a.afterExtra == []) &&
      forall i :: 0 <= i < |a.elements| ==> Standard(a.elements[i])
  }

  /** With the moved extra blanked too, standardizing leaves standard JSON. */
  lemma {:induction false} StandardizedIsStandard(v: Value)
    ensures Standard(Standardized(v, true))
    decreases v, 1
  {
    StandardizedNodeIsStandard(v.value);
  }

  lemma {:induction false} StandardizedNodeIsStandard(n: Node)
    ensures StandardNode(StandardizedNode(n, true))
    decreases n, 0
  {
    match n
    case LiteralNode(_) =>
    case ObjectNode(o) => StandardizedObjectIsStandard(o);
    case ArrayNode(a) => StandardizedArrayIsStandard(a);
  }

  lemma {:induction false} StandardizedObjectIsStandard(o: Object)
    ensures StandardNode(StandardizedNode(ObjectNode(o), true))
    decreases o
  {
    var ms := o.members;
    var ms' := StandardizedMembers(ms, true);
    forall i | 0 <= i < |ms|
      ensures Standard(ms'[i].name) && Standard(ms'[i].value)
    {
      assert ms'[i] == StandardizedMember(ms[i], true);
      StandardizedIsStandard(ms[i].name);
      StandardizedIsStandard(ms[i].value);
    }
    if ms != [] {
      var k := |ms| - 1;
      var moved := Member(ms'[k].name, Absorb(ms'[k].value, o.emitTrailingComma, Blank(o.afterExtra)));
      var rs := ms'[..k] + [moved];
      AbsorbStandard(ms'[k].value, o.emitTrailingComma, o.afterExtra);
      assert forall i :: 0 <= i < |rs| ==> Standard(rs[i].name) && Standard(rs[i].value);
    }
  }

  lemma {:induction false} StandardizedArrayIsStandard(a: Array)
    ensures StandardNode(StandardizedNode(ArrayNode(a), true))
    decreases a
  {
    var vs := a.elements;
    var vs' := StandardizedElements(vs, true);
    forall i | 0 <= i < |vs|
      ensures Standard(vs'[i])
    {
      StandardizedIsStandard(vs[i]);
    }
    if vs != [] {
      var k := |vs| - 1;
      var moved := Absorb(vs'[k], a.emitTrailingComma, Blank(a.afterExtra));
      var rs := vs'[..k] + [moved];
      AbsorbStandard(vs'[k], a.emitTrailingComma, a.afterExtra);
      assert forall i :: 0 <= i < |rs| ==> Standard(rs[i]);
    }
  }

  /** A standard last child that takes over a blanked extra stays standard. */
  lemma AbsorbStandard(v: Value, trailingComma: bool, e: Extra)
    requires Standard(v)
    ensures Standard(Absorb(v, trailingComma, Blank(e)))
  {
    var w := v.afterExtra + (if trailingComma then [SPACE] else []) + Blank(e);
    assert forall i :: 0 <= i < |w| ==> IsSpace(w[i]);
  }

  /** Standardizing leaves standard JSON as it is. */
  lemma {:induction false} StandardizedFixpoint(v: Value, blankMoved: bool)
    requires Standard(v)
    ensures Standardized(v, blankMoved) == v
    decreases v, 1
  {
    StandardizedNodeFixpoint(v.value, blankMoved);
  }

  lemma {:induction false} StandardizedNodeFixpoint(n: Node, blankMoved: bool)
    requires StandardNode(n)
    ensures StandardizedNode(n, blankMoved) == n
    decreases n, 0
  {
    match n
    case LiteralNode(_) =>
    case ObjectNode(o) => StandardizedObjectFixpoint(o, blankMoved);
    case ArrayNode(a) => StandardizedArrayFixpoint(a, blankMoved);
  }

  lemma {:induction false} StandardizedObjectFixpoint(o: Object, blankMoved: bool)
    requires StandardNode(ObjectNode(o))
    ensures StandardizedNode(ObjectNode(o), blankMoved) == ObjectNode(o)
    decreases o
  {
    var ms := o.members;
    var ms' := StandardizedMembers(ms, blankMoved);
    forall i | 0 <= i < |ms|
      ensures ms'[i] == ms[i]
    {
      StandardizedFixpoint(ms[i].name, blankMoved);
      StandardizedFixpoint(ms[i].value, blankMoved);
    }
    assert ms' == ms;
    if ms != [] {
      var k := |ms| - 1;
      assert Absorb(ms[k].value, false, Moved([], blankMoved)) == ms[k].value;
      assert ms[..k] + [ms[k]] == ms;
    }
  }

  lemma {:induction false} StandardizedArrayFixpoint(a: Array, blankMoved: bool)
    requires StandardNode(ArrayNode(a))
    ensures StandardizedNode(ArrayNode(a), blankMoved) == ArrayNode(a)
    decreases a
  {
    var vs := a.elements;
    var vs' := StandardizedElements(vs, blankMoved);
    forall i | 0 <= i < |vs|
      ensures vs'[i] == vs[i]
    {
      StandardizedFixpoint(vs[i], blankMoved);
    }
    assert vs' == vs;
    if vs != [] {
      var k := |vs| - 1;
      assert Absorb(vs[k], false, Moved([], blankMoved)) == vs[k];
      assert vs[..k] + [vs[k]] == vs;
    }
  }

  /** With the moved extra blanked too, standardizing twice is standardizing
      once. */
  lemma StandardizedIdempotent(v: Value)
    ensures Standardized(Standardized(v, true), true) == Standardized(v, true)
  {
    StandardizedIsStandard(v);
    StandardizedFixpoint(Standardized(v, true), true);
  }

  /** The tree of `[1,/*c*/]`: an array whose one element is followed by
      a trailing comma and a block comment. */
  function MovedCommentExample(): Value {
    var one := Value([], 1, LiteralNode([ONE]), 2, []);
    Value([], 0, ArrayNode(Array([one], true, [SLASH, STAR, C, STAR, SLASH])), 9, [])
  }

  const ONE: byte := '1' as int
  const C: byte := 'c' as int

  /** Go's `standardize` moves the comment of `[1,/*c*/]` onto the element
      without blanking it: the result still holds a comment, so it is not
      standard JSON, and a second run changes it again. */
  lemma StandardizeKeepsMovedComment()
    ensures Pack(MovedCommentExample()) == [OPEN_BRACKET, ONE, COMMA, SLASH, STAR, C, STAR, SLASH, CLOSE_BRACKET]
    ensures Placed(MovedCommentExample(), 0)
    ensures var once := Standardized(MovedCommentExample(), false);
      !Standard(once) && Standardized(once, false) != once
  {
    var v := MovedCommentExample();
    var one := v.value.arr.elements[0];
    assert [one][..0] == [];
    assert TerminatedElements([one]) == TerminatedElements([]) + Pack(one) + [COMMA];
    var once := Standardized(v, false);
    var e := once.value.arr.elements[0];
    assert e.afterExtra == [SPACE, SLASH, STAR, C, STAR, SLASH];
    assert !IsSpace(e.afterExtra[1]);
    var twice := Standardized(once, false);
    assert twice.value.arr.elements[0].afterExtra[1] == SPACE;
  }
}
