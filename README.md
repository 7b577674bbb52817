# HuJSON in Dafny

A verified model of tailscale's `util/hujson` package. HuJSON is JSON
(RFC 8259) extended with `//` and `/* */` comments and trailing commas. The
package parses it into a syntax tree that keeps every byte of the input. It
then resolves RFC 6901 JSON pointers against the tree, and turns the tree
into standard JSON in two ways: `Minimize` strips the extras, and
`Standardize` blanks them in place.

The modules follow the package's files:

- `Values` (`values.dfy`) is `types.go`. It holds the tree (`Value`, `Node`,
  `Member`, `Object`, `Array`) and literal kinds. It also holds the `Bool`,
  `Int` and `Uint` builders, `Clone`, and `firstValue`/`lastValue`/`rangeValues`.
  `Extra.IsValid` is here too.
- `Lexer` (`lexer.dfy`) is the extras part of `parse.go`: `consumeExtra` and
  `consumeWhitespace`. They are proved against the recursive specification
  `SkipExtra`.
- `Parser` (`parser.dfy`) is the rest of `parse.go`. `lineColumn` is the
  function `LineColumn`. `Parse`, `parseNext` and `parseNextValue` are
  methods, with `parseNextValue` split into one method per kind of value:
  `ParseObject` and `ParseArray` hold the member and element loops, and
  `ParseString` and `ParseBareLiteral` the byte scans. One pass of each loop
  is split in two: `ParseMember`/`ParseElement` parse up to the value, and
  `AfterMember`/`AfterElement` handle the ',', closer or error after it.
  Each method is proved against a lossless round trip. The "close" sentinel errors become the
  `Close` case of a three-way `Step` result: parsed, close, failed.
- `Pointer` (`pointer.dfy`) is `find.go`. `FindExamples` (`find_examples.dfy`)
  holds the RFC 6901 section 5 document from `find_test.go`.
- `Standard` (`standard.dfy`) is `standard.go`.
- `Packing` (`packing.dfy`) holds the layout of a tree as text: `Pack`, its
  offsets (`Placed`) and well-formedness (`WellFormed`). The body of
  `Value.Pack` is not part of this model. `Pack` follows the layout that
  `types.go:20-22` documents, and it is used only to state properties.
- Support modules:
  - `Bytes`: the `bytes` and `strings` helpers that the code calls.
  - `Utf8`: `utf8.Valid`, per RFC 3629.
  - `Json`: the RFC 8259 scalar grammar that `json.Valid` checks.
  - `Decimal`: `strconv` integer formatting and parsing.
  - `Wrappers`: `Option`.

Go mutates the tree through pointers. Here the tree is a value: an operation
that changes a tree returns the changed tree. `Extra.standardize` is the
exception, because it overwrites a byte buffer. It is modelled in place on an
`array<byte>` (`Standard.StandardizeExtra`).

## Model

| member | source | states |
|---|---|---|
| Values.LiteralKind | util/hujson/types.go:183-195 | `Literal.Kind`: the first byte for `n`, `t`, `f` and '"', '0' for a leading '-' or digit, and 0 for an empty literal or any other first byte. |
| Values.NodeKind | util/hujson/types.go:106-120 | `Kind` of any value: the literal's kind, '{' for an object and '[' for an array. |
| Values.IsValidLiteral | util/hujson/types.go:199-203 | `Literal.IsValid`: the literal is one JSON null, boolean, string or number, by the RFC 8259 grammar, with no surrounding whitespace. |
| Values.Bool | util/hujson/types.go:128-134 | The `Bool` builder: the bytes `true` or `false`. |
| Values.Int | util/hujson/types.go:149-151 | The `Int` builder: the signed decimal ASCII of the value. |
| Values.Uint | util/hujson/types.go:154-156 | The `Uint` builder: the unsigned decimal ASCII of the value. |
| Values.LiteralBool | util/hujson/types.go:207-209 | `Literal.Bool`: true exactly for the bytes `true`. |
| Values.KindOfValid | util/hujson/types.go:183-195 | For a valid literal, `Kind` names its grammar. It is 'n', 't' or 'f' exactly for `null`, `true` or `false`, '0' exactly for a number, and '"' exactly for a string. It is never 0. |
| Values.BoolRoundTrip | util/hujson/types.go:128-134 | `Literal.Bool(Bool(v)) == v`. `Bool(v)` is a valid literal of kind 't' or 'f'. |
| Values.IntegersAreNumbers | util/hujson/types.go:149-156 | `Int` and `Uint` build valid JSON numbers, of kind '0'. |
| Values.CopyBytes | util/hujson/types.go:393-398 | The copy holds the same bytes, and an empty input gives an empty copy. |
| Values.CloneValue | util/hujson/types.go:97-102 | The deep copy equals the original: extras, offsets, literal bytes, members, elements and flags. |
| Values.CloneNode | util/hujson/types.go:176-178 | A cloned literal, object or array equals the original. |
| Values.CloneMembers | util/hujson/types.go:301-311 | An object's cloned members equal the originals, in order. |
| Values.CloneMember | util/hujson/types.go:301-311 | A cloned member has an equal name and an equal value. |
| Values.CloneElements | util/hujson/types.go:354-363 | An array's cloned elements equal the originals, in order. |
| Values.Children | util/hujson/types.go:278-288 | The values `rangeValues` visits: for an object, member i's name at 2i and its value at 2i+1, and nothing else; for an array, its elements; for a literal, none. |
| Values.MemberValues | util/hujson/types.go:278-288 | The children of an object are the name and then the value of each member, in member order. |
| Values.Len | util/hujson/types.go:271 | `len`: the number of members or elements. |
| Values.FirstValue | util/hujson/types.go:272-277 | `firstValue`: the first member's name or the first element, absent when empty. |
| Values.LastValue | util/hujson/types.go:289-294 | `lastValue`: the last member's value or the last element, absent when empty. |
| Values.FirstAndLastChildren | util/hujson/types.go:272-294 | `firstValue` is the first child (the first name or element). `lastValue` is the last child (the last value or element). Each is absent exactly when the container is empty. |
| Values.ObjectRangeValues | util/hujson/types.go:278-288 | Calls the callback on name, value, name, … in order. It stops after the first false. It returns true exactly when the callback accepts every child. |
| Values.ArrayRangeValues | util/hujson/types.go:334-341 | The same, over the elements in order. |
| Values.ExtraIsValid | util/hujson/types.go:388-391 | True exactly when the extra is whitespace and complete comments, i.e. when `consumeExtra` from 0 consumes it all without error. |
| Values.SkipWholeExtra | util/hujson/parse.go:212-243 | `consumeExtra` runs to the end of a valid extra without error. |
| Lexer.ScanComment | util/hujson/parse.go:219-237 | A comment is recognised exactly at `//` or `/*`. A complete comment spans at least its delimiters and stays inside the input. |
| Lexer.Delimited | util/hujson/parse.go:229-237 | Once a comment has opened, the scan reports it complete, unterminated or not UTF-8. A complete comment spans both delimiters and stays inside the input. |
| Lexer.CommentError | util/hujson/parse.go:231-236 | An error arises exactly for an unterminated comment or invalid UTF-8 inside one. |
| Lexer.ScanCommentPrefix | util/hujson/parse.go:230 | Where a comment ends depends only on the bytes up to its end. |
| Lexer.CompleteCommentIsExtra | util/hujson/parse.go:237 | A complete comment is a valid extra. |
| Lexer.SkipExtraIsExtra | util/hujson/parse.go:212-243 | What `consumeExtra` consumes is whitespace and complete comments. |
| Lexer.SkipExtraEnd | util/hujson/parse.go:226-239 | On success, no whitespace or comment starts where `consumeExtra` stops. On error, the offset is the opening '/' of the bad comment, and the error is the one that comment has. |
| Lexer.SkipStops | util/hujson/parse.go:226-239 | `consumeExtra` consumes nothing where no extra starts. |
| Lexer.SkipSpaces | util/hujson/parse.go:216-217 | Skipping a run of whitespace first does not change where `consumeExtra` ends. |
| Lexer.CommentAt | util/hujson/parse.go:229-237 | At a comment, `consumeExtra` fails at its '/' when no closing delimiter follows or the body is not UTF-8. Otherwise it continues after the delimiter. |
| Lexer.ConsumeWhitespace | util/hujson/parse.go:245-250 | Returns the length of the longest prefix of spaces, tabs, CRs and newlines. |
| Lexer.ConsumeComment | util/hujson/parse.go:219-237 | The comment case of the loop. It either decides the result of `consumeExtra` or advances to where the same result is reached. |
| Lexer.ConsumeExtra | util/hujson/parse.go:212-243 | The loop computes exactly the offset and the error of the specification `SkipExtra`. |
| Lexer.SpacesAreExtra | util/hujson/parse.go:216-217 | Whitespace alone is a valid extra. |
| Lexer.ExtraConcat | util/hujson/types.go:388-391 | Two valid extras in a row form a valid extra. |
| Utf8.ValidConcat | util/hujson/parse.go:234 | Two valid UTF-8 texts in a row form valid UTF-8. |
| Utf8.AsciiValid | util/hujson/parse.go:234 | ASCII is valid UTF-8. |
| Utf8.CharLength | util/hujson/parse.go:234 | The length of the first UTF-8 character is at most 4 and fits in the input. An ASCII byte is one character. |
| Parser.LineColumn | util/hujson/parse.go:15-19 | `lineColumn`: one more than the newlines before offset n, and the distance from the last of them (or from the start, plus one). |
| Parser.LineColumnStart | util/hujson/parse.go:15-19 | Offset 0 is line 1, column 1. |
| Parser.LineColumnStep | util/hujson/parse.go:15-19 | A newline moves to column 1 of the next line. Any other byte moves one column right. |
| Parser.LineColumnFirstLine | util/hujson/parse.go:15-19 | With no newline before offset n, the position is line 1, column n+1. |
| Parser.Parse | util/hujson/parse.go:23-37 | On success, the tree packs to exactly the input, its offsets are those of the input, and it is well formed. On error, the kind is explained by the byte at the error offset. This includes a '}' or ']' that opens nothing, and the first byte left after the top-level value. Line and column are those of that offset. |
| Parser.ParseNext | util/hujson/parse.go:40-67 | On success, the before- and after-extras are the input around the value's offsets, and the value packs to `b[n0..next]` with matching offsets. The after-extra runs as far as extras go. A close sentinel is returned exactly when `consumeExtra` stops without error at a '}' or ']', and it is that byte's offset. Errors lie at or after `n0` and are explained by the input. |
| Parser.ParseNextValue | util/hujson/parse.go:75-202 | Parses one value without extras: lossless, placed and well formed. It returns the close sentinel at `n0` exactly when the byte there is '}' or ']'. Errors, including end of input, are explained. |
| Parser.ParseObject | util/hujson/parse.go:81-126 | The object packs back to exactly its input text, from '{' to '}'. Its offsets are placed, and it is well formed: names are strings, and the trailing-comma flag is set only with members. It never yields the close sentinel. Each error lies at or after the '{' and is explained by the byte at its offset. |
| Parser.ParseMember | util/hujson/parse.go:88-113 | A member packs back to its input: a name of string kind, a ':' and a value. The close sentinel is returned exactly when `consumeExtra` stops without error at a '}' where the name should start. Every error is explained by the byte at its offset. This covers a name that is not a string, a missing ':', a ']' in name position, and a '}' or ']' in value position. |
| Parser.AfterMember | util/hujson/parse.go:115-124 | After a member, the loop goes on (no outcome) exactly when the next byte is ','. The member is then appended. A '}' gives exactly the parsed object with the member appended and the flag cleared. End of input and any other byte give an explained error at that offset. |
| Parser.ParseArray | util/hujson/parse.go:131-156 | The same as `ParseObject`, for arrays and ']'. |
| Parser.ParseElement | util/hujson/parse.go:136-143 | An element is a value parsed with its extras. The close sentinel is returned exactly when `consumeExtra` stops without error at a ']'. A '}' there is the error `InvalidObjectEnd` at its offset. |
| Parser.AfterElement | util/hujson/parse.go:145-154 | The same as `AfterMember`, for elements, ']' and the parsed array. |
| Parser.ParseString | util/hujson/parse.go:161-182 | The parsed literal is exactly `LiteralAt`: the bytes up to the first unescaped '"'. It is a valid JSON string. A valid string at `n0` is always accepted. Every error is either end of input at the end of `b` or an invalid literal at the opening quote. |
| Parser.ParseBareLiteral | util/hujson/parse.go:185-201 | A bare literal is the longest run of `-+.`, letters and digits. A valid literal at `n0` is always accepted. Every error is at the literal's first byte, and it is either an invalid value start (an empty run) or an invalid literal. |
| Parser.CheckLiteral | util/hujson/parse.go:193-199 | The literal is accepted exactly when it is valid. Otherwise the error is at its start. |
| Parser.BareEnd | util/hujson/parse.go:187-192 | The scan stops at the first byte that cannot be part of a bare literal. |
| Parser.StringClose | util/hujson/parse.go:165-182 | The scan ends just after a '"', or reports the end of input. |
| Parser.ValueAround | util/hujson/parse.go:47-64 | Extras consumed around a parsed node make a parsed value with those extras and offsets. |
| Parser.MemberJoined | util/hujson/parse.go:101-115 | A name, a ':' and a value parsed in a row make a parsed member. |
| Parser.AppendMember | util/hujson/parse.go:115 | Appending the member extends the object's text and keeps offsets and well-formedness. |
| Parser.MemberThenComma | util/hujson/parse.go:119-120 | After ',' the loop's invariant holds for the longer member list. |
| Parser.MemberTerminated | util/hujson/parse.go:119-120 | The ',' terminates the member in the packed text. |
| Parser.MemberThenClose | util/hujson/parse.go:121-122 | A '}' after a member closes a parsed object without a trailing comma. |
| Parser.AppendElement | util/hujson/parse.go:145 | Appending the element extends the array's text and keeps offsets and well-formedness. |
| Parser.ElementThenComma | util/hujson/parse.go:149-150 | After ',' the loop's invariant holds for the longer element list. |
| Parser.ElementTerminated | util/hujson/parse.go:149-150 | The ',' terminates the element in the packed text. |
| Parser.ElementThenClose | util/hujson/parse.go:151-152 | A ']' after an element closes a parsed array without a trailing comma. |
| Parser.ObjectCloses | util/hujson/parse.go:90-93 | The close sentinel in name position ends the object. The flag is set exactly when there are members, and the extra before '}' becomes its after-extra. |
| Parser.ArrayCloses | util/hujson/parse.go:138-141 | The same for arrays. |
| Packing.PackMembersTerminated | util/hujson/parse.go:90-93 | With the flag set exactly when there are members, each member is followed by its comma. |
| Packing.PackElementsTerminated | util/hujson/parse.go:138-141 | The same for elements. |
| Bytes.IndexOf | util/hujson/parse.go:230 | `bytes.Index` returns -1 or an offset where the pattern fits. |
| Bytes.IndexOfFirst | util/hujson/parse.go:230 | That offset is the first occurrence, and -1 means there is none. |
| Bytes.IndexOfExtend | util/hujson/parse.go:230 | Appending bytes does not move a found first occurrence. |
| Bytes.IndexOfTruncate | util/hujson/parse.go:230 | Cutting the text after a found occurrence does not move it. |
| Bytes.Count | util/hujson/parse.go:16 | `bytes.Count` is 0 exactly when the byte is absent. |
| Bytes.CountConcat | util/hujson/parse.go:16 | Counts add up over concatenation. |
| Bytes.LastIndexByte | util/hujson/parse.go:17 | Returns -1 or the last position holding the byte. |
| Bytes.IndexByte | util/hujson/find.go:30 | Returns -1 or the first position holding the byte. |
| Bytes.ReplaceAll | util/hujson/find.go:38-39 | `strings.ReplaceAll` for a non-empty pattern: scanning left to right, each occurrence is replaced and the scan resumes after it, so occurrences do not overlap. |
| Bytes.ReplaceAllHead | util/hujson/find.go:38-39 | Unfolds `ReplaceAll` at a leading occurrence: it is replaced and the scan resumes after it. |
| Bytes.ReplaceAllCons | util/hujson/find.go:38-39 | Unfolds `ReplaceAll` at a leading byte that cannot start the pattern: that byte is kept. |
| Bytes.ReplaceAllAbsent | util/hujson/find.go:38-39 | Text without the pattern's first byte is unchanged. |
| Decimal.FormatUint | util/hujson/types.go:154-156 | Decimal digits, non-empty, with a leading '0' only for zero, which is exactly "0". |
| Decimal.ParseUint | util/hujson/find.go:51 | `strconv.ParseUint` succeeds exactly on non-empty digit strings whose value is below 2^64, and yields that value. Formatting a value parsed from digits without a superfluous leading zero gives the same digits back. |
| Decimal.FormatDigitsValue | util/hujson/find.go:51 | Formatting the value of a digit run without a superfluous leading zero gives the run back. |
| Decimal.DigitsValueFormat | util/hujson/types.go:154-156 | The digits of `FormatUint(n)` have the value n. |
| Decimal.ParseFormatUint | util/hujson/find.go:51 | Parsing a formatted unsigned 64-bit number gives the number back. |
| Decimal.DigitsAreNumber | util/hujson/types.go:154-156 | Digits without a superfluous leading zero form a JSON number. |
| Decimal.FormatIsNumber | util/hujson/types.go:149-156 | Formatted integers, signed or not, are JSON numbers. |
| Json.NumberShape | util/hujson/types.go:199-203 | A valid JSON number starts with '-' or a digit and ends with a digit. |
| Pointer.Find | util/hujson/find.go:18-60 | `Value.Find`: "" is the receiver; otherwise '/' is required, the first reference token is split off and unescaped, and resolution continues in the first member with that name or the element at that index. |
| Pointer.Unescape | util/hujson/find.go:36-40 | A token holding '~' has "~1" replaced by '/' and then "~0" by '~'; any other token is kept. |
| Pointer.ArrayIndex | util/hujson/find.go:51-54 | The token's `strconv.ParseUint` value, except that zero must be spelled "0". |
| Pointer.EqualString | util/hujson/find.go:62-70 | A quoted literal without a backslash matches the bytes between its quotes; any other literal goes through `unquote`. |
| Pointer.NameMatches | util/hujson/find.go:45 | A member matches when its name is a literal equal to the token as a string. |
| Pointer.Split | util/hujson/find.go:28-34 | The pointer is '/', a reference token without '/', and a rest that is empty or starts with '/'. |
| Pointer.SplitKnown | util/hujson/find.go:28-34 | Splitting `"/" + token + rest` gives back that token and rest. |
| Pointer.SplitCount | util/hujson/find.go:28-34 | Each step consumes exactly one '/'. |
| Pointer.FirstMatch | util/hujson/find.go:45-49 | Returns the first member at or after i whose name matches. Every member before it, or every member at all when none is returned, does not match. |
| Pointer.Child | util/hujson/find.go:43-59 | One step of `Find` yields a member value or an element of the current value, or nothing. |
| Pointer.FindReaches | util/hujson/find.go:18-60 | `Find("")` is the receiver. A non-empty pointer without a leading '/' finds nothing. Anything found lies as many steps down the tree as the pointer has '/'. |
| Pointer.FindInLiteral | util/hujson/find.go:43-59 | No non-empty pointer finds anything inside a literal. |
| Pointer.FindStep | util/hujson/find.go:44-57 | A successful search continues from a child with the rest of the pointer. |
| Pointer.FindMember | util/hujson/find.go:44-49 | On an object, the escaped name selects the first member with that name, and resolution continues in its value. Later duplicates are ignored. |
| Pointer.FindArrayStep | util/hujson/find.go:50-57 | On an array, a token that is no index, or an index at or past the end, finds nothing. An index in range continues in that element. |
| Pointer.FindElement | util/hujson/find.go:50-57 | The decimal spelling of an in-range index selects that element. |
| Pointer.PaddedZero | util/hujson/find.go:51-54 | "00" is not an index. |
| Pointer.PaddedZeroIsNoIndex | util/hujson/find.go:51-54 | "/00" finds nothing in any array. |
| Pointer.PaddedOne | util/hujson/find.go:51-54 | "01" is index 1. |
| Pointer.LeadingZeroIndex | util/hujson/find.go:51-57 | "/01" selects element 1. |
| Pointer.EscapeHasNoSlash | util/hujson/find.go:36-40 | An escaped name contains no '/', so it fits in one reference token. |
| Pointer.UnescapeSlashes | util/hujson/find.go:38 | Replacing "~1" in an escaped name restores every '/' and leaves each "~0" in place. |
| Pointer.EscapedTildeStays | util/hujson/find.go:38 | Replacing "~1" passes over a leading "~0". |
| Pointer.UnescapeTildes | util/hujson/find.go:39 | Replacing "~0" afterwards restores every '~'. |
| Pointer.UnescapeEscape | util/hujson/find.go:36-40 | Unescaping inverts escaping for every name (section 4 of RFC 6901). |
| Pointer.UnescapeOrder | util/hujson/find.go:37-40 | Because "~1" is replaced first, "~01" decodes to "~1" and not to "~/". |
| Pointer.EqualStringFastPath | util/hujson/find.go:62-66 | A quoted literal without backslashes equals the name exactly when it is the name between quotation marks. |
| FindExamples.QuotedMatches | util/hujson/find.go:62-66 | A quoted name without escapes matches exactly its own bytes. |
| FindExamples.NamedAt | util/hujson/find_test.go:15-27 | In the example document, each name is matched first by its own member. |
| FindExamples.EscapePlain | util/hujson/find.go:36-40 | A name without '~' or '/' is its own reference token. |
| FindExamples.EscapedNames | util/hujson/find_test.go:41 | "a/b" and "m~n" are written "/a~1b" and "/m~0n". |
| FindExamples.FindsFoo | util/hujson/find_test.go:37-38 | "" finds the document, and "/foo" finds the array. |
| FindExamples.FindsEmptyName | util/hujson/find_test.go:40 | "/" finds the member with the empty name. |
| FindExamples.FindsEscapedSlash | util/hujson/find_test.go:41 | "/a~1b" finds the member named "a/b". |
| FindExamples.FindsEscapedTilde | util/hujson/find_test.go:48 | "/m~0n" finds the member named "m~n". |
| FindExamples.FindsElements | util/hujson/find_test.go:39 | "/foo/0" finds "bar", and "/foo/00" finds nothing. |
| FindExamples.FindsNoSlash | util/hujson/find_test.go:49 | "foo", without the leading '/', finds nothing. |
| FindExamples.FindsNoMember | util/hujson/find_test.go:50 | "/foo " finds nothing, because no member is named "foo ". |
| Standard.Blank | util/hujson/standard.go:53-62 | The result has the same length. Whitespace is kept, every other byte becomes a space, and the result is all whitespace. |
| Standard.StandardizeExtra | util/hujson/standard.go:53-62 | Overwrites the buffer in place with its blanked contents. |
| Standard.BlankExtra | util/hujson/standard.go:53-62 | Returns the blanked copy of an extra. |
| Standard.BlankIdempotent | util/hujson/standard.go:53-62 | Blanking twice is blanking once. |
| Standard.BlankIsExtra | util/hujson/standard.go:53-62 | A blanked extra is still a valid extra. |
| Standard.SpacesThenExtra | util/hujson/standard.go:42-45 | Whitespace followed by a valid extra is a valid extra. |
| Standard.NeutralizedConcat | util/hujson/standard.go:53-62 | Byte-wise blanking is compatible with concatenation. |
| Standard.SameNewlines | util/hujson/standard.go:57 | Texts with newlines in the same places have the same newline count and the same last newline. |
| Standard.NeutralizedLineColumn | util/hujson/standard.go:57 | Blanking keeps the line and column of every offset. |
| Standard.Minimize | util/hujson/standard.go:13-24 | Computes the minimized tree: no extras at any depth, no trailing commas, no container after-extras. |
| Standard.MinimizeNode | util/hujson/standard.go:15-22 | The loop over the children minimizes each, in order, then clears the flag and the after-extra. |
| Standard.MinimizedStripped | util/hujson/standard.go:13-24 | After minimizing, every extra in the tree is empty and every flag is false. |
| Standard.MinimizedNodeStripped | util/hujson/standard.go:15-22 | The same, for a node. |
| Standard.MinimizedFixpoint | util/hujson/standard.go:13-24 | Minimizing leaves a tree unchanged exactly when it is already stripped. |
| Standard.MinimizedNodeFixpoint | util/hujson/standard.go:15-22 | A stripped node is unchanged. |
| Standard.MinimizedSameJson | util/hujson/standard.go:13-24 | Minimizing keeps the JSON. Literals, names, and the number and order of members and elements are untouched. |
| Standard.MinimizedNodeSameJson | util/hujson/standard.go:15-22 | The same, for a node. |
| Standard.MinimizedIdempotent | util/hujson/standard.go:9-12 | Minimizing twice is minimizing once. |
| Standard.MinimizedWellFormed | util/hujson/standard.go:7-8 | A well-formed tree stays well formed: every literal is still a JSON scalar and every name a string. |
| Standard.MinimizedNodeWellFormed | util/hujson/standard.go:15-22 | The same, for a node. |
| Standard.Standardize | util/hujson/standard.go:34-52 | Computes the standardized tree. |
| Standard.StandardizeNode | util/hujson/standard.go:36-50 | Standardizes each child in order. Then the last child's after-extra takes a space for a trailing comma, followed by the container's after-extra. The flag is cleared. An empty container's after-extra is blanked. |
| Standard.AbsorbInto | util/hujson/standard.go:41-47 | The last child's after-extra becomes its own, a space when the flag was set, and the container's after-extra. |
| Standard.StandardizedNeutral | util/hujson/standard.go:26-29 | The text of the standardized tree has the original length. It differs only where a byte other than whitespace became a space, so no newline moves. |
| Standard.StandardizedNodeNeutral | util/hujson/standard.go:36-50 | The same, for a node. |
| Standard.StandardizedObjectNeutral | util/hujson/standard.go:41-49 | The same, for an object: the trailing comma becomes a space in place. |
| Standard.StandardizedArrayNeutral | util/hujson/standard.go:41-49 | The same, for an array. |
| Standard.EmptyContainerNeutral | util/hujson/standard.go:49 | An empty container only blanks its after-extra. |
| Standard.StandardizedMemberNeutral | util/hujson/standard.go:37-40 | A standardized member is a byte-wise blanking of the original. |
| Standard.TerminatedNeutral | util/hujson/standard.go:37-40 | The same, for a run of members each followed by a comma. |
| Standard.TerminatedElementsNeutral | util/hujson/standard.go:37-40 | The same, for a run of elements. |
| Standard.PackAbsorb | util/hujson/standard.go:42-45 | The absorbing child's text grows by the space and the moved extra. |
| Standard.PackMemberAbsorb | util/hujson/standard.go:42-45 | The same, for the last member. |
| Standard.ContainerNeutral | util/hujson/standard.go:41-49 | Moving the comma (as a space) and the after-extra onto the last child keeps the bytes in place. |
| Standard.StandardizedLineColumn | util/hujson/standard.go:28-29 | Every offset of the original text keeps its line and column in the standardized text. |
| Standard.StandardizedPlaced | util/hujson/standard.go:32 | Offsets that were right stay right, so recomputing them has nothing to change. |
| Standard.StandardizedNodePlaced | util/hujson/standard.go:36-50 | The same, for a node. |
| Standard.StandardizedObjectPlaced | util/hujson/standard.go:41-49 | The same, for an object. |
| Standard.StandardizedArrayPlaced | util/hujson/standard.go:41-49 | The same, for an array. |
| Standard.StandardizedMemberPlaced | util/hujson/standard.go:37-40 | The same, for a member. |
| Standard.MembersPlacedStandardized | util/hujson/standard.go:37-40 | The same, for a run of members. |
| Standard.ElementsPlacedStandardized | util/hujson/standard.go:37-40 | The same, for a run of elements. |
| Standard.StandardizedWellFormed | util/hujson/standard.go:34-52 | A well-formed tree stays well formed. |
| Standard.StandardizedNodeWellFormed | util/hujson/standard.go:36-50 | The same, for a node. |
| Standard.StandardizedObjectWellFormed | util/hujson/standard.go:41-49 | The same, for an object. |
| Standard.StandardizedArrayWellFormed | util/hujson/standard.go:41-49 | The same, for an array. |
| Standard.StandardizedMemberWellFormed | util/hujson/standard.go:37-40 | The same, for a member. |
| Standard.AbsorbWellFormed | util/hujson/standard.go:42-45 | A blanked after-extra followed by a space and a valid extra is valid. |
| Standard.MinimizedStandardized | util/hujson/standard.go:26-27 | Standardizing keeps the JSON: minimizing after it gives what minimizing gives. |
| Standard.MinimizedStandardizedNode | util/hujson/standard.go:36-50 | The same, for a node. |
| Standard.MinimizedStandardizedObject | util/hujson/standard.go:41-49 | The same, for an object. |
| Standard.MinimizedStandardizedArray | util/hujson/standard.go:41-49 | The same, for an array. |
| Standard.StandardizedSameJson | util/hujson/standard.go:26-29 | Standardizing keeps the JSON: literals, names, counts and order. |
| Standard.StandardizedNodeSameJson | util/hujson/standard.go:36-50 | The same, for a node. |
| Standard.StandardizedObjectSameJson | util/hujson/standard.go:41-49 | The same, for an object. The moved after-extra changes only extras. |
| Standard.StandardizedArraySameJson | util/hujson/standard.go:41-49 | The same, for an array. |
| Standard.StandardizedIsStandard | util/hujson/standard.go:26-29 | With the moved extra blanked, the result has only whitespace extras and no trailing commas. A non-empty container's after-extra is empty, as types.go:266-268 requires. |
| Standard.StandardizedNodeIsStandard | util/hujson/standard.go:36-50 | The same, for a node. |
| Standard.StandardizedObjectIsStandard | util/hujson/standard.go:41-49 | The same, for an object. |
| Standard.StandardizedArrayIsStandard | util/hujson/standard.go:41-49 | The same, for an array. |
| Standard.AbsorbStandard | util/hujson/standard.go:42-45 | Absorbing a blanked extra keeps a child standard. |
| Standard.StandardizedFixpoint | util/hujson/standard.go:26-29 | A tree that is already standard is unchanged. |
| Standard.StandardizedNodeFixpoint | util/hujson/standard.go:36-50 | The same, for a node. |
| Standard.StandardizedObjectFixpoint | util/hujson/standard.go:41-49 | The same, for an object. |
| Standard.StandardizedArrayFixpoint | util/hujson/standard.go:41-49 | The same, for an array. |
| Standard.StandardizedIdempotent | util/hujson/standard.go:26-29 | With the moved extra blanked, standardizing twice is standardizing once. |
| Standard.StandardizeKeepsMovedComment | util/hujson/standard.go:45-49 | As written: `[1,/*c*/]` (offsets placed) standardizes to a tree that still holds the comment. That tree is not standard, and a second run changes it. |

## Left out

- Floating point: the `Float` builder and the `Literal.Float` accessor.
- The `String` builder and the `String`, `Int` and `Uint` accessors. They call `encoding/json` and `strconv` code that is not part of this model.
- Values.IsValidLiteral: `json.Valid` also accepts an object or an array inside a literal. The model accepts only the scalars, which are all that the parser and the builders produce.
- Pointer.EqualString: the slow path (`json.Unmarshal`) is the parameter `unquote`. Only the fast path is specified.
- FindExamples: the six members of the example document whose names need decoding or are otherwise the same case are omitted.
- `Value.Pack` and `Value.UpdateOffsets`: their code is not part of this model. `Pack` is defined here from the documented layout, only to state properties. Offsets are not recomputed. `StandardizedPlaced` shows that `Standardize` has nothing for `UpdateOffsets` to change.
- Standard.Minimize: offsets are kept as they were. Go's `Minimize` recomputes them with `UpdateOffsets`, which is not part of this model.
- `Reformat` and `NormalizeNames`: named in the package documentation only.
- Buffer aliasing: Go's extras and literals alias the parsed input, and `Extra.standardize` writes through to it. Here they are values, and nil and empty are the same.
- In-place mutation through `*Value` pointers is modelled by returning the new tree. `Find` returns the value found, not a reference into the tree.
- The `setEmitTrailingComma` and `setAfterExtra` setters are modelled only as the record updates inside `Minimize` and `Standardize`.
- Parser.Parse: on error Go also returns the partially built value. The model returns only the error: its kind, offset, line and column. The text of error messages is not modelled.
- Parser.Parse: neither acceptance of valid HuJSON nor the position of the first error is proved. An error is tied only to a byte at its offset that fits its kind.
- Values.ObjectRangeValues: the callback is a pure `Value -> bool`. Go's `rangeValues` passes `*Value`, and `Minimize` and `Standardize` mutate the children through it. Here `MinimizeNode` and `StandardizeNode` walk the children with their own loops, which stand in for that mutation. The same holds for `Values.ArrayRangeValues`.
- Parser.ParseNext: the model proves what each result means. It does not prove that every HuJSON text is accepted (completeness).
- Pointer.ArrayIndex: `strconv.ParseUint` with bit size 0 is taken to be 64 bits wide.
- Pointer.LeadingZeroIndex: section 4 of RFC 6901 allows as an array index only "0" or a digit 1-9 followed by digits. The code rejects only a zero written with extra zeros, so "/01" selects element 1. The model follows the code.
- Standard.Standardize: the `blankMoved` flag chooses between the code as written (`false`) and the corrected behaviour (`true`). The doc comment at `standard.go:26-29` says that the result is standard JSON with every comment and trailing comma replaced by spaces. A second run then has nothing left to blank, so it changes nothing. Both properties are proved only for `true` (see Findings).

## Findings

| source | as written | input that shows it | evidently intended | confidence | as-written member | corrected member |
|---|---|---|---|---|---|---|
| util/hujson/standard.go:45-49 | A non-empty container's after-extra is appended to the last child's after-extra, which was standardized earlier. Then `setAfterExtra(nil)` makes the call to `standardize` at line 49 act on nil, so the moved comment is never blanked. | `[1,/*c*/]` | Every comment and trailing comma is replaced with spaces (standard.go:28), so the result is standard JSON and a second run changes nothing (`Standard.StandardizedIdempotent`). | not executed | Standard.StandardizeKeepsMovedComment | Standard.StandardizedIsStandard |
