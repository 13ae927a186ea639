# php_dom_parser, modelled in Dafny

A model of the small PHP DOM parser `dom_parser`: a character cursor over the
input (`dom_stream`), the lexical values it produces (`dom_entity` and friends),
the recursive-descent lexer and tree builder (`parse_*`, `parse_node`,
`dom_parse`), the node tree with its exact and pretty serialisations
(`dom_node`), and the helpers of `dom_util` (the void-element table and the
stack class).

Modules, one per source file or component:

- `Chars` — the ASCII character classes and case mappings the source gets from
  `ctype_*`, `strtolower`, `strtoupper` and `stripos`.
- `Util` — dom_util.php: `is_void_element`, the `stack` class, and the
  `Option`/`Result` values that stand for PHP's `null` and `syntax_exception`.
- `Stream` — dom_stream.php. The cursor is an immutable record (buffer, offset,
  last newline, line, column). The current and lookahead characters are derived
  from the offset. `bookmark()` returns a `Mark` value and `restore` takes one.
- `Entities` — dom_entity.php: attributes, the seven entity kinds and their
  `__toString`.
- `Lexer` — the lexical and entity parsers of dom_parser.php, lines 22-356. Each
  takes a cursor and returns the value with the advanced cursor, or the syntax
  failure.
- `Nodes` — dom_node.php: the root, leaf and element nodes, `add`, the child
  accessors, `__toString` and `pretty_print`.
- `TreeBuilder` — `parse_node` with its four-case end-tag recovery, and
  `dom_parse`.
- `Loose` — PHP 8's loose `==` between strings, which `in_array` uses: numeric
  strings compare as numbers.
- `RoundTrip`, `StartTagRoundTrip`, `DoctypeRoundTrip` — the partners of the
  entity parsers: each parser reads the `__toString` text of an entity back as
  that entity, under stated conditions on its content.

The shared stray-tag stack (`&$stray`) and the warnings are threaded through the
recursion as values. The ancestor chain that case 3 walks is passed as the list
of open tag names.

Behaviour kept as the code has it:

- When `next()` lands on `\r` or `\n` it steps over that character too. So the
  lexers that accumulate the current character drop single line breaks, while
  `parse_cdata` keeps them.
- `parse_entity` skips leading white space.
- `<div >` is a syntax error, because the attribute loop starts on the space.
- At end of input `parse_node` still appends one (empty) text entity.
- The lookahead character follows PHP's `?:`, so a `'0'` lookahead reads as
  `"\0"`.
- `eof()` tests the current character against `"\0"`, so an embedded `"\0"`
  ends the parse and the text after it is silently dropped.
- The duplicate test `in_array` compares loosely, so two numeric attribute names
  for the same number (`1` and `01`, `1e3` and `1000`) clash.

Two defects are modelled both ways through `Lexer.Mode`: `AsWritten` follows the
code and `Corrected` fixes it (see Findings).

Behaviour of the code the model keeps even where it looks unintended:

- A repeated `name=value` attribute is not rejected but overwrites the earlier
  one (see Findings).
- Exact text round-trip does not hold in general, because line breaks and
  leading white space are dropped. The round-trip lemmas state the conditions
  under which it does hold.

## Model

| member | source | states |
|---|---|---|
| Chars.LowerStr | dom_parser.php:66 | `strtolower` keeps the length and lower-cases each ASCII letter, leaving every other character alone |
| Chars.UpperStr | dom_parser.php:285 | `strtoupper` keeps the length and upper-cases each ASCII letter, leaving every other character alone |
| Chars.LowerStrIdempotent | dom_parser.php:207-210 | lower-casing twice is lower-casing once, so a lower-cased key is its own key |
| Chars.PrefixIsIPrefix | dom_stream.php:141-144 | an exact prefix is also a case-insensitive prefix |
| Util.VoidElementsWellFormed | dom_util.php:6-10 | the void table has 16 distinct names, each one a lower-case tag name the tag-name lexer can produce |
| Util.VoidIsCaseSensitive | dom_util.php:6-10 | membership is case-sensitive: no name holding an upper-case letter is void |
| Util.PushPop | dom_util.php:53-61 | `push(x)` then `pop()` gives `x` back and restores the previous stack |
| Util.PopPush | dom_util.php:53-61 | `pop()` on an empty stack gives `null` and leaves it empty; on a non-empty stack, pushing the popped item back restores the stack |
| Util.EmptyIffCountZero | dom_util.php:63-71 | `empty()` holds exactly when `count()` is 0 |
| Stream.NewBuffer | dom_stream.php:29-33 | the buffer begins with the input; the new cursor is at eof exactly when the input is empty or starts with `"\0"`; the last position is always eof |
| Stream.LookaheadIsNext | dom_stream.php:107-108 | the lookahead foretells the current character after a plain `next()`, except that a `'0'` is foreseen as `"\0"`; at the last position both are `"\0"` |
| Stream.NotEofHasRoom | dom_stream.php:146-149 | a cursor not at eof is not at the last buffer position |
| Stream.Next | dom_stream.php:85-111 | at the last position nothing moves and the current character is returned; otherwise the offset moves by 1, or by 2 when it lands on `\r`/`\n`, in which case the line grows by 1 and the column resets to 1 (else the column grows by 1); the result is the buffer slice between the two offsets |
| Stream.NextProgress | dom_stream.php:87-99 | `next()` never moves back, and moves forward whenever the cursor is not at eof |
| Stream.NextPlain | dom_stream.php:91-110 | when the next character is not a line break, `next()` returns the current character and moves one column right |
| Stream.NextTimes | dom_stream.php:119-121 | `k` calls of `next()` never move back or more than `2k`, and move exactly `k` columns when no line break is met |
| Stream.Skip | dom_stream.php:113-124 | `skip(n)` returns the new current character; it moves exactly `n` plain steps when there is room and no line break, and stops on the last position (the sentinel) when `n` would pass it |
| Stream.NextTimesReachesEnd | dom_stream.php:115-121 | the clamped count of `skip` always lands exactly on the last position |
| Stream.NextTimesAtLeast | dom_stream.php:119-121 | after `k` calls of `next()` the offset has moved by at least `k` or sits on the last position |
| Stream.SeekAtStart | dom_stream.php:76-83 | at offset 0 absolute and relative seeking agree |
| Stream.RestoreBookmark | dom_stream.php:126-139 | restoring a bookmark gives back the cursor it was taken from, with the same current and lookahead characters, whatever moves came in between |
| Stream.TestMeaning | dom_stream.php:141-144 | `test(s)` holds exactly when `s` matches the buffer from the offset, ignoring ASCII case; a successful test also succeeds for every prefix of `s` |
| Entities.JoinLength | dom_entity.php:78 | the joined text is as long as the parts plus one separator per neighbouring pair |
| Lexer.ScanWhile | dom_parser.php:25-28 | the accumulate-while loop: stops at eof or the first character outside the class; every character read is in the class; the positions passed are in the class or stepped-over line breaks; a run that starts in the class is not empty |
| Lexer.ScanSlice | dom_parser.php:25-28 | the value is never longer than the stretch passed, and with no line break inside that stretch it is exactly the buffer slice |
| Lexer.ScanExact | dom_parser.php:25-28 | over a run of `k` class characters with no line break, ending at a non-class character, the loop returns exactly that slice and moves `k` columns |
| Lexer.ParseWhitespace | dom_parser.php:22-31 | stops at eof or the first non-space character |
| Lexer.ParseIdentifier | dom_parser.php:36-49 | fails exactly when the current character is not alphanumeric; otherwise returns a non-empty identifier starting with it |
| Lexer.ParseTagName | dom_parser.php:54-67 | fails exactly when the current character is not a letter; otherwise returns a lower-case tag name, stops at a non-alphanumeric character, and with no line break is the lower-cased buffer slice |
| Lexer.ParseString | dom_parser.php:72-90 | fails, with the expected-string error, exactly when the current character is not a quote; otherwise the value holds neither that quote nor `"\0"` and the cursor moves forward |
| Lexer.StringSlice | dom_parser.php:72-90 | with no line break in the way, the value is exactly the buffer text between the opening quote and the first matching quote or `"\0"`, and the cursor ends one `next()` past that point, so beyond the closing quote |
| Lexer.ParseText | dom_parser.php:95-104 | the text contains no `<` and no `"\0"`, and stops at eof or at `<` |
| Lexer.ParseCdata | dom_parser.php:109-126 | on success the value is exactly the buffer slice up to a position where the delimiter matches (ignoring case), left unconsumed; on failure the error is the unterminated-cdata one |
| Lexer.CdataNoSentinel | dom_parser.php:112-120 | a successful parse passes no `"\0"` before the match |
| Lexer.CdataFirstMatch | dom_parser.php:112-120 | when the delimiter does not start with a line break, the match found is the first one after the start |
| Lexer.CdataFailure | dom_parser.php:112-123 | the parse fails only when some `"\0"` comes before any match of the delimiter |
| Lexer.ParseLiteral | dom_parser.php:131-142 | with room and no line break, succeeds exactly when the buffer holds the symbol at the cursor (case-sensitively) and then moves exactly its length; a failure names the symbol |
| Lexer.ParseAttribute | dom_parser.php:151-193 | the name is the identifier read after the leading white space; the attribute is valueless exactly when no `=` follows the name and its white space; a value is quoted, keeping its quotes, or a non-empty unquoted run; a failure is a missing identifier, an illegal unquoted start or a missing value |
| Lexer.QuotedValue | dom_parser.php:168-173 | the stored value is the opening quote, exactly the text parse_string returns, and the same quote again; the cursor is where parse_string leaves it |
| Lexer.ParseAttributeValue | dom_parser.php:164-192 | a quote starts a quoted value read by parse_string; `=`, `>`, `<` or a backquote is an illegal start; otherwise the value is exactly the run of unquoted-value characters, and the parse fails with a missing value exactly when that run is empty |
| Lexer.FindKey | dom_parser.php:210 | finds the first attribute with the key, or reports that none has it |
| Lexer.Get | dom_parser.php:210 | an attribute is found exactly when its key is present, and the one found has that key |
| Lexer.Put | dom_parser.php:210 | storing by lower-cased name replaces an attribute with the same key in place or appends; keys stay distinct and no key is lost |
| Lexer.PutGet | dom_parser.php:210 | after storing, looking up its key gives the stored attribute, and every other key is unchanged |
| Lexer.DuplicateAsWritten | dom_parser.php:207 | for a name without `=`, the test as written fires exactly when an earlier attribute is valueless and its name loosely equals the new key: the same text, or two numeric strings for the same number |
| Lexer.ParseAttributes | dom_parser.php:204-212 | stops at eof, `<`, `/` or `>`; keys stay distinct; with the corrected duplicate test the earlier attributes stay a prefix |
| Lexer.Store | dom_parser.php:210 | keys stay distinct; with the corrected test a new attribute is appended |
| Lexer.ParseStartTag | dom_parser.php:198-227 | the start tag holds the tag name and the attributes the loop read, with a lower-case name and distinct keys; with both read, it fails with the illegal-slash error exactly when a `/` follows the attributes of a non-void tag |
| Lexer.ParseEndTag | dom_parser.php:232-242 | the end tag's name is exactly what parse_tag_name reads after `</`, and is lower-case |
| Lexer.ParseComment | dom_parser.php:247-256 | after `<!--`, the comment text is exactly what parse_cdata reads up to `-->`; when that fails, the parse fails with the unterminated-cdata error |
| Lexer.ParsePhp | dom_parser.php:261-274 | after `<?` and an optional `php` in any case skipped, the text is exactly what parse_cdata reads up to `?>`; when that fails, the parse fails with the unterminated-cdata error |
| Lexer.ParseDoctypeItem | dom_parser.php:294-316 | a token is exactly the run of non-space characters other than `/` and `>`, with the white space after it skipped; the item is an assignment exactly when `=` follows that white space, and then its name is that run; the item is made of doctype characters, and it moves off any character but eof, `/` and `>` |
| Lexer.ParseDoctypeItems | dom_parser.php:292-319 | stops at eof, `/` or `>`; the items read before stay a prefix; off a stop character the next item is exactly the one parse_doctype_item reads there |
| Lexer.DoctypeItemsChars | dom_parser.php:292-319 | every item the loop adds is made of doctype characters, and an assignment always carries a value |
| Lexer.ParseDoctype | dom_parser.php:279-327 | with `<!` and an identifier read, it fails with the expected-doctype error exactly when the identifier does not upper-case to `DOCTYPE`; on success the items are exactly those the item loop reads after the white space that follows |
| Lexer.ParseMarkup | dom_parser.php:338-352 | after `<`: an end tag exactly on `/`, PHP exactly on `?`, a doctype exactly on `!` with a third character `D`/`d`, a comment exactly on `!` otherwise; never text or Ruby |
| Lexer.ParseEntity | dom_parser.php:332-356 | the bookmark lies after the skipped white space; input not starting with `<` is text, ending at eof or `<`; the cursor moves forward unless at eof; tag names are lower-case, attribute keys distinct, text holds no `<` |
| Lexer.SeekMisdispatch | dom_parser.php:340 | as written, a comment anywhere in an input that starts with `<!D` is sent to the doctype parser and fails |
| Lexer.LocalDispatch | dom_parser.php:339-343 | corrected, `<!-` at the cursor is parsed as a comment and `<!D`/`<!d` as a doctype, wherever they occur |
| Lexer.DuplicateOverwrites | dom_parser.php:207-210 | as written, `href='x' href='y'` passes the duplicate test and the second value replaces the first |
| Lexer.DuplicateRejected | dom_parser.php:207-210 | corrected, a key already present is a duplicate, and one that passes is appended with keys kept distinct |
| Loose.LooseWithEquals | dom_parser.php:207 | loose comparison with a string holding `=` is exact string equality |
| RoundTrip.LiteralAt | dom_parser.php:131-142 | a literal held at the cursor, with no line break after its first character, is matched and consumed, the last step also passing a line break that follows |
| RoundTrip.CdataExact | dom_parser.php:109-126 | parse_cdata reads back exactly a text without `"\0"` in which the delimiter first occurs at its end, and stops on the delimiter |
| RoundTrip.EndTagLex | dom_parser.php:232-242 | parse_end_tag reads `</name>`, written in any case, back as the end tag of the lower-case name and consumes all of it |
| RoundTrip.EndTagRoundTrip | dom_parser.php:332-356 | parse_entity reads the text of an end tag back as that end tag, consuming exactly that text |
| RoundTrip.CommentLex | dom_parser.php:247-256 | parse_comment reads `<!--t-->` back as the comment `t`, for a `t` without `"\0"` whose first `-->` is the closing one |
| RoundTrip.CommentRoundTrip | dom_parser.php:332-356 | parse_entity reads the text of such a comment back as that comment (as written, only when the third character of the whole input is not `D`/`d`) |
| RoundTrip.PhpLex | dom_parser.php:261-274 | parse_php reads `<?php t?>` back as the PHP entity `t`, the `php` skipped, for a `t` without `"\0"` whose first `?>` is the closing one |
| RoundTrip.PhpRoundTrip | dom_parser.php:332-356 | parse_entity reads the text of such a PHP entity back as that entity |
| RoundTrip.TextLex | dom_parser.php:95-104 | parse_text reads text without `<`, `"\0"` or line breaks back up to the `<` or end of input after it |
| RoundTrip.TextRoundTrip | dom_parser.php:332-356 | parse_entity reads such text, not opening with white space, back as a text entity bookmarked at its start |
| StartTagRoundTrip.RenderStartTag | dom_entity.php:74-82 | a start tag renders as `<`, its name, each attribute after one space, and `>` |
| StartTagRoundTrip.StoreAllUnique | dom_parser.php:204-212 | attributes with distinct keys, and as written with no valueless name loosely equal to a later key, all pass the duplicate test and are stored in order |
| StartTagRoundTrip.StoreAllCorrected | dom_parser.php:204-212 | with the corrected test, every attribute passes exactly when the keys are distinct |
| StartTagRoundTrip.AttributesLex | dom_parser.php:204-212 | on the text of readable attributes before a `>`, the loop returns what the duplicate-test-and-store bookkeeping keeps and stops on the `>`, or fails with the duplicate error naming the first attribute that bookkeeping rejects |
| StartTagRoundTrip.StartTagLex | dom_parser.php:198-227 | parse_start_tag on the text of a start tag returns that tag with the attributes the bookkeeping keeps, consuming all of it, or fails with the duplicate error the bookkeeping names |
| StartTagRoundTrip.StartTagRoundTrip | dom_parser.php:332-356 | parse_entity reads the text of a start tag with distinct keys (and, as written, no loosely equal valueless names) back as that start tag |
| StartTagRoundTrip.StartTagDuplicates | dom_parser.php:207-209 | corrected, parse_entity accepts the text of a start tag exactly when its keys are distinct, and otherwise fails with a duplicate-attribute error |
| StartTagRoundTrip.NumericNamesClash | dom_parser.php:207-209 | as written, `<a 1 01>` fails with "Attribute '01' already defined" because `"01"` loosely equals `"1"`; corrected, it reads back with both attributes |
| DoctypeRoundTrip.RenderDoctype | dom_entity.php:120-123 | a doctype of tokens renders as `<!DOCTYPE `, the tokens separated by single spaces, and `>` |
| DoctypeRoundTrip.ItemsLex | dom_parser.php:292-319 | the item loop reads single-spaced tokens before a `>` back as those tokens in order and stops on the `>` |
| DoctypeRoundTrip.DoctypeLex | dom_parser.php:279-327 | parse_doctype reads the text of a doctype of tokens back as that doctype, consuming all of it |
| DoctypeRoundTrip.DoctypeRoundTrip | dom_parser.php:332-356 | parse_entity does the same (as written, only when the third character of the whole input is `D`/`d`) |
| Nodes.AddLast | dom_node.php:29-56 | after `add(c)` the count grows by one, the last child is `c`, and the first child is unchanged |
| Nodes.AddSerialization | dom_node.php:29-32 | adding to the root or a with-body element appends the child's text to the body; adding to a leaf or void element leaves the text unchanged |
| Nodes.PrettyIndent | dom_node.php:165-168 | a leaf or element printed at depth `d` starts with exactly `d` tabs followed by its entity text |
| Nodes.RootPrettyPrint | dom_node.php:134-141 | the root prints each child at depth 0 followed by a newline |
| Nodes.PrettyPrintKeepsText | dom_node.php:134-235 | with tabs and newlines removed, the pretty print of any node equals its exact serialisation |
| TreeBuilder.ParseNode | dom_parser.php:364-446 | on return the cursor has not moved back; earlier children are kept as a prefix and every added node is well built; notices are only appended; the stray stack grows by the missing-tag notices and shrinks by the fixed ones; at the root the parse ends on a `"\0"` |
| TreeBuilder.Continue | dom_parser.php:444 | the do-while test: the same guarantees whether the loop stops at eof or goes on |
| TreeBuilder.OnStartTag | dom_parser.php:378-399 | a void tag is appended next as a childless void element, any other tag as a with-body element of that name and those attributes; the same guarantees hold |
| TreeBuilder.OnElement | dom_parser.php:393-397 | the element appended next has the tag's name and attributes and exactly the children the recursive parse below it returns |
| TreeBuilder.OnRawText | dom_parser.php:385-389 | script and style get one raw child, exactly the text parse_cdata reads up to `</name>`, and the cursor ends no earlier than where the following parse_entity, which consumes the closer, leaves it |
| TreeBuilder.OnEndTag | dom_parser.php:403-437 | resolving an end tag keeps the same guarantees |
| TreeBuilder.EndTagOrder | dom_parser.php:405-436 | in the source's order: a match on top of the stray stack pops it, records the fix and goes on in the same parent; the parent's own tag returns with nothing changed; a proper ancestor's tag leaves the cursor at the end tag's bookmark, pushes the parent's tag and records it missing; any other tag is recorded as ignored and parsing goes on in the same parent |
| TreeBuilder.Parse | dom_parser.php:452-468 | a successful parse gives a root whose children are all well built |
| TreeBuilder.DomParse | dom_parser.php:452-468 | `null` exactly when a syntax failure was raised, otherwise a root of well-built nodes |

## Left out

- `warn` and the text of `syntax_exception`: the ANSI colours, caret layout and `get_line` are console output. Warnings are a list of kinds with positions; a failure is a kind with a position.
- `print $e` in `dom_parse` and all of `dom_parse_file`: console and file-system I/O.
- `find`, `getAll`, `findAll` and `foreach` of `dom_node`: they read `$child->name`, a property no node class defines, and `foreach` takes an opaque callable.
- Locale and multibyte behaviour of `ctype_*`, `strtolower` and `stripos`: characters are treated as ASCII.
- Lexer.IsDuplicate: loose comparison is modelled for the numeric strings an identifier can spell (digits, optionally `e`/`E`, `-` and digits), compared exactly as rational numbers; PHP's conversion to floating point, which also equates numbers that differ beyond double precision or overflow to infinity, is not modelled.
- The other loose comparisons (`$c == '<'`, `strtoupper($dt) != 'DOCTYPE'` and the like) always have a non-numeric side, so they are plain string equality.
- Ruby entities are rendered but never produced, since `parse_entity` has no branch for them.
- The commented-out code at dom_parser.php:214-216 and dom_node.php:191-195.
- Parent back-references of nodes: the builder passes the open tag names instead, which is all the ancestor walk reads.
- `pretty_print` on a raw (string) child: PHP has no such method. The model gives it a tabbed rendering, but the builder only ever prints such a child inline.
- Stream.GetPos: `get_pos` is a plain accessor and has no contract.
- TreeBuilder.EndTagOrder: the parent back-reference walk is stated through the open-tag list, not through node identity.
- The `html` field of `dom_entity` is the `__toString` text computed in the constructor; the model keeps only the rendering function.
- RoundTrip.CommentLex, RoundTrip.PhpLex: the text must not open with a line break, because the last step of the opener would step over it.
- RoundTrip.CommentRoundTrip: as written this needs the third character of the whole input not to be `D`/`d` (see Findings); DoctypeRoundTrip.DoctypeRoundTrip needs it to be one.
- RoundTrip.TextRoundTrip: the text holds no line break and does not open with white space, which parse_entity would drop.
- StartTagRoundTrip.StartTagRoundTrip: values must read back as themselves (quoted without line breaks, or unquoted and not opening with a quote), and the keys must be distinct; as written no valueless name may loosely equal a later key.
- DoctypeRoundTrip.DoctypeLex: covers doctypes of tokens only, each non-empty and none after the first opening with `=`; items of the `name=value` form are not read back, since they render through the attribute text.

## Findings

| source | as written | input that shows it | evidently intended | confidence | as-written member | corrected member |
|---|---|---|---|---|---|---|
| dom_stream.php:82, dom_parser.php:340 | `seek($ofs)` returns `input[$ofs]`, an absolute index, although its bound check uses `ofs + k`; `parse_entity` uses `seek(2)` to choose doctype or comment | `<!DOCTYPE html><!-- c -->`: at offset 15 `seek(2)` reads `D`, so the comment goes to `parse_doctype`, which fails with "Expected identifier name" at `-` | the character two places after the cursor decides | high (not executed) | Lexer.SeekMisdispatch | Lexer.LocalDispatch |
| dom_parser.php:207 | `in_array(strtolower($a->name), $attr)` compares the new name with the earlier attribute objects' string forms (`name=value`) | `<a href='x' href='y'>` parses, and the start tag keeps only `href='y'` | a repeated attribute name is a syntax error | high (not executed) | Lexer.DuplicateOverwrites | Lexer.DuplicateRejected |
| dom_parser.php:207 | `in_array` compares loosely, so a new name that is a numeric string equal as a number to an earlier valueless name counts as a repeat | `<a 1 01>` fails with "Attribute '01' already defined" | only a repeated (lower-cased) name is a duplicate | medium (not executed) | StartTagRoundTrip.NumericNamesClash | StartTagRoundTrip.StartTagDuplicates |
