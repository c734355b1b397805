# Raw syntax nodes, the modifier-list parser and byte ranges of swift-syntax, in Dafny

This project models three pieces of swift-syntax as immutable Dafny datatypes and pure functions. It proves what they promise.

- **The raw syntax node algebra** (`Sources/SwiftSyntax/Raw/RawSyntax.swift`). It has modules `Raw` and `RawTrivia`, with `Trivia` for trivia pieces.
  - A raw node is a parsed token, a materialized token or a layout node with optional children.
  - A layout node caches its byte length, its descendant count and a recursive error flag, and the factories compute them.
  - `presence` classifies a node as present or missing.
  - `write` serialises a node source-accurately.
  - `firstToken`/`lastToken` find the outermost tokens under a view mode.
  - `withLeadingTrivia`/`withTrailingTrivia` rebuild only the path to the first or last token.
  - Proved properties:
    - the caches agree with recursive definitions (node count, error search, written length);
    - a token's text partitions into trivia and text;
    - trivia replacement is absent exactly when there is no token;
    - round trips on the written text for the trivia replacements.
- **The modifier-list production** (`Sources/SwiftParser/Modifiers.swift`). It has modules `Parsing`, `Modifiers` and `ModifierScenarios`.
  - `Parsing` is a cursor over a lexed token stream with `eat`, `expect`, `expectAny`, `consume(if:)` and `consumeAnyToken`.
  - `Modifiers` models `parseModifierList` and its helpers as functions from a cursor to a node and a new cursor.
  - Every production moves forward over one stream, and the node it builds writes back exactly the text it moved over.
  - The loop stops only where no modifier starts. `class` is a modifier only when the lookahead allows it.
  - A `(set)` detail synthesizes the tokens it cannot find.
  - The list is absent, and the cursor unmoved, exactly when no modifier starts.
  - `ModifierScenarios` works through concrete token shapes.
- **Byte ranges** (`Sources/SwiftSyntax/Utils.swift`), in module `Utils`.
  - Modelled: `ByteSourceRange`, its overlap tests and `intersected`, the overlap tests `SourceEdit` delegates to `ByteSourceRange`, and `String.utf8Slice`.
  - The overlap tests are related to the bytes the ranges share.

Module `Common` holds `Option` and bytes. Module `Kinds` holds the token kinds, keywords and syntax kinds the core refers to.

Parameters stand for pieces of code that are outside this model:
- the view mode's `shouldTraverse` is a `RawSyntax -> bool`;
- the trivia lexer that splits a parsed token's trivia text into pieces is a `Bytes -> Trivia`, assumed lossless where a text round trip needs it;
- `atStartOfDeclaration`, asked of the cursor after `class`, is a `Parser -> bool`.

## Model

| member | source | states |
|---|---|---|
| Raw.Kind | Sources/SwiftSyntax/Raw/RawSyntax.swift:137-143 | Both token payloads report the kind `token`; a layout reports its stored kind. |
| Raw.Children | Sources/SwiftSyntax/Raw/RawSyntax.swift:174-182 | Tokens have no children. |
| Raw.Child | Sources/SwiftSyntax/Raw/RawSyntax.swift:184-191 | A present child is a strict part of its parent. |
| Raw.ByteLength | Sources/SwiftSyntax/Raw/RawSyntax.swift:232-238 | The byte length stored in the payload: a parsed token's whole text, the cached value otherwise. Raw.WrittenLength shows it is the length of the written text. |
| Raw.Presence | Sources/SwiftSyntax/Raw/RawSyntax.swift:209-227 | Present when there is text, or for a collection, an unknown node, `eof` or a string segment; missing otherwise. Raw.PresentWhenWritten and Raw.EmptyLayoutPresence state its consequences. |
| Raw.HasError | Sources/SwiftSyntax/Raw/RawSyntax.swift:160-171 | A token is in error iff it is missing, and a layout iff its cached flag is set. Raw.HasErrorIffContainsError shows that flag is an independent search of the subtree. |
| Raw.TotalNodes | Sources/SwiftSyntax/Raw/RawSyntax.swift:199-207 | Every node counts at least itself; a token counts exactly one. |
| Raw.TotalNodesCountsSubtree | Sources/SwiftSyntax/Raw/RawSyntax.swift:577-589 | In a well-formed node the cached `totalNodes` equals the number of nodes in the subtree, counted one by one. |
| Raw.ChildrenHaveError | Sources/SwiftSyntax/Raw/RawSyntax.swift:584-588 | The flag gathered over the children is set iff some present child carries it; absent children contribute nothing. |
| Raw.ChildrenByteLengthAppend | Sources/SwiftSyntax/Raw/RawSyntax.swift:584-586 | The byte length summed over children is additive over concatenation. |
| Raw.ChildrenTotalNodesAppend | Sources/SwiftSyntax/Raw/RawSyntax.swift:584-587 | The descendant count summed over children is additive over concatenation. |
| Raw.MakeLayout | Sources/SwiftSyntax/Raw/RawSyntax.swift:567-598 | The layout has the given kind and children; its error flag is set iff the kind is an error kind or some present child has an error. |
| Raw.AccumulateLayout | Sources/SwiftSyntax/Raw/RawSyntax.swift:577-597 | The aggregation loop over the children builds exactly the node `MakeLayout` describes. |
| Raw.MakeLayoutWellFormed | Sources/SwiftSyntax/Raw/RawSyntax.swift:567-598 | A layout of well-formed children of a non-token kind is well formed, writes its children's text, and its byte length is that text's length. |
| Raw.MakeEmptyLayout | Sources/SwiftSyntax/Raw/RawSyntax.swift:600-616 | The empty layout has byte length 0, one node, no children, and an error exactly for `unexpectedNodes` and missing kinds. |
| Raw.EmptyLayoutIsLayoutOfNothing | Sources/SwiftSyntax/Raw/RawSyntax.swift:600-626 | `makeEmptyLayout` agrees with `makeLayout` over no children. |
| Raw.EmptyLayoutPresence | Sources/SwiftSyntax/Raw/RawSyntax.swift:209-227 | An empty layout is present iff its kind is a collection or unknown kind. |
| Raw.ParsedTokenPartition | Sources/SwiftSyntax/Raw/RawSyntax.swift:78-88 | Leading trivia text, token text and trailing trivia text concatenate to the whole text, and the byte length is the whole text's. |
| Raw.MaterializedTokenPartition | Sources/SwiftSyntax/Raw/RawSyntax.swift:90-97 | The leading pieces are the first `numLeadingTrivia` pieces, and the trailing pieces are the rest. |
| Raw.TokenTriviaWithin | Sources/SwiftSyntax/Raw/RawSyntax.swift:388-395 | A token's leading and trailing trivia together fit in its byte length. |
| Raw.MakeParsedToken | Sources/SwiftSyntax/Raw/RawSyntax.swift:439-448 | A parsed token is well formed, writes its whole text, has the whole text's length and the text range as its text. |
| Raw.MakeRawTriviaPieces | Sources/SwiftSyntax/Raw/RawSyntax.swift:413-429 | The buffer holds the leading then the trailing pieces, and the byte length is the sum over both. |
| Raw.MakeMaterializedToken | Sources/SwiftSyntax/Raw/RawSyntax.swift:487-518 | The token keeps both trivia lists, has empty text when missing, its byte length is text plus trivia, and it writes leading trivia, text, trailing trivia. |
| Raw.SpelledText | Sources/SwiftSyntax/Raw/RawSyntax.swift:494-501 | A present token's text comes from its kind: keywords and punctuation get a non-empty spelling, identifiers, literals and string segments keep their own text, and `eof` gets none. |
| Raw.SpellingIgnoresOldText | Sources/SwiftSyntax/Raw/RawSyntax.swift:494-501 | A keyword or punctuation token is spelled the same whatever text it had before, including none. |
| Raw.MakeMissingToken | Sources/SwiftSyntax/Raw/RawSyntax.swift:520-529 | A missing token writes nothing and has length 0; it is missing and in error iff its kind is neither `eof` nor a string segment. |
| Raw.Write | Sources/SwiftSyntax/Raw/RawSyntax.swift:311-327 | A parsed token writes its whole text, a materialized token its leading pieces, text and trailing pieces, and a layout its present children in order. Raw.WrittenLength shows it writes exactly `byteLength` bytes. |
| Raw.WriteChildrenAppend | Sources/SwiftSyntax/Raw/RawSyntax.swift:321-324 | Children write in order: the text of `a + b` is `a`'s text followed by `b`'s. |
| Raw.WrittenLength | Sources/SwiftSyntax/Raw/RawSyntax.swift:311-327 | A well-formed node writes exactly `byteLength` bytes. |
| Raw.PresentWhenWritten | Sources/SwiftSyntax/Raw/RawSyntax.swift:209-227 | A node that writes text is present, and a token that writes text carries no error. |
| Raw.HasErrorIffContainsError | Sources/SwiftSyntax/Raw/RawSyntax.swift:160-171 | The cached error flag is set iff some node of the subtree is a missing token or of an error kind. |
| Raw.NoTokenWritesNothing | Sources/SwiftSyntax/Raw/RawSyntax.swift:311-327 | A subtree without tokens writes no text. |
| Trivia.WriteTriviaLength | Sources/SwiftSyntax/Raw/RawSyntax.swift:420-421 | Written trivia is exactly as long as the sum of its pieces' lengths. |
| Trivia.TriviaByteLengthAppend | Sources/SwiftSyntax/Raw/RawSyntax.swift:420-421 | The trivia byte length is additive over concatenation. |
| RawTrivia.FirstToken | Sources/SwiftSyntax/Raw/RawSyntax.swift:338-352 | The first token found is a token, and well formed when the node is. |
| RawTrivia.LastToken | Sources/SwiftSyntax/Raw/RawSyntax.swift:354-368 | The last token found is a token, and well formed when the node is. |
| RawTrivia.TokenFoundIffVisited | Sources/SwiftSyntax/Raw/RawSyntax.swift:338-368 | Both searches succeed iff some token is reachable through visited nodes. |
| RawTrivia.EverythingVisitsAllTokens | Sources/SwiftSyntax/Raw/RawSyntax.swift:338-368 | Under the view mode that visits everything, a visited token exists iff the subtree contains a token. |
| RawTrivia.FirstTokenSkipsTokenless | Sources/SwiftSyntax/Raw/RawSyntax.swift:344-350 | Children without tokens before the first child with one do not change the first token found. |
| RawTrivia.LastTokenSkipsTokenless | Sources/SwiftSyntax/Raw/RawSyntax.swift:360-366 | Children without tokens after the last child with one do not change the last token found. |
| RawTrivia.LeadingTriviaByteLength | Sources/SwiftSyntax/Raw/RawSyntax.swift:379-381 | The first visited token's leading trivia length, or 0 when there is none. RawTrivia.EdgeTriviaWithin bounds it. |
| RawTrivia.TrailingTriviaByteLength | Sources/SwiftSyntax/Raw/RawSyntax.swift:383-385 | The last visited token's trailing trivia length, or 0 when there is none. RawTrivia.EdgeTriviaWithin bounds it. |
| RawTrivia.EdgeTriviaWithin | Sources/SwiftSyntax/Raw/RawSyntax.swift:379-386 | The outermost leading and trailing trivia together fit in the node's byte length. |
| RawTrivia.ContentByteLength | Sources/SwiftSyntax/Raw/RawSyntax.swift:391-395 | The content length of a well-formed node is never negative, which is the assertion the source makes. |
| RawTrivia.TokenWithLeadingTrivia | Sources/SwiftSyntax/Raw/RawSyntax.swift:250-255 | The rebuilt token keeps the kind and the trailing trivia and takes the new leading trivia. Its text is what the kind spells, so a missing keyword or punctuation token comes back present and without error. It writes trivia, text and trivia in that order. |
| RawTrivia.TokenWithTrailingTrivia | Sources/SwiftSyntax/Raw/RawSyntax.swift:272-277 | The mirror image: the kind and the leading trivia are kept and the trailing trivia is new. The text is the kind's spelling, and a missing keyword or punctuation token comes back present. |
| RawTrivia.WithLeadingTrivia | Sources/SwiftSyntax/Raw/RawSyntax.swift:248-264 | The result is absent iff the subtree has no token; otherwise it is well formed and of the same kind. |
| RawTrivia.WithTrailingTrivia | Sources/SwiftSyntax/Raw/RawSyntax.swift:270-286 | The result is absent iff the subtree has no token; otherwise it is well formed and of the same kind. |
| RawTrivia.ReplaceFirst | Sources/SwiftSyntax/Raw/RawSyntax.swift:257-262 | The loop picks the first child whose replacement exists; no child before it holds a token. |
| RawTrivia.ReplaceLast | Sources/SwiftSyntax/Raw/RawSyntax.swift:279-284 | The reversed loop picks the last child whose replacement exists; no child after it holds a token. |
| RawTrivia.LeadingSlot | Sources/SwiftSyntax/Raw/RawSyntax.swift:256-262 | The rewritten layout is the same kind rebuilt with only the first token-holding slot replaced; every other child is unchanged. |
| RawTrivia.TrailingSlot | Sources/SwiftSyntax/Raw/RawSyntax.swift:278-284 | The rewritten layout replaces only the last token-holding slot. |
| RawTrivia.WithLeadingTriviaText | Sources/SwiftSyntax/Raw/RawSyntax.swift:248-264 | In the old text the first token's text follows its leading trivia. The rewritten tree writes the new trivia, then the first token as its kind spells it, then the old text after that token. |
| RawTrivia.WithLeadingTriviaKeepsText | Sources/SwiftSyntax/Raw/RawSyntax.swift:248-264 | When the first token already has its kind's spelling, the rewritten tree writes the new trivia followed by the old text without its first token's leading trivia. |
| RawTrivia.WithTrailingTriviaText | Sources/SwiftSyntax/Raw/RawSyntax.swift:270-286 | In the old text the last token's text comes right before its trailing trivia. The rewritten tree writes the old text up to that token, then the token as its kind spells it, then the new trivia. |
| RawTrivia.WithTrailingTriviaKeepsText | Sources/SwiftSyntax/Raw/RawSyntax.swift:270-286 | When the last token already has its kind's spelling, the rewritten tree writes the old text without its last token's trailing trivia, followed by the new trivia. |
| RawTrivia.MissingParenIsSpelledOut | Sources/SwiftSyntax/Raw/RawSyntax.swift:248-255 | A missing `)` writes nothing and is in error. Given new leading trivia, it writes `)` and is no longer in error. |
| Utils.EmptyIffNoByte | Sources/SwiftSyntax/Utils.swift:26-28 | A range of non-negative length is empty iff it contains no byte. |
| Utils.OverlapTestsSymmetric | Sources/SwiftSyntax/Utils.swift:30-38 | Both overlap tests are symmetric, and strict overlap implies touching. |
| Utils.AdjacentRangesTouch | Sources/SwiftSyntax/Utils.swift:30-38 | A range ending where the next begins touches it but does not intersect it. |
| Utils.IntersectsIffSharedByte | Sources/SwiftSyntax/Utils.swift:35-38 | Non-empty ranges intersect iff some byte lies in both. |
| Utils.TouchesIffSharedPoint | Sources/SwiftSyntax/Utils.swift:30-33 | Non-negative ranges touch iff their closed intervals share a point. |
| Utils.ByteSourceRange.Intersected | Sources/SwiftSyntax/Utils.swift:41-49 | The result never has a negative length. Without overlap it is the empty range at offset 0; otherwise it lies within both ranges. |
| Utils.IntersectedContents | Sources/SwiftSyntax/Utils.swift:41-49 | A byte is in the intersection iff it is in both ranges, for any inputs. |
| Utils.IntersectedCommutes | Sources/SwiftSyntax/Utils.swift:41-49 | `intersected` is commutative. |
| Utils.IntersectedOfTouching | Sources/SwiftSyntax/Utils.swift:41-49 | For touching ranges the result runs from the later start to the earlier end, and it is empty iff the ranges do not strictly overlap or one is empty. |
| Utils.EditOverlapsIffSharedByte | Sources/SwiftSyntax/Utils.swift:63-69 | An edit overlaps a range iff its range shares a byte with it, and overlapping implies touching. |
| Utils.Utf8Slice | Sources/SwiftSyntax/Utils.swift:87-95 | The slice has `length` bytes, the bytes from `offset` on; an empty slice needs no valid offset. |
| Utils.Utf8SliceConcat | Sources/SwiftSyntax/Utils.swift:87-95 | Slices of two adjacent ranges concatenate to the slice of their union. |
| Utils.SliceOfIntersectionIsDefined | Sources/SwiftSyntax/Utils.swift:41-49 | Intersecting any range with the whole buffer gives a range that `utf8Slice` accepts. |
| Parsing.Eat | Sources/SwiftParser/Modifiers.swift:32 | Eating moves one token on and hands out a parsed token that writes exactly the lexeme's text and carries no error. |
| Parsing.ConsumeAnyToken | Sources/SwiftParser/Modifiers.swift:100 | Any token is taken; the cursor moves unless it is at the end, and the token writes exactly what was moved over. |
| Parsing.Expect | Sources/SwiftParser/Modifiers.swift:99-101 | The expected token is eaten when present; otherwise a missing token of that kind is synthesized without moving, in error unless it is `eof` or a string segment. |
| Parsing.ExpectAny | Sources/SwiftParser/Modifiers.swift:153-156 | A token of any of the kinds is eaten; otherwise a missing token of the default kind is synthesized without moving. |
| Parsing.ConsumeIf | Sources/SwiftParser/Modifiers.swift:167-169 | A token is returned iff the cursor is at the kind; otherwise nothing is returned and the cursor is unchanged. |
| Parsing.ConsumedChain | Sources/SwiftParser/Modifiers.swift:98-110 | The text two successive moves consume is the text the combined move consumes. |
| Modifiers.Classify | Sources/SwiftParser/Modifiers.swift:21-91 | The branch the loop's switch takes for each token kind, with `rethrows` and every other kind falling through to the stop. Modifiers.ClassifyMatchesTables relates it to the keyword tables. |
| Modifiers.ClassifyMatchesTables | Sources/SwiftParser/Modifiers.swift:21-91 | The loop's switch selects a modifier branch iff the keyword is a declaration modifier other than `rethrows`, the plain branch iff it is in the no-detail set, and the access branch iff it is an access level. |
| Modifiers.ClassifyInverse | Sources/SwiftParser/Modifiers.swift:21-91 | Every branch but the plain one is selected by a single keyword or by the access-level set. |
| Modifiers.DispatchesIffStartsModifier | Sources/SwiftParser/Modifiers.swift:40-59 | The switch with its `class` lookahead selects a branch iff, by the keyword tables, a modifier starts there. |
| Modifiers.DeclModifierNode | Sources/SwiftParser/Modifiers.swift:122-127 | A modifier node is well formed, holds its name and detail, writes the name then the detail, and is in error iff one of them is. |
| Modifiers.DetailNode | Sources/SwiftParser/Modifiers.swift:102-109 | A detail node holds `(`, the detail token and `)`, writes them in order, and is in error iff one of them is. |
| Modifiers.ParseModifierDetail | Sources/SwiftParser/Modifiers.swift:98-110 | The detail moves forward over the stream and writes back exactly the text it moved over. |
| Modifiers.ModifierDetailContents | Sources/SwiftParser/Modifiers.swift:98-110 | After `(` the detail holds whatever single token came next; it is in error iff a parenthesis was synthesized. |
| Modifiers.ParseUnownedModifier | Sources/SwiftParser/Modifiers.swift:112-128 | `unowned` gets a detail iff the next token is `(`; without one it consumes just the keyword; it is in error iff the keyword or the detail is. |
| Modifiers.ParseAccessModifierDetails | Sources/SwiftParser/Modifiers.swift:166-193 | Nothing, and no move, iff the current token is not `(`; otherwise a detail node that writes back exactly what it consumed. |
| Modifiers.AccessDetailsSetToken | Sources/SwiftParser/Modifiers.swift:171-193 | The detail token is `set`, eaten when present and synthesized as missing otherwise; the detail is in error iff `set` or `)` was synthesized. |
| Modifiers.ParseAccessLevelModifier | Sources/SwiftParser/Modifiers.swift:152-164 | The name is the access keyword eaten, or a missing `internal`; a detail is present iff `(` follows; it is in error iff the name is missing or the detail is in error. |
| Modifiers.ParseKeywordAccessModifier | Sources/SwiftParser/Modifiers.swift:130-150 | The same for `package` and `open`, with the keyword expected. |
| Modifiers.AccessLevelSharesDetails | Sources/SwiftParser/Modifiers.swift:152-164 | An access-level modifier's detail and end position are those of the shared detail sub-grammar run right after the keyword. |
| Modifiers.KeywordAccessSharesDetails | Sources/SwiftParser/Modifiers.swift:130-150 | `package` and `open` use that same sub-grammar right after the keyword. |
| Modifiers.ParseBareModifier | Sources/SwiftParser/Modifiers.swift:31-39 | A keyword-only modifier consumes exactly its keyword, names it, has no detail and no error. |
| Modifiers.ParseDetailedModifier | Sources/SwiftParser/Modifiers.swift:22-30 | The access, `package`, `open` and `unowned` branches each name the keyword the loop dispatched on and move past it. |
| Modifiers.ModifierStep | Sources/SwiftParser/Modifiers.swift:21-91 | An iteration yields a modifier iff the switch selects a branch, and it then moves the cursor forward. |
| Modifiers.StepWritesConsumed | Sources/SwiftParser/Modifiers.swift:21-91 | The modifier an iteration parses writes back exactly the text it moved over. |
| Modifiers.StepNamesItsKeyword | Sources/SwiftParser/Modifiers.swift:31-86 | The modifier is named by the current keyword; for `static`, an accepted `class` and the no-detail set, exactly one token is consumed and there is no detail. |
| Modifiers.ModifierLoop | Sources/SwiftParser/Modifiers.swift:17-92 | The loop moves forward over the stream and gathers no modifier iff it does not move. |
| Modifiers.ModifierLoopStopsAtNonModifier | Sources/SwiftParser/Modifiers.swift:19-91 | The loop stops only where the switch selects no branch, so the progress guard never ends it; it finds nothing iff no modifier starts at the first position. |
| Modifiers.ModifierLoopWritesConsumed | Sources/SwiftParser/Modifiers.swift:17-93 | The gathered modifiers write back exactly the text the loop moved over. |
| Modifiers.ModifierLoopParsesModifiers | Sources/SwiftParser/Modifiers.swift:18-86 | Everything the loop gathers is a `DeclModifier` node. |
| Modifiers.ModifierListNode | Sources/SwiftParser/Modifiers.swift:93 | The list node holds the modifiers in order, writes their texts in order, and is in error iff one of them is. |
| Modifiers.ParseModifierList | Sources/SwiftParser/Modifiers.swift:17-94 | The result is absent, with the cursor unmoved, iff no modifier starts; the cursor always ends where no modifier starts; the list writes back exactly what was consumed. |
| Modifiers.ModifierListElements | Sources/SwiftParser/Modifiers.swift:93 | A returned list is never empty, moved the cursor, and holds only modifier nodes. |
| ModifierScenarios.SingleModifierList | Sources/SwiftParser/Modifiers.swift:17-94 | One modifier followed by a position where none starts gives the list of that modifier alone, stopping after it. |
| ModifierScenarios.TwoModifierLoop | Sources/SwiftParser/Modifiers.swift:20-92 | Two modifiers in a row followed by a stop are gathered in order. |
| ModifierScenarios.SetDetailConsumed | Sources/SwiftParser/Modifiers.swift:166-193 | `( set )` is a complete detail: three tokens consumed, no error. |
| ModifierScenarios.PublicSetModifier | Sources/SwiftParser/Modifiers.swift:152-164 | `public(set)` is one complete, error-free modifier over four tokens. |
| ModifierScenarios.TrailingClassStops | Sources/SwiftParser/Modifiers.swift:40-59 | `class` at the end of the stream with no declaration after it stops the loop without consuming it. |
| ModifierScenarios.PublicSetStopsBeforeClass | Sources/SwiftParser/Modifiers.swift:40-59 | `public(set) class` with no declaration after `class` gives the one modifier `public(set)` and leaves `class` unconsumed. |
| ModifierScenarios.FuncStartsNoList | Sources/SwiftParser/Modifiers.swift:89-93 | At `func` there is no list and the cursor does not move. |
| ModifierScenarios.RethrowsStartsNoList | Sources/SwiftParser/Modifiers.swift:87-90 | At `rethrows` there is no list and the cursor stays on it. |
| ModifierScenarios.PrivateOpenParenIncomplete | Sources/SwiftParser/Modifiers.swift:166-193 | `private(` at the end of the stream synthesizes a missing `set` and `)`, so the modifier is in error; both tokens are consumed. |
| ModifierScenarios.ClassBeforeOverride | Sources/SwiftParser/Modifiers.swift:40-56 | `class` followed by `override` is a keyword-only modifier. |
| ModifierScenarios.ClassOverrideFunc | Sources/SwiftParser/Modifiers.swift:40-86 | `class override func` gives the list of `class` and `override`, stopping before `func`. |
| ModifierScenarios.ModifierListStopsForGood | Sources/SwiftParser/Modifiers.swift:17-94 | Parsing a list again where the list stopped finds nothing and does not move. |

## Left out

- The arena: interning, buffer allocation, child liveness, unsafe pointers and `toOpaque`/`fromOpaque`. Nodes are immutable values.
- `validateLayout`, which is generated per kind and is not part of this model. `MakeLayout` accepts any children.
- `TokenKind.decomposeToRaw`, `defaultText` and the token view's `formKind` are not part of this model. `MakeMaterializedToken` takes the token text as an argument.
  - Raw.SpelledText gives the text `withLeadingTrivia` and `withTrailingTrivia` pass for it. A keyword gets its spelling, punctuation its fixed text, an identifier, literal or string segment its old text, and `eof` nothing.
  - `formKind` is taken to give back a missing keyword's own keyword.
- The syntax-kind classification tables are generated code that is not part of this model. `Kinds` keeps the few kinds the core names; `unexpectedNodes` and the modifier list are collections.
- `SyntaxTreeViewMode.shouldTraverse` is the parameter `visit`.
- The lexer that re-forms a parsed token's trivia into pieces is the parameter `lex`. The text round trips assume it is lossless.
- Raw.MakeMaterializedToken, Raw.MakeRawTriviaPieces: byte lengths and `numLeadingTrivia` are unbounded naturals. The `UInt32` fields and `numericCast` traps are not modelled.
- Utils: offsets and lengths are unbounded integers, so `Int` overflow in `endOffset` is not modelled.
- Utils.Utf8Slice: its `requires` stands for the source's trap. `utf8.index(_:offsetBy:)` outside the string stops the program, so the model promises nothing for a non-empty slice out of range.
- Debug output (`debugWrite`, `debugDescription`) and `customMirror` produce text for humans and have nothing to verify.
- `fromBuffer`, `isNativeUTF8` and `makeNativeUTF8IfNeeded` depend on String storage internals. `utf8Slice` works on a byte sequence.
- The parser's cursor, lexer and recovery are not part of this model. `Parsing` gives a minimal cursor over lexed tokens. Past the last lexeme the cursor reads `eof`.
- Parsing.Eat, Parsing.ConsumeAnyToken, Parsing.ConsumeIf: `ValidLexeme` assumes that the lexer gives only `eof` and string-segment lexemes empty token text. That assumption is why every token they hand out is free of error, and the error-free conclusions of the scenarios rest on it. The lexer is not part of this model.
- Parsing.ConsumeAnyToken: at the end of the stream it hands out an empty `eof` token without moving. The real parser's `eof` token carries the trailing text of the file.
- Unexpected-token recovery is not modelled. `expect` either eats the expected token or synthesizes a missing one; it never skips tokens into unexpected nodes. So the unexpected-token slots of `DeclModifier` and `DeclModifierDetail` would always be empty, and the layouts leave them out.
- Modifiers.ParseAccessModifierDetails: `canRecoverTo(.keyword(.set))` is modelled as "the current token is `set`". The missing `set` token is synthesized with empty text, as `makeMissingToken` does, rather than with the text "set".
- `atStartOfDeclaration` is the parameter `startsDecl`.
- Contextual keywords are matched by token kind only.
- `LoopProgressCondition` is not part of this model. It is modelled as a guard that passes on the first check and later only if the cursor moved; its debug assertion is not modelled. The loop always moves, so the guard never stops it (`Modifiers.ModifierLoopStopsAtNonModifier`).
- Package.swift is a build manifest with nothing to verify.
