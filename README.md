# Dead-code removal in mockolo's SourceKit parser, modelled in Dafny

This project models the per-file workers that mockolo's `ParserViaSourceKit`
uses to find and remove unused types. The workers are:

- **declaration scan** (`scanDecls`): records every top-level class that may be
  removed, with the class's location and parents;
- **usage scan** (`scanUsedDecls` with `parseContent` and `gatherUsedDecls`):
  lists every type name a file refers to;
- **unused-candidate filter** (`checkUnused`): picks the file's classes that
  are on a list of unused names;
- **production patcher** (`removeUnusedDecls`): blanks an unused declaration
  in place;
- **test-file updater** (`updateTest` with `replace`): decides whether a test
  file is deleted whole or has some of its test classes blanked.

Modules, one per worker, plus the shared data:

| module | file | contents |
|---|---|---|
| `Syntax` | `syntax.dfy` | the node tree, the declaration record `Val`, bytes, and string helpers |
| `Tokenizer` | `tokenizer.dfy` | splitting a text span on whitespace and newlines |
| `DeclScan` | `decl_scan.dfy` | `scanDecls` |
| `UsageScan` | `usage_scan.dfy` | `parseContent`, `gatherUsedDecls`, `scanUsedDecls` |
| `UnusedCheck` | `unused_check.dfy` | `checkUnused` |
| `Patcher` | `patcher.dfy` | `removeUnusedDecls` and `replace`, on an `array<Byte>` changed in place |
| `TestUpdate` | `test_update.dfy` | `updateTest` |

Parameters and outcomes:

- The node tree the syntax service produces is an input.
- These pieces are parameters because their code is not part of this model:
  - the path filter (`shouldParse`);
  - the type-component decomposition `String.typeComponents` (`tc`);
  - UTF-8 decoding (`decode`).
- The `#if USESOURCEKIT` block is the boolean parameter `useSourceKit`.
- A worker returns `None` when the source returns before calling its completion. That happens when the path filter rejects the file, or in `updateTest` when the path is not a test file.

### Quirks the model keeps as written

Three behaviours of the code are modelled as they are and exhibited by lemmas.

1. **The line break before the declaration is blanked too** (`Patcher.RemovalLosesLineBreaks`).
   - `removeUnusedDecls` starts blanking at the last newline *before* the declaration, and that newline is inside the blanked range.
   - So every removal after the first line of a file lowers the file's line count by at least one. The line breaks inside the declaration are lost as well.
   - Filling with spaces keeps the buffer's size and every byte offset outside the range, but not the number of newlines.
2. **`replace` reads its length argument as an end index** (`Patcher.ReplaceIgnoresShortRange`).
   - `updateTest` passes a declaration's offset and length. So the bytes blanked are `[offset, length)`, not `[offset, offset + length)`.
   - A declaration whose length is not larger than its offset is not touched at all.
   - Test declarations are not extended back to the start of their line the way removal is. The model follows the code.
3. **`toDelete` keeps one range per subject name** (`TestUpdate.ToDeleteLastWins`, `TestUpdate.SharedSubjectKeepsOneRange`).
   - Two test classes of one type, such as `FooTests` and `FooTest`, are both counted in `deleteCount`.
   - Only the last one's range is blanked.

## Model

| member | source | states |
|---|---|---|
| Syntax.ContainsIff | Sources/MockoloFramework/Parsers/ParserViaSourceKit.swift:228-230 | `contains` finds a pattern exactly when the pattern occurs somewhere as a contiguous run |
| Syntax.FlatMapMembership | Sources/MockoloFramework/Parsers/ParserViaSourceKit.swift:291 | a name is in `map{…}.flatMap{$0}` exactly when some element produced it |
| Syntax.FlatMapAppend | Sources/MockoloFramework/Parsers/ParserViaSourceKit.swift:291 | flat-mapping a concatenation concatenates the flat-maps |
| Syntax.ParseKind | Sources/MockoloFramework/Parsers/ParserViaSourceKit.swift:552-570 | reading a kind identifier gives a well-formed kind whose identifier is the one read |
| Syntax.ParseKindName | Sources/MockoloFramework/Parsers/ParserViaSourceKit.swift:552-570 | a well-formed kind is read back from its identifier |
| Syntax.KindTestsMatchNames | Sources/MockoloFramework/Parsers/ParserViaSourceKit.swift:552-570 | for a well-formed kind, each variant test holds exactly when the identifier equals the string the source compares against |
| Tokenizer.Components | Sources/MockoloFramework/Parsers/ParserViaSourceKit.swift:540 | splitting on whitespace always gives at least one piece, and no piece holds whitespace |
| Tokenizer.ComponentsCount | Sources/MockoloFramework/Parsers/ParserViaSourceKit.swift:540 | there is always one piece more than there are separator characters |
| Tokenizer.NonEmpty | Sources/MockoloFramework/Parsers/ParserViaSourceKit.swift:540 | the filter keeps exactly the non-empty pieces |
| Tokenizer.Tokens | Sources/MockoloFramework/Parsers/ParserViaSourceKit.swift:540 | every token is non-empty and holds no whitespace |
| Tokenizer.TokensFlatten | Sources/MockoloFramework/Parsers/ParserViaSourceKit.swift:540 | joining the tokens gives the span minus its whitespace, so no character is lost or invented |
| Tokenizer.TokensSplit | Sources/MockoloFramework/Parsers/ParserViaSourceKit.swift:540 | a whitespace character always separates tokens: the tokens of the whole are the tokens left of it followed by those right of it |
| Tokenizer.TokensOfWord | Sources/MockoloFramework/Parsers/ParserViaSourceKit.swift:540 | a non-empty run without whitespace is exactly one token |
| Tokenizer.TokensOfBlank | Sources/MockoloFramework/Parsers/ParserViaSourceKit.swift:540 | a span of only whitespace has no tokens |
| DeclScan.ScanDecls | Sources/MockoloFramework/Parsers/ParserViaSourceKit.swift:218-247 | none when the path is filtered out. Otherwise the map is `Declarations` of the nodes: a name is a key exactly when some top-level class of that name passes the exclusion rules, which are: no `_` prefix, no `Objc` suffix, no `__VARIABLE_`, and no attribute containing `objc`. The record of the last such class wins and holds its path and its parents; `used` is false |
| DeclScan.DeclarationsKeys | Sources/MockoloFramework/Parsers/ParserViaSourceKit.swift:227-237 | a name is a key exactly when some top-level node is an eligible class of that name |
| DeclScan.DeclarationsRecords | Sources/MockoloFramework/Parsers/ParserViaSourceKit.swift:236 | every record carries the scanned file's path and `used == false` |
| DeclScan.DeclarationsLastWins | Sources/MockoloFramework/Parsers/ParserViaSourceKit.swift:236 | a name's record is the one of the last eligible class of that name: its parents, offset and length |
| UsageScan.ParseContent | Sources/MockoloFramework/Parsers/ParserViaSourceKit.swift:534-547 | empty unless `0 < start < end`, and empty when the span does not decode |
| UsageScan.ParseContentMembership | Sources/MockoloFramework/Parsers/ParserViaSourceKit.swift:540-543 | for a decodable span, a name is returned exactly when it is a type component of one of the span's tokens |
| UsageScan.GatherUsedDecls | Sources/MockoloFramework/Parsers/ParserViaSourceKit.swift:550-574 | appends to `results` the contributions of all nested nodes in pre-order: generic parameter names, parameter types, callee names, typed variables, and non-void method types |
| UsageScan.GatherFromAppends | Sources/MockoloFramework/Parsers/ParserViaSourceKit.swift:550-574 | the recursive walk only appends: its output is the input followed by the contributions of all descendants |
| UsageScan.GatheredMembership | Sources/MockoloFramework/Parsers/ParserViaSourceKit.swift:550-574 | a name is gathered exactly when some descendant contributes it |
| UsageScan.AppendSourceKitUsage | Sources/MockoloFramework/Parsers/ParserViaSourceKit.swift:300-311 | the SourceKit block appends, in order: a non-void global's type, a call's callee, a non-void free function's type, then everything gathered below the node |
| UsageScan.AppendDeclaredUsage | Sources/MockoloFramework/Parsers/ParserViaSourceKit.swift:290-294 | a class appends the type components of its inherited types in order, an extension appends its name, anything else appends nothing |
| UsageScan.AppendBodyUsage | Sources/MockoloFramework/Parsers/ParserViaSourceKit.swift:297-298 | appends the type components of the tokens of the text between the end of the node's name and the end of its range |
| UsageScan.AppendNodeUsage | Sources/MockoloFramework/Parsers/ParserViaSourceKit.swift:288-311 | one node appends its inherited type components or extension name, then the components of the text after its name, then (with the flag) its SourceKit usage |
| UsageScan.ScanUsedDecls | Sources/MockoloFramework/Parsers/ParserViaSourceKit.swift:276-321 | none when the path is filtered out; otherwise the concatenation of every top-level node's usage list, in node order |
| UsageScan.FileUsagesMembership | Sources/MockoloFramework/Parsers/ParserViaSourceKit.swift:288-312 | a name is in the file's usage list exactly when some top-level node contributes it |
| UsageScan.ReferencesAreCollected | Sources/MockoloFramework/Parsers/ParserViaSourceKit.swift:290-311 | every reference the scanner is designed to see is in the usage list: inherited types, extension names, tokens after a name, and (with the flag) nested members' types |
| UnusedCheck.CheckUnused | Sources/MockoloFramework/Parsers/ParserViaSourceKit.swift:402-423 | none when the path is filtered out; otherwise the listed names of the file's class nodes, in node order |
| UnusedCheck.UnusedClassesMembership | Sources/MockoloFramework/Parsers/ParserViaSourceKit.swift:411-416 | a name is reported exactly when it is in the list and some top-level class carries it |
| UnusedCheck.UnusedClassesLength | Sources/MockoloFramework/Parsers/ParserViaSourceKit.swift:411-416 | at most one name per top-level node; when every node is a listed class, every node's name in order |
| UnusedCheck.UnusedClassesCongruence | Sources/MockoloFramework/Parsers/ParserViaSourceKit.swift:411-416 | the result depends only on which of the file's class names the list holds |
| UnusedCheck.UnusedClassesIdempotent | Sources/MockoloFramework/Parsers/ParserViaSourceKit.swift:411-416 | filtering again by the reported names reports the same names |
| Patcher.LastIndexOf | Sources/MockoloFramework/Parsers/ParserViaSourceKit.swift:364 | `lastIndex(of:)` gives a position holding the byte with no later one, or none when the byte is absent |
| Patcher.LineStart | Sources/MockoloFramework/Parsers/ParserViaSourceKit.swift:364 | the blanking start is the last newline strictly before the declaration, or the declaration's offset when no newline precedes it |
| Patcher.Fill | Sources/MockoloFramework/Parsers/ParserViaSourceKit.swift:365-367 | filling keeps the size, sets every byte of the range and keeps every other byte |
| Patcher.RemoveUnusedDecls | Sources/MockoloFramework/Parsers/ParserViaSourceKit.swift:350-374 | in place: bytes from the preceding newline to the declaration's end become spaces; every other byte and the size are kept |
| Patcher.RemovalLosesLineBreaks | Sources/MockoloFramework/Parsers/ParserViaSourceKit.swift:364-367 | removal loses exactly the newlines in the blanked range, and strictly lowers the line count when a newline precedes the declaration |
| Patcher.FillCount | Sources/MockoloFramework/Parsers/ParserViaSourceKit.swift:365-367 | a fill removes exactly the occurrences of other bytes that were inside its range |
| Patcher.Replace | Sources/MockoloFramework/Parsers/ParserViaSourceKit.swift:509-517 | in place: a no-op unless `0 < offset < length`; otherwise exactly `[offset, length)` becomes the given byte |
| Patcher.ReplacedBytes | Sources/MockoloFramework/Parsers/ParserViaSourceKit.swift:509-517 | the size is kept; a byte changes exactly when the replacement applies and covers it |
| Patcher.ReplaceIgnoresShortRange | Sources/MockoloFramework/Parsers/ParserViaSourceKit.swift:510-513 | a range whose size does not exceed its offset is never blanked, because the size is used as an end index |
| TestUpdate.SubjectName | Sources/MockoloFramework/Parsers/ParserViaSourceKit.swift:466-471 | drops `Tests` if present, otherwise `Test` if present, otherwise keeps the name |
| TestUpdate.SubjectNameRoundTrip | Sources/MockoloFramework/Parsers/ParserViaSourceKit.swift:466-471 | the subject of `x + "Tests"` and of `x + "Test"` is `x` |
| TestUpdate.SuffixesExclusive | Sources/MockoloFramework/Parsers/ParserViaSourceKit.swift:467-471 | no name ends in both `Tests` and `Test`, so at most one of the two branches can apply |
| TestUpdate.SubjectNameDropsOneSuffix | Sources/MockoloFramework/Parsers/ParserViaSourceKit.swift:467-468 | only one suffix is dropped: a name ending in `Tests` loses exactly those five characters, so `FooTestTests` becomes `FooTest` |
| TestUpdate.UpdateTest | Sources/MockoloFramework/Parsers/ParserViaSourceKit.swift:448-507 | none for a path not ending in `Tests.swift` or `Test.swift`. Otherwise `shouldDelete` holds exactly when `declsInFile == deleteCount`. Under `shouldDelete` the content is unchanged; otherwise exactly the `toDelete` ranges are blanked |
| TestUpdate.BlankAll | Sources/MockoloFramework/Parsers/ParserViaSourceKit.swift:494-498 | whatever order the dictionary is walked in, the result blanks exactly the bytes covered by some applying range and keeps the rest |
| TestUpdate.DeleteCountBound | Sources/MockoloFramework/Parsers/ParserViaSourceKit.swift:464-479 | `deleteCount` never exceeds `declsInFile` |
| TestUpdate.ShouldDeleteIff | Sources/MockoloFramework/Parsers/ParserViaSourceKit.swift:464-492 | the counts agree exactly when every top-level class tests a type that is a key of the unused map |
| TestUpdate.NoClassesMeansDelete | Sources/MockoloFramework/Parsers/ParserViaSourceKit.swift:492 | a test file with no class is reported for deletion |
| TestUpdate.ToDeleteKeys | Sources/MockoloFramework/Parsers/ParserViaSourceKit.swift:474-478 | a subject has a range exactly when some class node tests it and it is unused |
| TestUpdate.ToDeleteLastWins | Sources/MockoloFramework/Parsers/ParserViaSourceKit.swift:477 | the range kept for a subject is that of the last class node testing it |
| TestUpdate.ToDeleteSize | Sources/MockoloFramework/Parsers/ParserViaSourceKit.swift:474-479 | there are never more ranges than counted deletions |
| TestUpdate.SharedSubjectKeepsOneRange | Sources/MockoloFramework/Parsers/ParserViaSourceKit.swift:474-479 | two test classes of one type count twice but leave one range, the second's |

## Left out

- The concurrency wrappers are left out. These are the `dirs:` overloads, the dispatch queue, the semaphore, the `NSLock`, and the barrier. Each worker is modelled for one file, and its completion call becomes the return value.
- `parseProcessedDecls`, `parseDecls` and the `generateASTs` family belong to mock generation, not to dead-code removal.
- `Structure(path:)` and its errors are left out. The node tree is an input. The `catch` paths (`fatalError` or `log`) are therefore not modelled.
- File reads and `URL` are left out. `FileManager` failures end in `fatalError`, which is not modelled either. File content is an input byte sequence; in the patchers it is an array changed in place.
- `print` and `log` are left out.
- Traps are not modelled as outcomes. Ranges that fall outside the buffer would trap in Swift, so the methods instead require their ranges to fit.
- Path filtering (`shouldParse`, `scanPaths`) is not part of this model. The filter is a predicate parameter.
- `String.typeComponents` is not part of this model. It is a function parameter, and no property of it is assumed.
- Decoding UTF-8 with `String(data:encoding:)` is a function parameter. Swift's grapheme-cluster `Character`s are modelled as Unicode scalars.
- Swift compares strings by canonical equivalence in `==`, `hasPrefix`, `hasSuffix`, `contains`, `Array.contains` and `Dictionary` keys. The model compares sequences of Unicode scalars. So two names that differ only in normalisation are distinct in the model, both as `unusedList` / `unusedMap` lookups and as map keys, but equal in Swift.
- Whitespace is the `whitespacesAndNewlines` character set, written out.
- The `.unknownVal` constant is not part of this model. It is taken to be the string `"Unknown"`.
- `SourceKit` kind strings become the `Kind` datatype. It has one variant per kind the scanners compare against, and keeps every other kind string as it is. The scanners' variant tests match the source's string comparisons only for well-formed kinds (`Syntax.WellFormedKind`: `OtherKind` never holds one of the seven known identifiers), which is what `Syntax.ParseKind` produces. A node built directly with such an `OtherKind` would contribute nothing where the source would match it.
- `updateBody` is not modelled. It is never called, because its only call site is commented out.
- `Sources/SwiftMockGenCore/Renderer/Models/ClassModel.swift` and the test fixtures are outside the dead-code removal logic.
- Combining the per-file maps and the unused-set resolution are not part of this model. Writing the patched content back to storage is not modelled either.
