# auto-translate-i18n, modelled in Dafny

auto-i18n is a command-line tool for React projects. It finds static JSX text and translatable attribute strings, gives each a deterministic key, and writes a base locale table (`extract`). It then asks a translation service for the other languages, with a per-text cache (`translate`). Finally it rewrites the components to call `t('<key>')`, adding the `useTranslation` import and hook (`inject`).

This project models the pure core of that pipeline and proves the properties its code promises.

- **Key generator** (`KeyGenerator`, with `Text` for `trim` and ASCII case mapping, and `PathName` for `path.basename(p, path.extname(p))`). Keys are `scope + "_" + label`. The label is the cleaned text: ASCII letters, digits and spaces only, trimmed, cut to 30 characters, then put into PascalCase.
- **Source tree** (`Ast`). One immutable JSX/module datatype. "Descendants of kind" is the pre-order walk `Visits`, which summarises each JSX text run, JSX attribute and call expression it meets.
- **Extractor** (`Extractor`). For each file, all valid trimmed text runs come first, then every allowlisted attribute whose initializer is a string literal with a valid untrimmed value. Each record is keyed under the file's scope.
- **Injector** (`Injector`, `ImportsAndHooks`). A text pass, then an attribute pass, replace each candidate by `{t('<key>')}`. The dirty flag holds when either pass replaced something. When it holds, the `react-i18next` import is added or merged, and `const { t } = useTranslation();` goes at the start of the chosen component unless the file already calls `useTranslation`.
- **Extractor/injector agreement** (`Consistency`). The two copies of the candidate filter agree. The injector writes exactly the keys the extractor records, saves exactly the files the extractor finds something in, and leaves nothing for either to find.
- **Cache** (`CacheService`). A flat table addressed by `lang + "." + text`.
- **Translation service** (`AiService`). It splits the source table into cache hits and misses and sends only the misses. It then folds the reply into the results and into the cache.
- **Command decisions** (`Cli`, with `Tables` for last-write-wins folds):
  - the base table built from the extracted records;
  - the languages to process;
  - the API-key precedence;
  - the per-language loop, where one failure does not stop the others.

Where the design description and the code differ, the model follows the code:
- The `{...}` test of `isValidText` looks at the string as given, not trimmed. Attribute values are filtered and stored untrimmed.
- Finding no component produces no warning. The import is still repaired.
- The filter is written twice, once in the extractor and once in the injector, as the code has it. `Consistency.FiltersAgree` proves the two copies are the same test.

Some JavaScript behaviour is modelled explicitly:
- **Truthiness.** An empty string is falsy, both in the option and key precedence and in the cache-hit test.
- **Unrequested reply keys.** A reply key that was not requested reads `toTranslate[key]` as `undefined`. The template string turns that into the text `"undefined"`, so its translation is cached under `<lang>.undefined`.
- **Composite keys.** A composite key always contains a `.`, so it never names an inherited object property.
- **Entry lists.** `Object.entries` never yields a key twice, which is the `DistinctKeys` precondition.

## Model

| member | source | states |
|---|---|---|
| KeyGenerator.GenerateSpec | src/core/key-generator.ts:2-5 | `generate` is total: the key is the scope, `_`, then a label of at most 30 ASCII letters and digits |
| KeyGenerator.EmptyTextKey | src/core/key-generator.ts:2-5 | empty text still yields a key, the bare `scope + "_"` |
| KeyGenerator.LabelSpec | src/core/key-generator.ts:7-22 | the label is the character-wise PascalCase of the cleaned, truncated text; it is at most 30 characters, all ASCII alphanumeric |
| KeyGenerator.Clean | src/core/key-generator.ts:9 | the cleaned text holds only ASCII letters, digits and spaces, with no leading or trailing space |
| KeyGenerator.StripSpecial | src/core/key-generator.ts:9 | the result holds only key characters, is no longer than the input, and a string of key characters is unchanged |
| KeyGenerator.StripSpecialSingle | src/core/key-generator.ts:9 | one character is kept when it is a key character and deleted otherwise |
| KeyGenerator.StripSpecialAppend | src/core/key-generator.ts:9 | the deletion works character by character, so it distributes over concatenation |
| KeyGenerator.Truncate | src/core/key-generator.ts:12-14 | the result is a prefix of at most 30 characters, and equals the input when that is short enough |
| KeyGenerator.SplitOnSpace | src/core/key-generator.ts:19 | `split(' ')` yields at least one piece, none containing a space, and joining the pieces with spaces gives back the input |
| KeyGenerator.SplitJoin | src/core/key-generator.ts:19 | the other direction: splitting a space-joined list of space-free words gives back the words |
| KeyGenerator.CapitalizeWord | src/core/key-generator.ts:20 | a word keeps its length; its first character is upper-cased and every later one lower-cased |
| KeyGenerator.CapitalizeSplitIsPascalCase | src/core/key-generator.ts:18-21 | split, capitalise each word, join with nothing equals the character-wise reference: upper-case after a space or at the start, lower-case elsewhere, drop spaces |
| KeyGenerator.PascalCase | src/core/key-generator.ts:18-21 | the reference never emits a space, never lengthens the text, and keeps key characters alphanumeric |
| KeyGenerator.SameKeyCharsSameKey | src/core/key-generator.ts:9 | texts that differ only in deleted characters get the same key; punctuation makes no word boundary |
| Examples.StartCourseExample | src/core/key-generator.ts:17 | `"Start Course!"` in scope `App` gives `App_StartCourse` |
| Text.Trim | src/core/extractor.ts:32 | the result has no whitespace at either end, is empty iff the input is all whitespace, and is the input when neither end is whitespace |
| Text.TrimIsSlice | src/core/extractor.ts:32 | the result is a slice of the input, and everything dropped before and after it is whitespace |
| Text.TrimIdempotent | src/core/extractor.ts:32 | trimming twice is trimming once |
| PathName.Scope | src/core/extractor.ts:28 | the scope followed by the extension is the base name, and the scope contains no `/` |
| PathName.ScopeOfSourcePath | src/core/extractor.ts:28 | for `<dir>/<name>.<ext>` with no `/` in the name, a name other than `.` (dots allowed, as in `Button.stories`) and no `.` or `/` in the extension: the base name is `<name>.<ext>`, the extension is `.<ext>` and the scope is `<name>` |
| PathName.ExtName | src/core/extractor.ts:28 | the extension is empty exactly when the base name has no `.` after its first character or is `..`; otherwise it is the suffix from the last `.` on, shorter than the base name |
| Extractor.IsValidTextAsWritten | src/core/extractor.ts:68-74 | the filter rejects exactly empty or whitespace-only text and text that starts with `{` and ends with `}` |
| Extractor.TextRecordsComplete | src/core/extractor.ts:31-41 | every text run that is valid once trimmed has a record with the trimmed value |
| Extractor.TextRecordsSound | src/core/extractor.ts:31-41 | every text record comes from a text run that is valid once trimmed |
| Extractor.AttributeRecordsComplete | src/core/extractor.ts:44-62 | every allowlisted string-literal attribute with a valid raw value has a record with that untrimmed value |
| Extractor.AttributeRecordsSound | src/core/extractor.ts:44-62 | every attribute record comes from such an attribute |
| Extractor.ExtractFileCount | src/core/extractor.ts:26-63 | a file yields one record per valid text run plus one per translatable attribute |
| Extractor.ExtractFileLayout | src/core/extractor.ts:26-63 | within a file, the text-run records fill exactly the first places and the attribute records follow |
| Extractor.ExtractFileSound | src/core/extractor.ts:28-59 | every record of a file carries its path, a valid value, and `generate(scope of the path, value)` as key |
| Extractor.ExtractSound | src/core/extractor.ts:23-66 | every record of a run comes from an input file and carries that file's key for its value |
| Extractor.ExtractAppend | src/core/extractor.ts:26 | files are processed independently and in input order |
| Extractor.TextRecordsAppend | src/core/extractor.ts:31 | text records follow walk order |
| Extractor.AttributeRecordsAppend | src/core/extractor.ts:44 | attribute records follow walk order |
| Consistency.FiltersAgree | src/core/injector.ts:58-62 | the injector's `isValidText` accepts exactly what the extractor's does |
| Consistency.AttributeTestsAgree | src/core/injector.ts:37-42 | the injector's attribute test is the extractor's |
| Consistency.TextKeysAgree | src/core/injector.ts:24-31 | the text pass replaces exactly the runs the extractor records, in order and with the same keys |
| Consistency.AttributeKeysAgree | src/core/injector.ts:35-46 | the attribute pass replaces exactly the attributes the extractor records, in order and with the same keys |
| Consistency.InjectedKeysAreExtractedKeys | src/core/injector.ts:16-49 | the keys the two passes write into a file, in order, are the keys the extractor records for it |
| Consistency.SavedIffExtracted | src/core/injector.ts:20-54 | a file is repaired and saved exactly when the extractor finds something in it |
| Consistency.NothingLeftToExtract | src/core/injector.ts:16-54 | after injection the extractor finds nothing in the file |
| Consistency.InjectedTranslationCalls | src/core/injector.ts:16-54 | the injected file's `t` calls are the old ones plus one per extracted record, with that record's key |
| Injector.TranslationCallVisits | src/core/injector.ts:29 | the replacement `{t('<key>')}` is met by the walk as one `t` call with the key |
| Ast.TextRuns | src/core/extractor.ts:31 | the JSX text runs number at most the walk's visits, and each is the text of a text visit of the walk |
| Ast.Attributes | src/core/extractor.ts:44 | the JSX attributes number at most the walk's visits, and each is met by the walk as an attribute visit |
| Ast.VisitsOfAppend | src/core/extractor.ts:31 | the walk of a node list is the walks of its parts, in order |
| Ast.VisitsOfUpdate | src/core/injector.ts:24-35 | replacing one node of a list changes the walk only at that node's place |
| Ast.TextRunsAppend | src/core/extractor.ts:31 | the text runs of two walks are those of the first, then those of the second |
| Ast.AttributesAppend | src/core/extractor.ts:44 | the attributes of two walks are those of the first, then those of the second |
| Ast.TextRunsMembers | src/core/injector.ts:24 | a text is among the JSX text runs exactly when the walk meets a text node with it |
| Ast.AttributesMembers | src/core/injector.ts:35 | an attribute is among the JSX attributes exactly when the walk meets it |
| Injector.RewriteVisits | src/core/injector.ts:24-49 | the walk of a rewritten tree is the old walk with each candidate of the pass replaced by its edit |
| Injector.RewriteUnchanged | src/core/injector.ts:24-49 | a pass that meets no candidate leaves the tree exactly as it was |
| Injector.EditLeavesNoCandidates | src/core/injector.ts:24-49 | after a pass, no candidate of its kind remains |
| Injector.AttributeEditKeepsTextCandidates | src/core/injector.ts:35-49 | the attribute pass leaves the text candidates as they were |
| Injector.TextEditKeepsAttributeCandidates | src/core/injector.ts:24-32 | the text pass leaves the attribute candidates as they were |
| Injector.EditAddsTranslationCalls | src/core/injector.ts:29 | a pass adds one `t` call per candidate, carrying its key, and keeps the existing ones |
| Injector.InjectFile | src/core/injector.ts:17-54 | the imports change only in a saved file |
| Injector.InjectFileUnsaved | src/core/injector.ts:51-54 | a file that is not saved is not changed |
| Injector.RewriteKeepsComponentTests | src/core/injector.ts:94-104 | a pass changes neither whether a node is a function, an exported function nor an exported arrow-initialised variable statement |
| Injector.ChooseComponentRewrite | src/core/injector.ts:17-110 | the component chosen after both passes is the one the file as written gives |
| Injector.EditKeepsHookCalls | src/core/injector.ts:88-90 | a pass neither adds nor removes a `useTranslation` call |
| Injector.InjectFileHookPlacement | src/core/injector.ts:17-110 | every statement is the passes' rewrite of the original, except the component chosen in the original file, which gains the hook exactly when something was replaced and the file had no `useTranslation` call |
| Injector.InjectFileVisits | src/core/injector.ts:17-54 | the injected file's walk is both passes' edits, with at most one hook call inserted |
| Injector.InjectFileLeavesNoCandidates | src/core/injector.ts:16-54 | no text or attribute candidate survives one run |
| Injector.InjectFileIdempotent | src/core/injector.ts:16-54 | a second run changes nothing and saves nothing |
| Injector.InjectFileTranslationCalls | src/core/injector.ts:16-54 | one run adds exactly one `t` call per replacement of either pass |
| Injector.HookKeepsCandidates | src/core/injector.ts:96 | inserting the hook call changes neither pass's candidates |
| Injector.HookKeepsTranslationKeys | src/core/injector.ts:96 | inserting the hook call adds no `t` key |
| Injector.Inject | src/core/injector.ts:16-56 | every file is injected on its own, in order |
| ImportsAndHooks.AddHookImportSpec | src/core/injector.ts:66-80 | with no `react-i18next` import, exactly one is appended naming `useTranslation`; otherwise no declaration is added, the others are kept, and the first one named gains `useTranslation` only if missing |
| ImportsAndHooks.AddHookImportIdempotent | src/core/injector.ts:66-80 | repairing the imports twice is repairing them once |
| ImportsAndHooks.FirstIndex | src/core/injector.ts:94 | `find` returns the first element satisfying the test, or none when no element does |
| ImportsAndHooks.FirstIndexAgree | src/core/injector.ts:94 | `find` gives the same answer on two lists whose elements agree on the test |
| ImportsAndHooks.ChooseComponent | src/core/injector.ts:94-110 | priority: first exported or default-exported function, else first function, else first exported arrow-initialised variable statement, else none |
| ImportsAndHooks.WithHook | src/core/injector.ts:96-105 | the hook statement becomes the first statement of the function's or arrow's body; name, flags, binding, parameters and other declarators are kept |
| ImportsAndHooks.WithHookVisits | src/core/injector.ts:96-105 | the hooked component's walk is the old one with the hook call put in after everything met in the parameters |
| ImportsAndHooks.InsertHook | src/core/injector.ts:94-110 | only the chosen component's statement changes |
| ImportsAndHooks.InsertHookVisits | src/core/injector.ts:94-110 | the walk gains exactly one hook call, where the component's body starts: after the statements before it and the component's parameters |
| ImportsAndHooks.AddImportsAndHooks | src/core/injector.ts:64-112 | the imports are always repaired; statements are untouched when a hook call exists or no component is found; otherwise only the chosen component's statement changes, and it gains the hook |
| ImportsAndHooks.AddImportsAndHooksVisits | src/core/injector.ts:88-110 | without an existing hook call, the walk gains exactly one hook call, placed where the chosen component's body starts; afterwards the file calls the hook iff it did or a component was found |
| ImportsAndHooks.AddImportsAndHooksIdempotent | src/core/injector.ts:64-112 | repairing a repaired file changes nothing |
| Tables.StoreDomain | src/index.ts:40-42 | the keys after `obj[k] = v` assignments are the old keys and the assigned ones |
| Tables.StoreLast | src/index.ts:40-42 | the last assignment to a key wins |
| Tables.StoreUntouched | src/services/ai-service.ts:62-65 | a key no assignment writes keeps its presence and value |
| Cli.BaseTableKeys | src/index.ts:39-42 | the base table's keys are exactly the records' keys |
| Cli.BaseTableLastWins | src/index.ts:39-42 | of records sharing a key, the last one's value is kept |
| ServiceExamples.BaseTableDuplicateKey | src/index.ts:39-42 | two records with one key leave the later value |
| Cli.SelectLanguages | src/index.ts:64-69 | a truthy `-l` gives exactly `[lang]`, otherwise the configured languages; nothing, which ends the command, iff neither names a language |
| ServiceExamples.LanguageOptionWins | src/index.ts:64-69 | `-l de` wins; `-l ""` falls back to the configuration; neither source ends the command |
| Cli.FirstTruthy | src/index.ts:70 | an `||` chain yields the first truthy candidate, and nothing iff none is truthy |
| Cli.ApiKeyPrecedence | src/index.ts:70-84 | the key is the first truthy of option, environment, configuration, shared key |
| Cli.TranslateCommand | src/index.ts:62-107 | with no language, no key or no source file nothing is translated and the cache is untouched; otherwise each selected language, in order, gets an outcome whether or not earlier ones failed |
| CacheService.LoadedLookups | src/services/cache-service.ts:18-35 | after loading, a lookup finds exactly what the file held under the composite key, and nothing when there was no readable file |
| CacheService.EmptyLoadMisses | src/services/cache-service.ts:18-35 | every lookup on such a table misses |
| CacheService.CompositeKey | src/services/cache-service.ts:34 | the composite key is the language, a `.`, then the text |
| CacheService.Set | src/services/cache-service.ts:37-40 | `get` after `set` returns the value; every other composite key keeps its presence and value; exactly one key may be added |
| CacheService.SetKeepsOthers | src/services/cache-service.ts:37-40 | writing one pair leaves every other pair's lookup as it was |
| CacheService.HasIffGet | src/services/cache-service.ts:33-44 | `has` holds exactly when `get` finds an entry |
| CacheService.CompositeKeySeparates | src/services/cache-service.ts:34 | within one language distinct texts, and for one text distinct languages, never share an entry |
| CacheService.CompositeKeysAlias | src/services/cache-service.ts:34-43 | language `a.b` with text `c` and language `a` with text `b.c` address the same entry |
| AiService.Partition | src/services/ai-service.ts:18-29 | every key lands in exactly one of hits (with the cached value) or misses (with its text), and nothing else is added |
| AiService.SplitDisjoint | src/services/ai-service.ts:18-29 | no key is both a hit and a miss |
| ServiceExamples.EmptyTranslationIsMiss | src/services/ai-service.ts:24 | a cached empty translation is a miss |
| ServiceExamples.EqualTextsShareHit | src/services/ai-service.ts:23 | two keys with the same text share one cached translation |
| AiService.SourceText | src/services/ai-service.ts:64 | a requested key reads its own text |
| ServiceExamples.UnrequestedReplyCachedAsUndefined | src/services/ai-service.ts:64 | a reply key never requested is cached under the text `undefined` |
| AiService.MergeIsStores | src/services/ai-service.ts:62-65 | the merge is two independent last-write-wins folds: the reply into the results, the cache writes into the cache |
| AiService.MergedResults | src/services/ai-service.ts:18-65 | each reply entry overrides its key's result, the last one winning; a hit not in the reply keeps its cached value; a miss not in the reply is absent; nothing else appears |
| AiService.MergedCache | src/services/ai-service.ts:62-65 | the last write to each composite key wins and every entry not written is kept |
| AiService.Translate | src/services/ai-service.ts:14-72 | with every key a hit, nothing is sent and the hits are returned, cache untouched; otherwise exactly the misses are sent, a translator failure is the result's failure, and on success the results and cache are as the merge states |

## Left out

- Parsing and printing of source files, and ts-morph's node replacement: a file is given as an abstract tree, and the text the injector inserts is not re-parsed.
- The leading whitespace of a replaced text run: `replaceWithText` replaces from the run's first non-trivia character to its end, so leading whitespace stays behind as a whitespace-only text run before `{t(...)}`. The model replaces the whole run. A whitespace-only run is never a candidate, so no key or record changes.
- Source line numbers of records: they are diagnostic only.
- Syntax kinds the core does not look at (conditionals, `return`, class members, spread attributes and so on) are one generic node, given by its children in source order. The walk still reaches JSX nested inside them. A function's parameters are a list of nodes, walked before its body as in the syntax tree, so JSX and calls in default values are extracted, injected and seen as hook calls.
- Expression-bodied arrow functions: an arrow function's body is a statement list, so an expression body is given as a one-element list. What ts-morph's `insertStatements` does with an expression body is not modelled; the model prepends the hook to the one-element list.
- Default and namespace imports: an import declaration is its module specifier and named imports.
- Scanning for files (src/core/scanner.ts) and loading the configuration (src/utils/config.ts): the file list and the configured values are inputs.
- Disk I/O: reading and writing locale files, the cache file, and `save()` of edited components. What a file held is an input and what would be written is an output.
- The chat-completion request, its response and its JSON parsing: the translator is a function parameter returning the reply's entries or an error.
- async/await, spinners and console output, including the shared-key warning.
- The unused locals `defaultExport` and `arrowFunctions` (src/core/injector.ts:84, 87).
- Windows path separators: `PathName` follows the POSIX rules of `path.basename` and `path.extname`.
- The same path given twice in one run: the in-memory project would hand its second occurrence the already-edited tree, while the model injects every input on its own.
- Object keys that name inherited properties (`__proto__`, `constructor`) in the base table or the reply: tables are plain maps.
- Non-string JSON values in the base locale file, the cache file or the reply (`value as string`): all values are strings.
- The key order of written JSON tables: tables are maps.
- A base locale file that does not parse: the command would throw, and the model takes the parsed entries as input.
- `SHARED_OPENAI_KEY` (src/utils/constants.ts) is not part of this model: it is a parameter.
- Cli.TranslateCommand: the API key only gates the command and is not passed to the translator, which is a parameter.
- Cli.TranslateCommand: states that every selected language gets one outcome, in order, even after failures. What each outcome holds is stated by `AiService.Translate`, not repeated for the loop.
- A text run's `raw` stands for ts-morph's `getText()`, which starts after the leading trivia TypeScript skips. That scanner also skips U+200B and U+0085, which `trim` keeps, so a run beginning with one of them is recorded differently. This difference is not modelled.
- Text.Trim: JavaScript strings are UTF-16 code units and Dafny strings are code points. A surrogate pair is never whitespace, and key cleaning keeps ASCII only, so this changes no result.
