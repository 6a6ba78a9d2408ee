# Verified models of ebotula

Dafny models of the parts of the ebotula IRC bot (`src/`) and of its copy of
GNU gettext (`intl/`) whose correctness is not visible from one function body,
with proofs of what they promise. `dafny verify dfyconfig.toml` checks all of
it.

| files | what they model |
|---|---|
| `PluralSyntax`, `PluralTables`, `PluralMachine`, `PluralCorrectness`, `PluralLexer`, `PluralParser`, `PluralText` | the table-driven parser of plural expressions: tables, automaton, `yyparse` over its two growing stacks, `yylex`, and the round trip of printed expressions |
| `ProbeSequence`, `CatalogIndex` | the double-hashing index of a message catalogue, its extension at load time, and both lookups |
| `SysdepStrings`, `SysdepVerdicts`, `CatalogLoading` | the two passes over system-dependent strings: measure, allocate, fill; which strings are kept and what they expand to; loading and lookup put together |
| `Threads`, `CondRwLock`, `EventRwLock`, `WaitQueue`, `OnceProtocol` | the locks, as interleaved steps of any number of threads, and the ring of waiting events |
| `SaturatingSize`, `PrintfSyntax`, `PrintfDirectives`, `PrintfParse`, `DirectiveBuffer`, `DirectiveMeaning`, `PrintfReading`, `Formatter`, `SnprintfCall`, `EscapedText` | checked sizes, the format parser with its two growing tables, the directive rebuilt for `snprintf`, and `vasnprintf` |
| `Argz`, `LocaleMasks`, `LocaleNames`, `LocaleParts`, `LocaleNameBuffer`, `LocalePool`, `LocaleFiles` | the pool of locale files: name building, sorted list, recursive inheritance lists |
| `MessageQueue`, `QueueProtocol` | the bot's blocking queue: the sentinel ring, and its use by several threads |
| `CallbackList` | the doubly linked callback list |
| `Databases`, `Sessions`, `Accounts` | the databases, the two login tables, and the account functions and commands over them |
| `TextTools`, `ChannelModes`, `ChannelRecord`, `ChannelUpdate`, `ChannelCodec`, `ChannelCommands` | `trim` and `clearspace`, the channel record and its codec, and `!topic`, `!greeting`, `!chanmode` |
| `CStrings`, `Options` | characters, search and comparison of C strings; values that may be missing |

## How to read it

Code that changes things in place is modelled by methods over arrays and
classes. Each is proved against functions on values, and the theorems are about
those functions or about whole runs of them. Protocols are relations between
states, one step of one thread each; a theorem about a run holds of every
interleaving.

The main results:

* `PluralCorrectness.ParserDecidesGrammar` with `PluralParser.YyParse`: the
  packed tables and the goto loop decide exactly the precedence grammar, within
  the stack limit; `PluralText.PrintedExpressionIsParsed` closes the round trip.
* `CatalogIndex.LoadedDomain.AugmentHashTable` and `FindMsg`: extension keeps
  every string findable, and probing ends for a number-theoretic reason
  (`ProbeSequence.PrimeSizesReachEverySlot`).
* `SysdepStrings.Fill`: the second pass fills exactly what the first measured;
  `CatalogLoading.SurvivorIsTranslated`: what was loaded is found and translated.
* `CondRwLock.NoLostWakeUp`, `EventRwLock.HandOver`, `OnceProtocol.OnceOnly`,
  `QueueProtocol.NoLostWakeUp` and `Linearisable`: safety over all runs.
* `Formatter.Vasnprintf`: the output is the expansion of the format for every
  format and every behaviour of a conforming `snprintf`;
  `DirectiveMeaning.RebuildKeepsMeaning` and `SnprintfCall.EveryCallIsRight`:
  each rebuilt directive means what the original did, and finds its operands.
* `LocaleFiles.MakeL10nflist`: a recursive constructor over a sorted heap list;
  `LocaleParts.PartsExplode` and `SuccessorsAreExact` say what it looks up.
* `Sessions.LogOnKeepsInverse`, `RmAccountSpares`, `Accounts.HelloIsExact`,
  `ChannelUpdate.ReachableRecordsDecode`: the bot's stored state and its invariants.

## What the proofs found

* `!hello` refuses only callers of a level above "logged in". A caller who is
  logged in for another account is let through and leaves the two login tables
  inconsistent (`Accounts.HelloKeepsInverse` gives the exact condition,
  `Accounts.HelloBreaksInverse` an instance). A change of nickname has the same
  condition on the new netmask (`Accounts.NickKeepsInverse`, with the instance
  `NickBreaksInverse`). Its handler, `hNickChange` in lines 54-98 of
  `src/handles.c`, is modelled by `Accounts.ChangeNick`; that file is not UTF-8
  text, so the table below cites the login functions it calls.
* `!chanmode` loops over `MAX_MODES` slots and so never reaches the slot of the
  flag `i`: a command that sets it is stored without it
  (`ChannelUpdate.UpdateIsComplete`, `InviteIsLost`).
* The list of mode letters that earn a plus sign lacks `a`, so a record with
  that flag alone is stored without one (`ChannelUpdate.SignIsExact`,
  `AnonymGetsNoSign`).
* A `k` or `l` without its argument, be it in a command that removes it, makes
  `StrToChannelMode` read through a null pointer
  (`ChannelModes.ReadModesIsExact`, `LoneKeywordIsNotRead`).
* With any hash size above two that is not prime, some hash value misses slots for ever
  (`ProbeSequence.PrimeSizesReachEverySlot`).
* Plural literals that do not fit the number type come back reduced
  (`PluralText.WrappingIsIdentity`).

## Assumptions

* Sizes and types are those of an LP64 machine with `long long`, `long double`,
  `wchar_t` and `wint_t`. `size_t` sums outside `intl/xsize.h`, thread counts and
  lengths of C strings are mathematical integers.
* A catalogue's hash size is prime and its table has a free slot for every
  string that is added and one more; its entries are findable as written by
  `msgfmt`. `__hash_string` is an arbitrary function to 32-bit values.
* `snprintf` conforms to section 7.19.6.5 of ISO/IEC 9899:1999 and does not fail:
  `render` stands for the text it would produce.
* Letters are folded as in the C locale. `crypt` is an arbitrary function.
* Memory that the source allocates and does not compute a size for is there.

## Model

| member | source | states |
|---|---|---|
| PluralTables.TablesEncodePrecedence | intl/plural.c:235-297 | In every state and for every token the packed LR tables give exactly the action of a grammar with `?:` loosest and right-associative, then `||`, `&&`, equality, relational, additive, multiplicative (left-associative), `!` tightest |
| PluralTables.ErrorTokenIsNeverShifted | intl/plural.c:1252-1270 | No state of the automaton has an entry in the column of the error token |
| PluralMachine.StepAdvances | intl/plural.c:753-1121 | Every shift or reduction keeps the stack invariant, loses or invents no token, and lowers a measure over remaining tokens, pending reductions and stack height |
| PluralCorrectness.AcceptedTreeSpellsTokens | intl/plural.c:753-1121 | A run ends; if it accepts, the tree is well formed and its yield is exactly the tokens consumed |
| PluralCorrectness.TreeIsAccepted | intl/plural.c:753-1121 | For any stack limit of at least four states, every well-formed tree is accepted as itself, or overflows exactly when its parse reaches the limit |
| PluralCorrectness.ParserDecidesGrammar | intl/plural.c:676-1314 | For any stack limit of at least four states, YYMAXDEPTH among them: acceptance with tree t if and only if t is well formed, spells the tokens and fits the stack; rejection only of token sequences no tree spells |
| PluralCorrectness.GrammarIsUnambiguous | intl/plural.c:235-297 | Two well-formed trees with the same tokens are the same tree, however large |
| PluralSyntax.PrintIsFaithful | intl/plural-exp.h:36-68 | The spelling with only the parentheses that precedence requires is well formed and denotes the expression |
| PluralSyntax.PrintIsShortest | intl/plural-exp.h:36-68 | No well-formed spelling of an expression is shorter than that one |
| PluralLexer.LexAll | intl/plural.c:1345-1485 | Lexing ends on every text and the end token is never among the tokens |
| PluralLexer.YyLex | intl/plural.c:1345-1485 | The pointer-advancing lexer computes the next token and the rest of the text for every text and position |
| PluralLexer.EofEnds | intl/plural.c:1366-1371 | The end token is read exactly where, behind spaces and tabs, the text is over or goes on with `;`, a line end or a NUL |
| PluralLexer.BadIsUnknown | intl/plural.c:1383-1484 | A bad token is read exactly for a character of no token and for half of `==`, `&&` or `||` |
| PluralLexer.TakeDigits | intl/plural.c:1368-1380 | The digit loop accumulates modulo the number type up to the first other character |
| PluralParser.Decide | intl/plural.c:853-925 | A token is read only where the tables ask for one, and the action taken is the table entry of state and lookahead |
| PluralParser.Recover | intl/plural.c:1213-1270 | Error recovery finds no state that shifts the error token: it pops the whole stack, resumes nothing and aborts |
| PluralParser.Relocate | intl/plural.c:795-834 | Reallocated stacks keep their used part and double, up to YYMAXDEPTH |
| PluralParser.MakeRoom | intl/plural.c:769-843 | There is room for the next state exactly while the depth stays below YYMAXDEPTH |
| PluralParser.SemanticAction | intl/plural.c:967-1100 | The action of a rule, reading the value stack at its negative offsets, builds the tree of the states it reduces |
| PluralParser.DoShift | intl/plural.c:925-955 | Shifting keeps the state and value arrays in step with the automaton |
| PluralParser.DoReduce | intl/plural.c:957-1121 | Reducing keeps the state and value arrays in step with the automaton |
| PluralParser.YyParse | intl/plural.c:676-1314 | `yyparse` halts on every text and returns 0 with the expression, 1 or 2 exactly as the automaton accepts, rejects or overflows |
| PluralText.TextIsRead | intl/plural.c:1345-1485 | Lexing a text gives back the tokens it spells, whatever spaces and tabs stand between them and however it ends |
| PluralText.SpellingIsParsed | intl/plural.c:676-1485 | Every text that spells a well-formed tree parses to that tree, literals reduced modulo the number type |
| PluralText.PrintedExpressionIsParsed | intl/plural.c:676-1485 | `yyparse` on any text of a printed expression returns the expression, unless it is too deep |
| PluralText.ResultIsExact | intl/plural.c:676-1314 | 0 only with the expression of a well-formed tree that spells the text's tokens; and for such a tree 0 if it fits the stack, 2 if not |
| PluralText.WrappingIsIdentity | intl/plural.c:1368-1380 | The literals come back unchanged if and only if they fit the number type |
| ProbeSequence.NextIsModular | intl/loadmsgcat.c:1224-1227 | The wrapping step, which never forms a sum beyond the table size, is addition modulo the table size |
| ProbeSequence.ProbeIsModular | intl/loadmsgcat.c:1208-1227 | Probe k is at hash modulo the size plus k times the step, modulo the size |
| ProbeSequence.NoZeroDivisors | intl/loadmsgcat.c:1211-1227 | A prime divides no product of two smaller positive numbers: the reason probing ends |
| ProbeSequence.ProbesAreDistinct | intl/loadmsgcat.c:1211-1227 | For a prime table size the first hash_size probes are pairwise distinct |
| ProbeSequence.EverySlotIsProbed | intl/dcigettext.c:921-959 | Every slot, so every empty one, is reached within hash_size probes |
| ProbeSequence.PrimeSizesReachEverySlot | intl/loadmsgcat.c:1205-1229 | For a table of more than two slots, every slot is reached from every hash value if and only if the size is prime; a divisor d makes the hash value d - 1 miss slot 0 for ever |
| CatalogIndex.InsertKeepsIndex | intl/loadmsgcat.c:1215-1229 | Filling the first empty slot of a path makes the new string findable and loses no string |
| CatalogIndex.FirstEmpty | intl/loadmsgcat.c:1211-1228 | The probing loop halts at the first empty slot of the path, all slots before it being taken |
| CatalogIndex.InsertString | intl/loadmsgcat.c:1207-1229 | One more string in the table, none lost, one free slot fewer |
| CatalogIndex.LoadedDomain.CopyTable | intl/loadmsgcat.c:1203-1206 | The in-memory table holds the numbers of the file table, byte order corrected |
| CatalogIndex.BytesAreRead | intl/gettextP.h:99-113 | A number of a file in the other byte order is read with its four bytes reversed, one in the same order as it is |
| CatalogIndex.LoadedDomain.AugmentHashTable | intl/loadmsgcat.c:1203-1237 | After loading, every static and every system-dependent string is findable, and free slots remain |
| CatalogIndex.LoadedDomain.FindByHash | intl/dcigettext.c:915-959 | The probing lookup ends and finds a string exactly when one is there |
| CatalogIndex.LoadedDomain.FindBySearch | intl/dcigettext.c:960-987 | On a strictly sorted table, binary search finds the msgid exactly when it is there |
| CatalogIndex.LoadedDomain.FindMsg | intl/dcigettext.c:915-987 | Both branches give an index of the msgid among static and system-dependent strings, or nothing exactly when it is not there |
| CatalogIndex.ScanLocates | intl/dcigettext.c:915-987 | A plain search is a correct lookup |
| CatalogIndex.LookupsAgree | intl/dcigettext.c:915-987 | Where strings are distinct all correct lookups give the same index, so hashing, binary search and plain search agree |
| SysdepStrings.SizeString | intl/loadmsgcat.c:1015-1058 | The sizing pass judges a string by its segments and measures what it expands to |
| SysdepStrings.CheckString | intl/loadmsgcat.c:1094-1128 | The second pass judges the same strings valid |
| SysdepStrings.FillSegment | intl/loadmsgcat.c:1169-1190 | A static segment and the value behind it are written where the last one ended |
| SysdepStrings.FillString | intl/loadmsgcat.c:1157-1194 | A string is expanded into exactly the bytes measured for it |
| SysdepStrings.Measure | intl/loadmsgcat.c:1008-1067 | The count of surviving pairs and the bytes for descriptors, hash table and strings |
| SysdepStrings.Fill | intl/loadmsgcat.c:1069-1201 | The filling pass writes all surviving pairs into exactly memneed bytes; the abort on a different count is dead |
| SysdepVerdicts.VerdictIsExact | intl/loadmsgcat.c:1025-1048 | A string is expandable exactly if every reference is in range and defined, and invalidates the file exactly if the first reference that fails is out of range |
| SysdepVerdicts.RejectionIsExact | intl/loadmsgcat.c:1010-1067 | The file is rejected exactly for a pair with a string that is reached and refers to a segment value that is not there |
| SysdepVerdicts.KeptIsExact | intl/loadmsgcat.c:1053-1064 | The kept pairs are those of which every reference of both strings is in range and defined, in their order |
| SysdepVerdicts.ExpansionIsExact | intl/loadmsgcat.c:1169-1190 | Each static segment stands in the expansion behind the earlier ones and their values, with its own value behind it |
| CatalogLoading.Catalog.LoadSysdep | intl/loadmsgcat.c:944-1253 | Measuring, filling and extending together: the file is rejected exactly without hash table or for a string that is reached and refers to a missing segment value; else the catalogue holds the expansions of exactly the pairs that can be expanded, findable beside the static strings |
| CatalogLoading.LocatedAnswers | intl/dcigettext.c:915-1003 | A correct index among static and system-dependent strings leads to a translation of the msgid, and no index to none |
| CatalogLoading.Catalog.Find | intl/dcigettext.c:915-1003 | A lookup gives the translation of a static or surviving string that reads as the msgid, and nothing exactly when there is none |
| CatalogLoading.SurvivorIsTranslated | intl/dcigettext.c:915-1003 | A surviving string unlike all others is found under its own expansion and gives the expansion of its translation |
| CondRwLock.StepKeepsInv | intl/lock.c:154-235 | Every step of every thread keeps the lock invariant, spurious wake-ups included |
| CondRwLock.RunKeepsInv | intl/lock.c:154-235 | The invariant holds in every reachable state |
| CondRwLock.Exclusion | intl/lock.c:154-235 | runcount is -1 with one writer inside or the number of readers with no writer; waiting_writers_count counts the waiting writers; no abort is reached |
| CondRwLock.WriterIsAlone | intl/lock.c:154-235 | No other thread reads or writes beside a writer |
| CondRwLock.NoLostWakeUp | intl/lock.c:154-235 | With the mutex free and no writer inside, a sleeping reader means a waiting writer; with nobody inside, a sleeping writer means an awakened one, and whoever sleeps has an awakened writer that can step |
| CondRwLock.WritersGoFirst | intl/lock.c:154-173 | No step lets a reader in while a writer waits |
| EventRwLock.StepKeepsInv | intl/lock.c:661-804 | Every step of the event-based lock keeps its invariant |
| EventRwLock.RunKeepsInv | intl/lock.c:661-804 | The invariant holds in every reachable state |
| EventRwLock.NoAbort | intl/lock.c:661-804 | A thread that has been let in finds runcount as its check expects, and no abort is ever reached |
| EventRwLock.Exclusion | intl/lock.c:661-804 | No other thread reads or writes beside a writer |
| EventRwLock.HandOver | intl/lock.c:661-804 | runcount counts holders and threads let in, the queues hold exactly the waiting threads, and whoever waits has a holder in front |
| WaitQueue.Queue.constructor | intl/lock.c:565-574 | A new queue waits for nothing |
| WaitQueue.Queue.Grow | intl/lock.c:579-611 | Reallocation and rotation keep the sequence of waiting events |
| WaitQueue.Queue.Add | intl/lock.c:576-622 | The ring appends to a first-in first-out sequence, or changes nothing when memory or the event is missing |
| WaitQueue.Queue.NotifyFirst | intl/lock.c:624-633 | The first waiting event is set and removed |
| WaitQueue.Queue.NotifyAll | intl/lock.c:635-649 | All waiting events are set in order and removed |
| OnceProtocol.StepKeepsInv | intl/lock.c:883-918 | Every step of every caller keeps the protocol invariant |
| OnceProtocol.RunKeepsInv | intl/lock.c:883-918 | The invariant holds in every reachable state |
| OnceProtocol.OnceOnly | intl/lock.c:883-918 | The init function is called at most once; nobody returns before it has finished; no caller aborts |
| OnceProtocol.StartedStays | intl/lock.c:883-918 | started never returns to -1 |
| SaturatingSize.Xsum | intl/xsize.h:57-66 | Wrapping addition with its check is the true sum cut at SIZE_MAX |
| SaturatingSize.Xsum4 | intl/xsize.h:77-84 | The sum of four cut at SIZE_MAX |
| SaturatingSize.Xmax | intl/xsize.h:86-95 | The larger of the two |
| SaturatingSize.Xtimes | intl/xsize.h:97-104 | The division test gives the true product cut at SIZE_MAX |
| PrintfSyntax.SaturatedIsMin | intl/printf-parse.c:137-152 | The saturating decimal loop gives min(true value, SIZE_MAX) for digit strings of any length |
| PrintfParse.ReadNumber | intl/printf-parse.c:142-147 | A position number is read as min(true value, SIZE_MAX) |
| PrintfParse.ReadRef | intl/printf-parse.c:132-154 | A positional reference is recognised, or refused when it is 0 or overflows |
| PrintfParse.Parsing.RegisterArg | intl/printf-parse.c:81-111 | An argument gets its type, the table grows and is padded; refused only for a conflicting type or an overflowing size |
| PrintfParse.Parsing.ReadWidth | intl/printf-parse.c:193-246 | A width is read and the longest one recorded |
| PrintfParse.Parsing.ReadPrecision | intl/printf-parse.c:248-307 | A precision is read and the longest one recorded |
| PrintfParse.Parsing.Finish | intl/printf-parse.c:309-525 | Size specifiers, conversion and argument of a directive are read and the directive is stored with room for one more |
| PrintfParse.Parsing.ReadDirective | intl/printf-parse.c:116-525 | One directive is read into the tables exactly as the syntax says, or refused |
| PrintfParse.Parsing.ReadFormat | intl/printf-parse.c:113-531 | The loop succeeds exactly on well-formed formats, with their directives and arguments, and marks the end of the format in the closing entry |
| PrintfParse.ParseFormat | intl/printf-parse.c:61-531 | On success directives are ordered, disjoint, separated by text without a percent sign, and every stored index has an argument of the demanded type |
| PrintfDirectives.ConversionFits | intl/printf-parse.c:383-499 | Each conversion demands a type of its family, and only the percent conversion demands none |
| PrintfDirectives.DirectiveKeepsGood | intl/printf-parse.c:116-525 | One more directive keeps all that the formatter trusts about earlier ones |
| PrintfDirectives.ParseKeepsGood | intl/printf-parse.c:113-531 | What the formatter trusts holds to the end of the format |
| PrintfDirectives.ParseKeepsBounded | intl/printf-parse.c:193-307 | The recorded maxima never exceed the length of the format |
| PrintfDirectives.ParsedFormat | intl/printf-parse.c:61-531 | Everything the formatter trusts about a parsed format, in one statement |
| DirectiveBuffer.RebuiltFits | intl/vasnprintf.c:143-146 | Any rebuilt directive with its suffix fits 7 + max_width_length + max_precision_length + 6 cells; it fills them exactly when it has all flags, the longest pieces and a doubled modifier |
| DirectiveBuffer.Rebuild | intl/vasnprintf.c:500-562 | The buffer holds the flags in fixed order, width, precision, size and conversion, then `%n` and NUL, inside its bounds |
| DirectiveMeaning.ParsedIsReadable | intl/printf-parse.c:156-307 | Every parsed width and precision has the text that its argument or its digits demand |
| DirectiveMeaning.RebuiltIsReread | intl/vasnprintf.c:500-562 | Parsing the rebuilt text again gives one directive with the same flags, width, precision and conversion, for the promoted argument type |
| DirectiveMeaning.RebuildKeepsMeaning | intl/vasnprintf.c:500-562 | That holds of every directive of every format that parses |
| SnprintfCall.EveryCallIsRight | intl/vasnprintf.c:565-630 | Every call passes exactly the operands that the rebuilt directive takes, each where it looks for it: the width, precision and argument that the format names |
| DirectiveMeaning.IntegerModifiers | intl/printf-parse.c:309-500 | The integer type of each modifier, `h` to `ll`, `j`, `z`, `t` and `L`, for signed, unsigned and counting conversions |
| PrintfReading.OtherModifiers | intl/printf-parse.c:383-499 | The argument types of floating, character, string, pointer and percent conversions |
| PrintfReading.UnknownIsRefused | intl/printf-parse.c:383-499 | A conversion is refused exactly if its character is none of the known ones |
| PrintfReading.PositionRead | intl/printf-parse.c:132-154 | A position `n$` counts from 1 and names argument n - 1; 0 and what does not fit are refused |
| PrintfReading.NumberedIsRead | intl/printf-parse.c:116-525 | A directive whose width, precision and argument are named by position takes them from these positions |
| PrintfReading.RegisterIsExact | intl/printf-parse.c:81-111 | A new position is taken with its type, an old one exactly for the type it has |
| EscapedText.EscapedTextIsItself | intl/vasnprintf.c:205-232 | Text with every percent sign doubled is accepted without arguments, and its output is the text |
| Formatter.PlacedInOrder | intl/vasnprintf.c:205-216 | The text before each directive is a valid piece of the format |
| Formatter.Output.EnsureAllocation | intl/vasnprintf.c:182-203 | Room is made without losing output; it fails only when the size overflows |
| Formatter.Output.AppendConverted | intl/vasnprintf.c:573-845 | The retry loop around `snprintf` ends with the whole result appended, or runs out of memory |
| Formatter.Output.Execute | intl/vasnprintf.c:218-845 | A directive adds its conversion, `%n` stores the length so far, and no consistency abort is reached |
| Formatter.FetchArgs | intl/printf-args.c:30-142 | Arguments are refused exactly when some position has no type |
| Formatter.FormatAll | intl/vasnprintf.c:205-846 | The loop produces text and directives in order |
| Formatter.Vasnprintf | intl/vasnprintf.c:107-890 | A format is refused exactly when malformed or with a gap in its positions; else the output is the expansion of the format, NUL-terminated, with right counts, and memory is the only other failure |
| Formatter.CountsAreExact | intl/vasnprintf.c:234-266 | What is stored are exactly the lengths of the output at the `%n` directives, each at its argument |
| Argz.Count | intl/l10nflist.c:92-103 | The number of strings in the vector |
| Argz.Next | intl/l10nflist.c:139-153 | The next string of the vector, in order, and NULL after the last |
| Argz.Stringify | intl/l10nflist.c:118-129 | Every NUL but the last becomes the separator |
| LocaleMasks.PopCounts | intl/l10nflist.c:161-171 | The parallel additions give the number of set bits, for every 16-bit argument |
| LocaleMasks.PopOfMask | intl/l10nflist.c:161-171 | So they do for the masks of locale name parts |
| LocaleMasks.CountIsBounded | intl/l10nflist.c:314-316 | A mask dominates at most two to the power of its set bits |
| LocaleNames.SuccessorsFit | intl/l10nflist.c:276-280 | Successors and closing NULL fit the flexible array |
| LocaleNames.SuccessorsAreShorter | intl/l10nflist.c:298-339 | A node inherits only from strictly shorter names |
| LocaleNameBuffer.BuildName | intl/l10nflist.c:195-245 | The file name fills its allocation to the last byte |
| LocaleParts.PartsExplode | intl/explodename.c:43-134 | Cut at its marks, the built name gives back the language and exactly the parts in the mask |
| LocaleParts.FileNameReads | intl/l10nflist.c:211-245 | Directories with colons between them, the locale name and the file, with slashes between |
| LocaleParts.SuccessorsAreExact | intl/l10nflist.c:313-341 | A request is inherited from exactly if its parts are within the mask, it has not both codesets, and it is another one: one directory of several, or fewer parts |
| LocaleParts.SuccessorsDescend | intl/l10nflist.c:304-313 | Successors come in the order of falling masks |
| CStrings.CompareOrder | intl/l10nflist.c:251-253 | The comparison is 0 exactly on equal names and antisymmetric |
| CStrings.CompareTransitive | intl/l10nflist.c:251-253 | The comparison is transitive |
| CStrings.CompareIsLexicographic | intl/l10nflist.c:251-253 | A name is smaller exactly if it is a proper beginning of the other or smaller at the first difference |
| LocalePool.Pool.Find | intl/l10nflist.c:247-265 | The search gives the node with the name, or the place where it belongs |
| LocalePool.Pool.Insert | intl/l10nflist.c:295-296 | Splicing keeps the list linked and strictly decreasing by name |
| LocaleFiles.NewNode | intl/l10nflist.c:273-293 | A new node has its allocation and its decided flag |
| LocaleFiles.Lookup | intl/l10nflist.c:187-271 | The one node with the full name, or none exactly when there is none |
| LocaleFiles.AbsoluteStands | intl/l10nflist.c:190-193 | A language that is a path from the root has no directory in front of its name |
| LocaleFiles.Fill | intl/l10nflist.c:298-341 | The successor list of a node is exactly what its request asks for, in order, within the allocation, NULL behind |
| LocaleFiles.MakeL10nflist | intl/l10nflist.c:174-344 | The recursion ends; the existing node is returned and nothing changed, or a new one is created; the pool stays strictly decreasing without duplicates and every finished node is complete |
| LocaleFiles.InheritsFromShorter | intl/l10nflist.c:298-341 | In a finished pool inheritance has no cycles |
| MessageQueue.Queue.constructor | src/queue.c:35-67 | A new queue is empty |
| MessageQueue.Queue.LinkNewest | src/queue.c:126-144 | The links of a push keep the ring, with the new element behind the sentinel |
| MessageQueue.Queue.UnlinkOldest | src/queue.c:180-187 | The links of a pop keep the ring, without the element before the sentinel |
| MessageQueue.Queue.PushQueue | src/queue.c:70-144 | A copy of the payload is appended; refused exactly for a size without data |
| MessageQueue.Queue.PopQueue | src/queue.c:153-198 | The oldest payload is handed over with the bytes it was pushed with |
| MessageQueue.Queue.IsEmptyQueue | src/queue.c:200-214 | True exactly of the empty queue |
| MessageQueue.Queue.FlushQueue | src/queue.c:248-273 | Everything is taken out |
| MessageQueue.Queue.GetNextItrQueue | src/queue.c:275-300 | The next payload towards the oldest, and nothing at the last one |
| MessageQueue.Queue.SetIterToFirst | src/include/queue.h:148 | The iterator goes back to the sentinel |
| MessageQueue.Queue.VisitAll | src/command.c:1341-1344 | A full iteration gives every payload once, newest first |
| QueueProtocol.StepKeepsInv | src/queue.c:70-198 | Every step of every thread keeps the queue invariant |
| QueueProtocol.RunKeepsInv | src/queue.c:70-198 | The invariant holds in every reachable state |
| QueueProtocol.Linearisable | src/queue.c:70-198 | Payloads popped over any run are a prefix of those pushed, and the queue holds the rest |
| QueueProtocol.NoLostWakeUp | src/queue.c:138-173 | With the mutex free, sleeping consumers mean at least as many awakened ones as there are elements |
| CallbackList.CallbackDList.InsertNext | src/callbacklist.c:80-128 | The item stands behind the element, links intact; refused exactly without an element in a list that is not empty |
| CallbackList.CallbackDList.InsertPrev | src/callbacklist.c:133-182 | The item stands before the element, links intact; refused likewise |
| CallbackList.CallbackDList.Remove | src/callbacklist.c:187-230 | The element is gone, its data given back, links intact |
| CallbackList.CallbackDList.SearchNickname | src/callbacklist.c:235-303 | From the head the first match in any case of letters, from the tail the last, from the middle the next, and null exactly when there is none |
| CallbackList.CallbackDList.Destroy | src/callbacklist.c:53-75 | Ends with an empty list, each item given to the destructor once, from the tail |
| Databases.LookupIsItsHistory | src/dbaccess.c:133-360 | Over any run of additions, replacements and removals, what is found under a key depends only on the entry it started from and the changes under keys that fold like it; keys that fold alike cannot be told apart |
| CStrings.LowerCharIsExact | src/utilities.c:88-104 | Every capital letter is folded to its small one, and no other character changes |
| Databases.Store.AddDb | src/dbaccess.c:133-179 | An entry is added only where none is, passwords encrypted |
| Databases.Store.ReplaceDb | src/dbaccess.c:181-225 | An entry is replaced only where one is |
| Databases.Store.DelDb | src/dbaccess.c:227-255 | The entry is removed, if there is one |
| Databases.Store.CheckDb | src/dbaccess.c:257-302 | True exactly of an entry with that value, a password in encrypted form |
| Databases.Store.ListDb | src/dbaccess.c:362-395 | All keys, each once |
| Sessions.LogOnKeepsInverse | src/account.c:109-145 | The two login tables stay inverse up to folding if and only if the netmask is not logged in for another account |
| Sessions.LogOnIsExact | src/account.c:109-145 | A login gives the account its netmask and time, and no other account anything |
| Sessions.LogOnMasks | src/account.c:109-145 | The old netmask of the account goes, and the new one comes unless it is taken |
| Sessions.LogOutKeepsInverse | src/account.c:158-167 | Logging out keeps them inverse |
| Sessions.LogOutIsExact | src/account.c:158-167 | Exactly the pair of the account goes |
| Sessions.RmAccountKeepsInverse | src/account.c:169-187 | Removing an account keeps them inverse |
| Sessions.RmAccountErases | src/account.c:169-220 | Nothing of the account stays in the user, time, session and listed-channel access entries |
| Sessions.RmAccountSpares | src/account.c:169-220 | Every entry of every other account stays |
| Sessions.KeysAreInjective | src/account.c:205-211 | The key made of login and channel determines both, up to folding |
| Sessions.RunKeepsInverse | src/account.c:109-187 | Any run of logins from free netmasks, logouts and removals keeps the tables inverse |
| Sessions.SessionsStayInverse | src/dbaccess.c:54-62 | So from the empty session tables of a start |
| Accounts.NickStringCheck | src/utilities.c:285-301 | Accepted names are made of letters, digits and the allowed signs, so have no channel sign |
| Accounts.Accounts.LogOn | src/account.c:109-145 | The database operations of a login give the login tables and time stamp the properties are about |
| Accounts.Accounts.LogOut | src/account.c:158-167 | The same for a logout |
| Accounts.Accounts.RmAccessRights | src/account.c:189-220 | The loop over the channel list removes the master entry and the entry for every listed channel |
| Accounts.Accounts.RmAccount | src/account.c:169-187 | The same for a removal |
| Accounts.Accounts.RmDeadLogins | src/account.c:80-107 | Exactly the accounts on line that were last seen too long ago are logged off, and the tables stay inverse |
| Accounts.Accounts.RmDeadAccounts | src/account.c:222-247 | Exactly the accounts last seen too long ago are removed, and the tables stay inverse |
| Accounts.AtolReadsPrinted | src/account.c:133-137 | A time stamp written with `%ld` is read back as the number |
| Accounts.DeadIsOlder | src/account.c:94-97 | An account counts as dead exactly if its last time stamp is before the given time |
| Accounts.Accounts.Ident | src/command.c:308-337 | Only the right password from a netmask that is not logged in logs on; the tables stay inverse always |
| Accounts.Accounts.Hello | src/command.c:162-204 | The new account and its login, and the first account as master |
| Accounts.HelloIsExact | src/command.c:162-204 | Only the lowest two levels get through; a missing nickname becomes a user with the given secret, logged on; the access entry changes exactly when there was no user at all, and then to that of a master for the nickname alone; nothing else changes |
| Accounts.HelloKeepsInverse | src/command.c:162-182 | The guard of `!hello` stops only higher levels: the tables stay inverse if and only if it stops, the account exists, or the netmask is free |
| Accounts.HelloBreaksInverse | src/command.c:166-177 | An instance: bob, logged in under the nickname eve, says hello, and the tables stop being inverse |
| Accounts.NickKeepsInverse | src/account.c:109-167 | Logged off and on again under the netmask of a new nickname, the tables stay inverse if and only if that netmask is not another account's |
| Accounts.NickBreaksInverse | src/account.c:109-167 | An instance: bob takes the nickname of a session of alice on the same host |
| TextTools.TrimmedIsTrim | src/utilities.c:47-66 | `trim` leaves no tabs or line ends and single spaces between words only, keeps all that is visible, and leaves exactly such text alone |
| TextTools.GapsBecomeSpaces | src/utilities.c:47-66 | Blanks between two visible characters become one space if a space is among them, and else nothing |
| TextTools.EdgesAreDropped | src/utilities.c:47-66 | Blanks at either end are dropped |
| TextTools.Trim | src/utilities.c:47-66 | The buffer holds the trimmed text, in place |
| TextTools.ClearSpace | src/utilities.c:68-86 | The buffer holds the text without quotes and without spaces outside them, in place |
| TextTools.ClearedQuoted | src/utilities.c:68-86 | Quoted text keeps its spaces and loses its quotes |
| ChannelModes.LettersTell | src/utilities.c:117-132 | The stored letters contain k exactly with a keyword and l exactly with a limit |
| ChannelModes.EncodedLine | src/utilities.c:106-134 | The mode line of a sound record is its letters, keyword and limit, and `trim` changes nothing in it |
| ChannelModes.ModesRoundTrip | src/utilities.c:106-228 | Decoding the mode line of a record gives the record back |
| ChannelModes.ReadModesIsExact | src/utilities.c:167-222 | The flag loop ends without reading a missing argument if and only if the line has one for every k and l |
| ChannelModes.DecodedIsExact | src/utilities.c:136-228 | A slot is set exactly if its letter is in the first word; the sign is the last plus or minus there; keyword and limit are the words that stand for the last k and l |
| ChannelModes.DecodedIsNoMore | src/utilities.c:136-228 | Without a sign, a k or an l there is none in the record |
| ChannelModes.LoneKeywordIsNotRead | src/utilities.c:179-184 | An instance: `-k` alone makes it read one that is missing |
| ChannelRecord.RoundTrip | src/utilities.c:231-270 | Decoding the channel line gives the record back if and only if topic and greeting are not empty and have no tab |
| ChannelRecord.ParametersAreTrim | src/extract.c:105-138 | Command parameters are never empty and always trimmed |
| ChannelRecord.CommandArgument | src/extract.c:105-138 | Behind the first command sign and the command word, the argument is the trimmed rest of the line, or none if that is blank |
| ChannelRecord.NoCommandNoArgument | src/extract.c:105-138 | Without a command sign there is no argument |
| ChannelRecord.CommandParameters | src/extract.c:295-316 | A channel name and one space in front of the parameters are left out |
| ChannelRecord.DecodedOk | src/utilities.c:136-228 | The mode line of a command gives k with a keyword and l with a limit, both single words |
| ChannelUpdate.UpdateKeepsOk | src/command.c:1140-1206 | `!chanmode` keeps flag k iff keyword, flag l iff limit |
| ChannelUpdate.UpdateIsExact | src/command.c:1140-1198 | Each slot takes what the command says, but `i` never changes |
| ChannelUpdate.UpdateIsComplete | src/command.c:1140-1198 | The stored modes follow the command if and only if it does not set an unset `i` or remove a set one; of a record without `i`, if and only if it does not set it |
| ChannelUpdate.InviteIsLost | src/command.c:1140-1198 | An instance: `+i` on a new channel |
| ChannelUpdate.UpdateOptions | src/command.c:1147-1193 | Keyword and limit are set, replaced or dropped with their flags |
| ChannelUpdate.PlusTells | src/command.c:1199-1206 | The line gets its plus sign exactly when a flag other than `a` is set |
| ChannelUpdate.SignIsExact | src/command.c:1140-1206 | The sign tells whether any flag is set, except exactly where the command leaves `a` set, every other slot it reaches blank, and `i` was not set |
| ChannelUpdate.AnonymGetsNoSign | src/command.c:1199-1206 | An instance: `+a` on a new channel |
| ChannelUpdate.NextKeepsStored | src/command.c:603-1212 | Each command takes a stored record to a stored record that decodes to itself |
| ChannelUpdate.ReachableRecordsDecode | src/command.c:603-1212 | Every record reachable from a new channel is sound and decodes to itself; none ever has `i` |
| ChannelCodec.ChannelMode.StrToChannelMode | src/utilities.c:136-228 | Splitting and flag loop fill the slots, keyword and limit that the line denotes, or read a missing argument exactly when a k or l has none |
| ChannelCodec.ChannelMode.ChannelModeToStr | src/utilities.c:106-134 | The line is built in a buffer that is always large enough |
| ChannelCodec.ChannelMode.ChangeModes | src/command.c:1140-1206 | The slot loop computes the update |
| ChannelCommands.GetTopic | src/extract.c:220-247 | The text between the first two tabs, if any |
| ChannelCommands.GetGreeting | src/extract.c:249-271 | The text behind the last tab, if any |
| ChannelCommands.GetChannelMode | src/extract.c:273-293 | The text before the first tab |
| ChannelCommands.GetArgument | src/extract.c:105-138 | The trimmed argument of a command line, if any |
| ChannelCommands.GetParameters | src/extract.c:295-316 | The argument without a leading channel name |
| ChannelCommands.ChangedKeepsStored | src/command.c:603-1212 | Whatever the command, every channel line still stores a sound record |
| ChannelCommands.SetTopic | src/command.c:649-699 | Only the topic of that channel changes; every line stays sound |
| ChannelCommands.SetGreeting | src/command.c:603-645 | Only the greeting of that channel changes; every line stays sound |
| ChannelCommands.SetModes | src/command.c:1113-1212 | Only the modes of that channel change and every line stays sound; a k or l without argument ends in a null read exactly when the channel is there, before anything is stored |

## Left out

- Sockets, polling, signals, daemonising, start-up, logging and terminal dialogue: input and output only.
- gdbm, crypt, iconv, mmap and pthread internals: tables are maps, mutexes and condition variables behave as documented.
- Failure of `malloc` outside the checked size computations and `gl_waitqueue_add`.
- The locks, the once-only protocol and the shared queue are relations on values, because Dafny has no threads; what one thread does between two points at which another may run is one step.
- PluralMachine.StepAdvances: the automaton works on concrete trees with their parentheses; `yyparse` drops them, and PluralParser proves that it does.
- PluralParser.YyParse: `new_exp` returning NULL for lack of memory is not modelled, nor is the debugging output.
- Evaluation of plural expressions and the choice of the plural form.
- CatalogIndex.LoadedDomain.FindBySearch: the binary search sees static strings only, as in the source, so it needs a catalogue without hash table and without system-dependent strings.
- CatalogLoading.Catalog.Find: conversion to another character set and the choice of a plural form of the translation; it requires of the file that its originals end in a NUL and that declared lengths cover them.
- The layout of catalogue files, the conversion cache, and domains bound to relative directories.
- SysdepStrings.Fill: descriptor tables are arrays of descriptors, not bytes inside the allocation; their size is counted in it.
- The mutex, recursive-lock and Solaris or Pth variants in `intl/lock.c`, and destruction of locks.
- The first-use initialisation of an event-based lock by its `guard` inside `intl/lock.c:661-804`; the lock is initialised from the start.
- EventRwLock.HandOver: fairness between readers and writers is not stated, since the source promises none.
- Formatter.Output.Snprintf: `snprintf` implementations that return an error, reject `%n` or report a short count, and the retries for them.
- Formatter.Output.Execute: the number stored by `%n` is the full length; its conversion to a narrower integer is not modelled.
- Formatter.Vasnprintf: the variant without `snprintf`, its temporary buffer and its bound on the length of conversions; wide-character formats.
- LocaleFiles.MakeL10nflist: `data` and the later change of `decided` when a file is loaded; normalisation of codeset names; file names are compared up to their end, as strings without NUL.
- MessageQueue.Queue.PopQueue: the wait for an element is in QueueProtocol; here an element is required. An iterator that stands at the popped element dangles; GetNextItrQueue requires that it does not.
- QueueProtocol.NoLostWakeUp: shutdown is not live, because a consumer woken by the broadcast of `flushQueue` waits again while the queue is empty.
- CallbackList.CallbackDList.SearchNickname: the mutex around each operation.
- Databases.Store.ListDb: the queue of keys is a sequence of them.
- Accounts.Accounts.Hello: the messages, and the empty password's encryption is an argument.
- ChannelCodec.ChannelMode.StrToChannelMode: after a read of a missing argument the contents of the record are not stated, since the process is then lost; a third missing argument is read from behind the array, which counts as the same.
- ChannelCommands.ChannelData.constructor: a line of the database is one that the bot stored, so it is decodable.
- ChannelCommands.GetArgument: `getArgument` also trims the caller's line where it stands; the model trims a copy.
- ChannelCommands.SetTopic: the server's topic and the replies to the user.
- Access rights of commands, `accountmode`, ban lists, the configuration and message parsers, help texts, and the tools.
- `GetCharPerMin`, whose resets do not implement a sliding window, and the framing of received lines.
