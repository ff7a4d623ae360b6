# Verified models of sitecopy's bundled algorithms

sitecopy ships with GNU gettext's runtime (`intl/`), GNU getopt and fnmatch (`lib/`) and a
parser for directory listings (`src/lsparser.c`).  This project models the algorithms of those
files in Dafny and proves what they are for.

- **Plural expressions** (`Plural*`).  The lexer, the generated LALR automaton with its real
  packed tables, its stacks and their growth, and the evaluator.  The tables are shown to be the
  precedence rules of C; a text is accepted exactly when it is in the grammar; the tree that is
  built is the only one with those tokens; evaluating it gives the unsigned C value of the tokens;
  and any tree, written with the fewest parentheses and any blanks, is parsed back.
- **Message catalogues** (`Probing`, `Catalogue`, `SysdepStrings`, `LoadedDomain`, `CatalogueMeaning`).  Double
  hashing over a prime number of places reaches every place, so that insertion and lookup end and
  find exactly what is there; the hash table, the binary search and a linear search agree; the
  two passes over the system dependent strings agree byte for byte; and a loaded catalogue
  translates as the plain table in its file says.
- **The cache of translations** (`Bindings`, `DomainFiles`, `Coherence*`, `Libintl`).
  Over any run of `bindtextdomain`, `bind_textdomain_codeset`, `textdomain` and `dcigettext`, every
  call returns what the bindings of the moment give, whether or not it is answered from the cache,
  exactly for the sets of domains of which no two can share a catalogue file.
- **getopt** (`Rotation`, `GetoptScan`, `Getopt`, `GetoptFacts`, `GetoptPartition`, `GetoptMark`,
  `GetoptRoundTrip`, `GetoptReplies`).  The block exchange in place, the resumable scanner with its state across
  calls, and the whole scan: the events are those of a scanner that moves nothing, and the
  arguments are stably partitioned into options with their arguments and all else.
- **The formatter** (`XSize`, `Printf*`, `Vasnprintf`).  The parser of format strings with its two
  growing arrays, decided by a grammar in both directions, and the formatter with its scratch
  buffer, its growing result and its retry loop.
- **The pool of locale files** (`MaskBits`, `LocalePool`, `LocaleNames`, `LocaleLookup`).  A sorted list filled by
  recursion over bit masks, with the bound on the number of successors, and which masks name the
  same file.
- **fnmatch** and **listings** (`Fnmatch*`, `LsParser`, `PfList`).  Matching is membership in the
  language of the pattern; a written listing is read back; the list of files keeps its order on
  the heap.

Code that the sources write as loops over variables is a method here, with the same branches;
what it computes is stated by a function, and the laws are proved about that function.
A pointer that moves forward through a string is modelled as the rest of the string.
Widths of machine types are those of `config.h`: `unsigned long` and `size_t` have 32 bits.  Locale
categories are numbered as in the GNU C library.

## Findings

- `getopt`: after `-W` with an ambiguous name the scanner skips one element more than it uses
  (lib/getopt.c:846-854).  A call passes an element unused exactly there
  (`GetoptPartition.UnusedAfterAmbiguousW`); a file can so be taken for an option
  (`GetoptPartition.AmbiguousWTakesFile`), and the scan can step past the end
  (`GetoptFacts.ShortOverruns` says when, `GetoptFacts.AmbiguousWOverruns` gives a list).  In all
  other scans the options, with their arguments and the `--`, come first and all else last
  (`GetoptPartition.ScanSeparates`).
- `getopt`: the `-` or `+` at the start of the option string is left out in the first call only
  (lib/getopt.c:509-515).  Later calls take it for an option character, and do not see a colon
  behind it.  `GetoptMark.MarkMattersExactly` says for which calls that changes the result,
  `GetoptMark.MarkIsSilentExactly` for which lists it changes nothing, and `GetoptMark.MarkIsFound`
  gives a list in which the mark is read as an option.
- The formatter's retry loop makes one retry where `%n` is not understood, one more where the text
  does not fit with its NUL, and another where its length is at least twice the room, since the room
  grows to the length alone (intl/vasnprintf.c:822-834).  `Vasnprintf.Accumulator.PutRendered` counts
  them, and `Vasnprintf.ThreeRetries` is a case with three.
- A directive that snprintf cannot convert is never reported as such: its -1 is taken for that of a
  library that does not tell the length, so that the loop enlarges the result until memory ends, and
  the error exit for it (intl/vasnprintf.c:802-812) is not reached (`Vasnprintf.Accumulator.Round`,
  `Vasnprintf.VasnPrintf`).
- The memory for the system dependent strings of a catalogue is summed up in a `size_t`
  (intl/loadmsgcat.c:1118-1181).  The filling pass stays inside it exactly if the sum is below 2^32
  (`SysdepStrings.Fill`, `LoadedDomain.Load`); `LoadedDomain.MeasureFails` gives a file that is not
  refused and whose strings do not.
- Of strings that coincide once their system dependent parts are expanded, the first is found, and
  so a static one before all others (`Catalogue.MetFirst`).
- A locale file is its own successor exactly where one directory is searched, the mask has no
  codeset, and it has either both modifier bits or, without the modifier, a revision beside an empty
  sponsor (intl/l10nflist.c:242-265; `LocaleNames.SelfSuccessor`).
- The comment above the loop over submasks says that the modifier is dropped first and the normalized
  codeset last.  It is the other way round, as the loop counts down from the highest bits
  (intl/l10nflist.c:328-332; `LocaleLookup.XpgSuccessors`).
- In a table of any size that is not prime some probe misses free places for ever
  (`Probing.CompositeSizeMisses`), and in none whose size is prime (`Probing.ReachesAllIfPrime`).
- A catalogue file only remembers a count of codeset changes (intl/dcigettext.c:829-1024), so that
  two domains that share a file can get each other's codeset.  Domains can share one exactly if one
  is the other below a directory named after a category (`DomainFiles.SharesExactly`);
  `CoherenceRuns.BelowIsMisled` is a run with "x" and "fr/LC_MESSAGES/x".  Every run over a set of
  domains is right exactly if there are no two such among them (`CoherenceRuns.RightExactly`).
- A listing's heading is never recognized by the blank line before it, as that is forgotten before
  it is looked at (src/lsparser.c:218-225; `LsParser.Context.ReadLine`, and
  `LsParser.SpacedHeading` for one with a space).
- A heading below a top directory that begins with a drive, as `c:/pub`, is not cut at the top
  directory, since the drive goes first (src/lsparser.c:76-84; `LsParser.HeadingRoundTrip`).

## Model

| member | source | states |
|---|---|---|
| `PluralExp.QuotientFits` | intl/eval-plural.h:70-79 | a quotient of two words is a word, so division and remainder need no wrapping |
| `PluralTables.TablesArePrecedence` | intl/plural.c:249-295 | for every state and lookahead the packed tables decide as the precedence and associativity rules do |
| `PluralTables.GotoIsDecided` | intl/plural.c:256-275 | the packed goto tables lead where the grammar says from every state that can be uncovered |
| `PluralTables.ErrorIsNeverShifted` | intl/plural.c:261-295 | no state has an entry for the error token, so a syntax error empties the stack |
| `PluralTables.BindingIsSymbol` | intl/plural.c:163-192 | the translated number of an infix token is one more than its binding strength, and of no other token |
| `PluralMachine.ShiftKeeps` | intl/plural.c:930-949 | a shift keeps the stack spelling the tokens read |
| `PluralMachine.ReductionGives` | intl/plural.c:965-1119 | a reduction pops the right side, pushes the value of its action and goes where the table says |
| `PluralMachine.ReduceBinary` | intl/plural.c:1019-1054 | a binary rule is applied only over a weaker or equal lookahead and builds the left-associative tree |
| `PluralMachine.ReduceConditional` | intl/plural.c:1013-1018 | the conditional rule builds the right-associative tree |
| `PluralMachine.ReduceNot` | intl/plural.c:1055-1060 | the negation rule builds the tree of the tokens it replaces |
| `PluralMachine.ReduceStart` | intl/plural.c:1005-1012 | the start rule stores the tree and ends in the state that waits for the end of input |
| `PluralRuns.StepSpells` | intl/plural.c:757-1119 | every step keeps stack and input spelling the text, never finds a value of the wrong kind, and makes progress |
| `PluralRuns.StepKeeps` | intl/plural.c:757-1119 | what is reachable stays so, and a measure goes down: the automaton halts on every token sequence |
| `PluralRuns.DeepStaysDeep` | intl/plural.c:764-841 | once the stack has met its limit the outcome is decided |
| `PluralRuns.RunIsSound` | intl/plural.c:757-1119 | from any reachable configuration acceptance yields a tree that conforms to the grammar and spells the input |
| `PluralRuns.ParseIsSound` | intl/plural.c:240-295 | whatever is accepted is the token yield of a conforming tree, and the result is that tree's expression |
| `PluralRuns.ParseIsComplete` | intl/plural.c:240-295 | every conforming tree's tokens are accepted and give back its expression, and the stack limit is met exactly if the tree needs that many entries |
| `PluralRuns.AcceptanceIsExact` | intl/plural.c:240-295 | acceptance with a result, if and only if a conforming tree has that yield and that expression |
| `PluralGrammar.Unambiguous` | intl/plural.c:246-295 | two conforming trees with the same tokens are the same tree |
| `PluralGrammar.BareConforms` | intl/plural.c:246-295 | every expression has a conforming tree that stands for it |
| `PluralGrammar.BareIsMinimal` | intl/plural.c:246-295 | no conforming tree of the expression has fewer tokens |
| `PluralGrammar.EvalIsTokenValue` | intl/eval-plural.h:27-108 | evaluating the tree equals the reference evaluation of its tokens in unsigned C arithmetic, division by zero included |
| `PluralMeaning.ComparisonsCompare` | intl/eval-plural.h:80-91 | each comparison is 1 or 0 as its operands compare as numbers |
| `PluralMeaning.SumIsModular` | intl/eval-plural.h:76-77 | a sum is that of the integers modulo 2^32 |
| `PluralMeaning.DifferenceIsModular` | intl/eval-plural.h:78-79 | a difference is that of the integers modulo 2^32 |
| `PluralMeaning.ProductIsModular` | intl/eval-plural.h:62-63 | a product is that of the integers modulo 2^32 |
| `PluralMeaning.DivisionIsExact` | intl/eval-plural.h:64-75 | quotient times divisor plus remainder is the dividend, the remainder is below the divisor, and a zero divisor has no value |
| `PluralMeaning.LogicIsLazy` | intl/eval-plural.h:43-55 | negation, both, either and the choice, where an operand that is not needed may have no value |
| `PluralMeaning.GermanicRule` | intl/eval-plural.h:27-108 | the text n!=1 is 0 for one and 1 for all other numbers |
| `PluralMeaning.PolishRule` | intl/eval-plural.h:27-108 | the rule of Polish selects its three forms |
| `PluralLexer.ScanNumber` | intl/plural.c:1366-1379 | the value reduced digit by digit is the whole number reduced once |
| `PluralLexer.ScanComparison` | intl/plural.c:1409-1429 | the longest comparison operator is read |
| `PluralLexer.ScanSymbol` | intl/plural.c:1381-1478 | operators, names and ends are read as the token definition says, lone characters are errors |
| `PluralLexer.YyLex` | intl/plural.c:1343-1483 | one call reads the next token of the text and leaves the cursor behind it |
| `PluralParser.Extend` | intl/plural.c:764-841 | growing the stacks keeps their contents and fails only at the maximum depth |
| `PluralParser.Recover` | intl/plural.c:1125-1281 | error recovery pops the whole stack and gives up |
| `PluralParser.ReduceBy` | intl/plural.c:965-1119 | a reduction on the arrays is the reduction of the machine |
| `PluralParser.Decision` | intl/plural.c:851-922 | a lookahead token is read only in a state that needs one, and the move is that of the tables |
| `PluralParser.Round` | intl/plural.c:757-1119 | one round on arrays and variables is one step of the machine |
| `PluralParser.YyParse` | intl/plural.c:757-1330 | returns 0 exactly on the texts of the grammar that fit the stack, with their expression, and 2 exactly when the stack reaches its limit; it always ends |
| `PluralParser.ParseOutcome` | intl/plural.c:757-1119 | the machine's verdict in terms of trees |
| `PluralText.RenderIsScanned` | intl/plural.c:1343-1483 | the tokens of a tree, written with any blanks, are scanned back |
| `PluralText.TreeRoundTrip` | intl/plural.c:240-295 | any conforming tree, written out, is parsed back |
| `PluralText.RoundTrip` | intl/plural.c:240-295 | any expression, minimally parenthesised and written with any blanks, is parsed back |
| `PluralText.ParsedMeaning` | intl/eval-plural.h:27-108 | the value of a parsed text is the unsigned C value of its tokens |
| `PluralText.EndsOfText` | intl/plural.c:1343-1364 | the end of the string, a semicolon or a newline ends the tokens, behind any blanks |
| `PluralText.StrangersAreBad` | intl/plural.c:1381-1478 | half an operator, and any character of no token, is an error |
| `PluralVariants.NthIsVariant` | intl/dcigettext.c:1045-1060 | skipping k terminated strings reaches variant k |
| `PluralVariants.StoredVariants` | intl/dcigettext.c:1045-1060 | forms stored one behind the other, each with its NUL, are the variants in order |
| `PluralVariants.PluralLookup` | intl/dcigettext.c:1027-1062 | gives the variant that the expression selects, or the first when it is out of range |
| `CStrings.Strcmp` | intl/dcigettext.c:794-806 | is zero exactly for equal strings |
| `CStrings.StrcmpIsTransitive` | intl/dcigettext.c:794-806 | orders strings |
| `CStrings.StrcmpIsLexicographic` | intl/dcigettext.c:794-806 | is negative exactly if the first string is a proper start of the second or has the smaller character where they first differ |
| `CStrings.HoldsFirst` | intl/dcigettext.c:761-773 | a buffer holds a message first exactly if it is the message, or the message and a NUL begin it |
| `Probing.NoSmallProduct` | intl/dcigettext.c:747-748 | a prime divides no product of two smaller numbers |
| `Probing.SlotsDiffer` | intl/dcigettext.c:779-782 | with a prime size, fewer steps than places never come back |
| `Probing.EveryPlaceIsTried` | intl/dcigettext.c:747-783 | with a prime size every place is tried |
| `Probing.SlotIsModular` | intl/dcigettext.c:747-783 | place k is the hash and k increments modulo the size |
| `Probing.CompositeSizeMisses` | intl/dcigettext.c:747-783 | for every size that is not prime there is a probe that never meets place 0 |
| `Probing.ReachesAllIfPrime` | intl/dcigettext.c:747-783 | every probe reaches every place if and only if the size is prime |
| `Probing.ProbeEnds` | intl/dcigettext.c:750-783 | a probe of a table with a free place ends |
| `Probing.InsertKeeps` | intl/loadmsgcat.c:1320-1343 | an insertion at the first free place keeps every earlier string findable and makes the new one so |
| `Probing.InsertKeepsOrder` | intl/loadmsgcat.c:1320-1343 | a string that is added is met behind every earlier one of its hash, and later insertions keep that |
| `Probing.FreePlaceMeansAbsent` | intl/dcigettext.c:755-757 | a string in the table is met before any free place |
| `Catalogue.MatchesIsKey` | intl/dcigettext.c:761-773 | the length tests reject no entry whose first string is the message |
| `Catalogue.Probe` | intl/dcigettext.c:742-784 | the probe ends at a matching entry or at a free place with only other strings before it |
| `Catalogue.MetFirst` | intl/dcigettext.c:761-777 | the entry of a message that the probe meets is the first of them |
| `Catalogue.HashLookup` | intl/dcigettext.c:739-784 | returns what a search of all entries returns, the first of several with one key |
| `Catalogue.FindFree` | intl/loadmsgcat.c:1325-1342 | the insertion loop ends at the first free place of the probe |
| `Catalogue.AddOne` | intl/loadmsgcat.c:1320-1343 | a string is added to the table, which stays a table of all strings so far |
| `Catalogue.Augment` | intl/loadmsgcat.c:1317-1343 | the extended table indexes the static and the system dependent strings, which may coincide |
| `Catalogue.NarrowDown` | intl/dcigettext.c:800-806 | the half that is given up does not hold the message |
| `Catalogue.BinaryLookup` | intl/dcigettext.c:786-811 | on a sorted table returns what a search of all entries returns |
| `Catalogue.ComputeHash` | intl/hash-string.h:28-48 | the loop computes the hash function |
| `CatalogueMeaning.HashIsShifted` | intl/hash-string.h:38-39 | each character is a byte added behind the value shifted by four bits |
| `CatalogueMeaning.HashIsFolded` | intl/hash-string.h:38-45 | the four highest bits are put in again at the fifth place, so that 28 bits are left |
| `SysdepStrings.MeasureSegments` | intl/loadmsgcat.c:1137-1168 | the size of a string modulo that of a word, or that it is invalid, or that the system lacks a segment |
| `SysdepStrings.Measure` | intl/loadmsgcat.c:1118-1181 | counts the pairs that can be built and, modulo the size of a word, the memory that they, the tables and the hash table need |
| `SysdepStrings.SizesWrap` | intl/loadmsgcat.c:1118-1181 | valid pairs whose sizes add up to the whole modulus, and so count as nothing |
| `SysdepStrings.IsUsablePair` | intl/loadmsgcat.c:1207-1242 | the filling pass drops exactly the pairs that the sizing pass dropped |
| `SysdepStrings.Arena.Append` | intl/loadmsgcat.c:1291-1307 | bytes are added behind those already written, which stay, exactly if there is room |
| `SysdepStrings.Concatenate` | intl/loadmsgcat.c:1281-1308 | the memory receives the static parts and the values of the segments in order, never indexing outside the segment table, exactly if they fit |
| `SysdepStrings.FillString` | intl/loadmsgcat.c:1246-1312 | the entry describes the text of the string, in the file or in the memory, exactly if there is room |
| `SysdepStrings.FillAll` | intl/loadmsgcat.c:1202-1315 | every usable pair has its entries, in order, exactly if the pairs fit the memory |
| `SysdepStrings.Fill` | intl/loadmsgcat.c:1183-1315 | the filling pass stays inside the measured memory exactly if the sum of the sizes fits a word, and then uses it up with the counted number of entries |
| `LoadedDomain.Domain.FindIndex` | intl/dcigettext.c:739-811 | hash lookup and binary search are both the search of the whole table |
| `LoadedDomain.Domain.FindMsg` | intl/dcigettext.c:719-827 | a loaded catalogue gives the translation that the plain table of the file gives |
| `LoadedDomain.Domain.LoadSysdep` | intl/loadmsgcat.c:1065-1366 | sizing, filling and indexing leave a domain in which every message is found, unless a reference is invalid or the sum of the sizes does not fit a word |
| `LoadedDomain.Load` | intl/loadmsgcat.c:1027-1385 | refuses exactly the files with a major revision above 1, a minor one without a hash table, an unterminated segment name or an invalid reference, overruns its memory exactly in those others whose sizes do not fit a word, and loads all the rest into a valid domain |
| `LoadedDomain.MeasureFails` | intl/loadmsgcat.c:1118-1181 | a file of 65536 equal pairs is not refused, and its sizes do not fit a word |
| `LoadedDomain.Translate` | intl/hash-string.h:28-49 | with the library's hash function, loading and looking up is the meaning of every file that can be loaded |
| `CatalogueMeaning.FirstEntryAnswers` | intl/dcigettext.c:739-827 | the first entry that is the message, or holds it before a NUL, gives its translation |
| `CatalogueMeaning.NoEntryNoAnswer` | intl/dcigettext.c:755-757 | without such an entry there is no translation |
| `CatalogueMeaning.ExpandIsSpelled` | intl/loadmsgcat.c:1281-1308 | a string laid out as texts and references is loaded as its texts and the values, in order |
| `CatalogueMeaning.SegmentsFail` | intl/loadmsgcat.c:1145-1160 | the first reference outside the table makes the string invalid, and the first value that the system lacks leaves it out |
| `CatalogueMeaning.PairsThatCount` | intl/loadmsgcat.c:1125-1178 | the pairs that are loaded are those whose two strings can be built, in order, and none for a minor revision of 0 |
| `Bindings.FindBinding` | intl/bindtextdom.c:116-128 | the search that stops early finds the binding of the domain if there is one |
| `Bindings.Enqueue` | intl/bindtextdom.c:298-314 | the list stays sorted, the new binding is found and the others are as before |
| `Bindings.Replace` | intl/bindtextdom.c:130-211 | changing a binding in place changes the binding of its domain only |
| `Coherence.TransCmpIsTotal` | intl/dcigettext.c:255-277 | the comparison of the search tree is a strict total order whose zero is equality |
| `Coherence.CounterStays` | intl/bindtextdom.c:182-294 | a binding has a count exactly if it has a codeset |
| `Coherence.ReboundKeeps` | intl/bindtextdom.c:182-211 | after any change a converter with the current count still converts to the current codeset |
| `Coherence.NewCountIsFresh` | intl/bindtextdom.c:334-336 | a new count makes every known translation stale |
| `Coherence.RebindKeeps` | intl/bindtextdom.c:95-339 | converters and known translations stay right when a binding changes |
| `Coherence.UsedGrows` | intl/dcigettext.c:829-838 | a domain asked for the first time meets no converter made for another count than its own, if it shares no file |
| `Coherence.FileIsRight` | intl/dcigettext.c:829-1024 | the text is converted to the codeset of the moment, by a converter met or new, and all converters stay right |
| `Coherence.ChainIsRight` | intl/dcigettext.c:620-640 | the first of a file and its successors with a translation gives it, whatever was converted before |
| `Coherence.LocalesAreRight` | intl/dcigettext.c:578-692 | the first locale of the list with a translation decides, and C or POSIX ends the list |
| `Coherence.GetIsRight` | intl/dcigettext.c:426-716 | in every reachable state the result is that of the current bindings, cached or not, and the state stays coherent, if no domain asked for so far shares a file with another |
| `DomainFiles.SharesExactly` | intl/dcigettext.c:564-572 | two domains can have a file in common exactly if they are equal or one is the other below a category |
| `DomainFiles.ApartExactly` | intl/dcigettext.c:564-572 | no two of a set of domains can share a file exactly if none is another one below a category |
| `DomainFiles.PlainNamesAreApart` | intl/dcigettext.c:564-572 | domains without slashes share no files |
| `DomainFiles.CategoriesDiffer` | intl/dcigettext.c:1066-1121 | the categories have different names, and all other numbers share one |
| `CoherenceRuns.ApartIsRight` | intl/dcigettext.c:426-716 | every translation in every run over domains that share no file is that of the bindings of the moment |
| `CoherenceRuns.SharingMisleads` | intl/dcigettext.c:829-1024 | for any two domains that can share a file there is a run that binds both and translates the second into the codeset of the first |
| `CoherenceRuns.RightExactly` | intl/dcigettext.c:426-716 | every run over a set of domains is right in every world exactly if no two of them can share a file, that is, none is another one below a category |
| `CoherenceRuns.SamePath` | intl/dcigettext.c:564-572 | a domain in a directory below and one named after that directory have one file |
| `CoherenceRuns.BelowIsMisled` | intl/dcigettext.c:829-1024 | "x" bound to "/d/fr/LC_MESSAGES" and "fr/LC_MESSAGES/x" bound to "/d" make a run that goes wrong |
| `CoherenceReplies.ListIsSearched` | intl/dcigettext.c:578-692 | the search along a category value with any colons asks the files of its locales in order, up to C or POSIX |
| `CoherenceReplies.UntranslatedReply` | intl/dcigettext.c:694-715 | where no such file has the message, the reply is the message, or the plural for any number but one |
| `CoherenceReplies.NowhereReply` | intl/dcigettext.c:550-553 | the same where a relative directory has no working directory before it |
| `CoherenceReplies.TranslatedReply` | intl/dcigettext.c:618-690 | otherwise it is the text of the first such file in the codeset of the domain, or its variant for the number |
| `CoherenceReplies.NoMessageNoReply` | intl/dcigettext.c:446-448 | no message, no reply |
| `CoherenceReplies.UntranslatedInRun` | intl/dcigettext.c:426-716 | the same of any request in a run over domains that share no file |
| `CoherenceReplies.TranslatedInRun` | intl/dcigettext.c:426-716 | likewise |
| `CoherenceReplies.NothingInstalled` | intl/dcigettext.c:694-715 | where nothing is installed, one file is "one file" and two are "files" |
| `CoherenceReplies.DirectoryIsReplaced` | intl/bindtextdom.c:130-211 | a bound directory replaces any earlier one, is told from then on, and changes nothing else |
| `CoherenceReplies.CodesetIsReplaced` | intl/bindtextdom.c:182-211 | the same of a codeset |
| `CoherenceReplies.AskingChangesNothing` | intl/bindtextdom.c:130-339 | without a value the binding, or the default, is told and nothing changes |
| `CoherenceReplies.ChosenDomainIsUsed` | intl/textdomain.c:79-136 | the chosen domain is that of requests without one, and no name chooses "messages" |
| `Libintl.Library.Rebind` | intl/bindtextdom.c:95-339 | the list in place does what the state function does: the binding changes as asked, the others do not, and the count goes up exactly if something changed |
| `Libintl.Library.BindTextDomain` | intl/bindtextdom.c:343-348 | the directory is bound and returned, or only returned |
| `Libintl.Library.BindTextDomainCodeset` | intl/bindtextdom.c:352-357 | the codeset is bound and returned, or only returned |
| `Libintl.Library.TextDomain` | intl/textdomain.c:79-136 | the default domain is set and returned, and the count goes up unless it is only asked for |
| `Libintl.Library.FindMsg` | intl/dcigettext.c:829-1024 | the converters change in place as the state function says |
| `Libintl.Library.FindInChain` | intl/dcigettext.c:620-640 | a file and then its successors are asked in order |
| `Libintl.Library.FindInLocales` | intl/dcigettext.c:578-692 | the loop over the locales is the recursion over the category value |
| `Libintl.Library.DcIgettext` | intl/dcigettext.c:426-716 | one call is the state function, and its result that of the current bindings, if no two domains asked for so far share a file |
| `Rotation.SwapBlocks` | lib/getopt.c:333-362 | two blocks of equal length change places and all else stays |
| `Rotation.ShortBottom` | lib/getopt.c:326-345 | after swapping a short bottom block the rest of the exchange is the same exchange of a smaller range |
| `Rotation.ShortTop` | lib/getopt.c:346-362 | likewise for a short top block |
| `Rotation.Exchange` | lib/getopt.c:291-369 | A and B become B and A in place, each in its order, and the rest of the array stays |
| `GetoptScan.LongMatchIsRight` | lib/getopt.c:633-659 | the match is the first exact name, else the only abbreviated one, and is ambiguous or missing exactly as defined |
| `GetoptPartition.CallTakes` | lib/getopt.c:606-949 | one call reads on within an element, or is done with it and exactly its arguments, or with one element more exactly after an ambiguous -W name |
| `Getopt.MatchLong` | lib/getopt.c:636-659 | the loop over the long options decides as the definition of matching does |
| `Getopt.Scanner.FinishLong` | lib/getopt.c:672-726 | the argument of a long option is taken from behind the equals sign or from the next element |
| `Getopt.Scanner.TryLong` | lib/getopt.c:606-751 | an element is read as a long option, refused, or left to be read as short ones |
| `Getopt.Scanner.ReadW` | lib/getopt.c:778-816 | the argument of -W is the rest of the element or the next one |
| `Getopt.Scanner.ReadNamed` | lib/getopt.c:818-901 | that argument is read as a long option |
| `Getopt.Scanner.ReadShort` | lib/getopt.c:753-949 | the next option character with its argument |
| `Getopt.Scanner.DecodeOption` | lib/getopt.c:606-949 | one option is decoded as the reference says, and optind and nextchar move accordingly |
| `Getopt.Scanner.Settle` | lib/getopt.c:540-548 | the options since the last other element are moved before it |
| `Getopt.Scanner.SkipNons` | lib/getopt.c:550-556 | other elements are passed and remembered |
| `Getopt.Scanner.EndOfOptions` | lib/getopt.c:558-586 | the double hyphen ends the scan behind the options, whatever follows it |
| `Getopt.Scanner.EndOfList` | lib/getopt.c:576-586 | the end of the list sets optind to the first element that is no option |
| `Getopt.Scanner.Call` | lib/getopt.c:498-949 | one call does the next step of the reference scan and keeps options and others apart in order |
| `Getopt.Scanner.GetoptInternal` | lib/getopt.c:498-515 | the call that starts a scan chooses the ordering and drops the mark of the option string |
| `Getopt.ScanAll` | lib/getopt.c:498-949 | calling until -1 returns the events of the reference scan, whose first call alone leaves out a mark; the arguments end up as its options, its other elements and the rest, with optind behind the options |
| `Getopt.ScanDivided` | lib/getopt.c:498-949 | where the mark changes no call but the first and no ambiguous -W name is met, the arguments end up divided as they are read off the list: options with their arguments first, all else last |
| `GetoptFacts.StablePartition` | lib/getopt.c:529-604 | when permuting, what is taken for options and what is not are merged, each in order, into exactly the original list |
| `GetoptFacts.ScanPartitions` | lib/getopt.c:529-604 | for every ordering: nothing is lost or reordered, and only permuting moves elements |
| `GetoptFacts.ShortOverruns` | lib/getopt.c:846-854 | a call steps past the end exactly on a -W whose ambiguous argument ends the list |
| `GetoptFacts.NoWNoOverrun` | lib/getopt.c:498-949 | without -W no scan steps past the end |
| `GetoptFacts.AmbiguousWOverruns` | lib/getopt.c:846-854 | a list of two elements on which it does |
| `GetoptPartition.UnusedAfterAmbiguousW` | lib/getopt.c:846-854 | a call passes an element whose text makes no difference exactly behind an ambiguous -W name |
| `GetoptPartition.ClearWithoutW` | lib/getopt.c:776 | without -W in the option string, or any W among the arguments, no call meets an ambiguous -W name |
| `GetoptPartition.ScanDivides` | lib/getopt.c:529-604 | for every ordering a scan without ambiguous -W names ends and divides the arguments as they are read off the list |
| `GetoptPartition.DivisionLeaves` | lib/getopt.c:529-586 | what is left is elements that are no options, up to what followed the first double hyphen |
| `GetoptPartition.DivisionGroups` | lib/getopt.c:529-586 | what is taken for options is option elements each with its arguments, and the double hyphen |
| `GetoptPartition.ScanSeparates` | lib/getopt.c:529-604 | a permuting scan without ambiguous -W names partitions the arguments so, each part in order |
| `GetoptPartition.AmbiguousWTakesFile` | lib/getopt.c:846-854 | a list of three elements whose last, a file, is taken for an option |
| `GetoptMark.MissingAfterMark` | lib/getopt.c:509-515 | the reply to a missing argument depends on the call exactly if a colon follows the mark |
| `GetoptMark.MarkMattersExactly` | lib/getopt.c:509-515 | a call gives another result with the mark than without exactly if it lacks an argument and a colon follows, or reads the mark, which is not listed in the same form |
| `GetoptMark.MarkIsSilentExactly` | lib/getopt.c:509-515 | a whole scan is that of the string without its mark exactly if the mark changes no call but the first |
| `GetoptMark.UnseenIsSilent` | lib/getopt.c:509-515 | it changes none if no colon follows it and no option element has it |
| `GetoptMark.MarkIsTaken` | lib/getopt.c:509-515 | the element -a- with the option string "-a": its second call gives an option with the mark, an error without |
| `GetoptMark.MarkIsFound` | lib/getopt.c:509-515 | the whole scan of that element finds an option where the string without its mark has none |
| `GetoptRoundTrip.ScanCluster` | lib/getopt.c:753-949 | a cluster of option letters gives one event for each |
| `GetoptRoundTrip.ScanLong` | lib/getopt.c:621-726 | a long option, by any name that selects it and with or without a value, gives its event |
| `GetoptRoundTrip.ReportedIsSeen` | lib/getopt.c:716-726 | what the caller sees of each item: a letter or a value returned, or 0 and the value stored, with the argument and the index |
| `GetoptRoundTrip.WrittenIsScanned` | lib/getopt.c:498-949 | any list of options and other elements, written in any of the accepted ways, is scanned back |
| `GetoptReplies.ValueIsRefused` | lib/getopt.c:674-701 | a value for an option that takes none gives a question mark and its val in optopt |
| `GetoptReplies.LongArgumentIsMissing` | lib/getopt.c:702-715 | a missing argument gives a question mark, or a colon if the option string begins with one, and val in optopt |
| `GetoptReplies.NameIsRefused` | lib/getopt.c:660-751 | an unknown name, or one that begins several and is none, gives a question mark and 0 in optopt |
| `GetoptReplies.LetterIsRefused` | lib/getopt.c:761-777 | a letter that is not listed gives a question mark and itself in optopt, and the element is read on |
| `GetoptReplies.LetterArgumentIsMissing` | lib/getopt.c:925-941 | a letter without its argument gives a question mark or a colon, and itself in optopt |
| `GetoptReplies.DecodesW` | lib/getopt.c:778-816 | the argument of -W is the rest of the element or the next one, or missing |
| `GetoptReplies.NamedByW` | lib/getopt.c:818-895 | a name after -W gives the event of that long option |
| `GetoptReplies.UnknownByW` | lib/getopt.c:896-900 | an unknown name after -W is left to the caller as the argument of W |
| `GetoptReplies.OperandReplies` | lib/getopt.c:588-596 | an element that is no option is returned as 1, ends the scan, or is passed |
| `GetoptReplies.EndReplies` | lib/getopt.c:558-586 | the double hyphen ends every scan |
| `GetoptReplies.KindsOfElements` | lib/getopt.c:522-526 | an element is an option if it begins with a hyphen and is more than that |
| `GetoptReplies.StartChooses` | lib/getopt.c:391-406 | the start of the option string and the environment choose the ordering |
| `GetoptReplies.OneDashIsEnough` | lib/getopt.c:621-726 | with long_only one dash introduces a long option |
| `GetoptReplies.ReadAsLetters` | lib/getopt.c:606-751 | when an element behind one dash is read as letters |
| `GetoptReplies.ReadAsName` | lib/getopt.c:606-751 | behind two dashes it is read as a name if there are long options |
| `GetoptReplies.UpdateIsSeen` | lib/getopt.c:621-726 | --update gives its letter |
| `XSize.Xsum` | intl/xsize.h:52-61 | the sum, or the largest size if it is too large |
| `XSize.Xsum4` | intl/xsize.h:73-81 | the same for four sizes |
| `XSize.Xtimes` | intl/xsize.h:95-100 | the product, or the largest size if it is too large |
| `PrintfGrammar.ReadDirIsSound` | intl/printf-parse.c:117-499 | what is read as a directive is a directive of the grammar, and its text is what was read |
| `PrintfGrammar.ReadDirIsComplete` | intl/printf-parse.c:117-499 | every directive of the grammar is read back from its text, whatever follows |
| `PrintfArgs.RegisterRefuses` | intl/printf-parse.c:83-113 | an argument is refused exactly if it has another type already or there is no memory for it |
| `PrintfArgs.RegisterKeeps` | intl/printf-parse.c:83-113 | the argument has the type, and types once given stay |
| `PrintfParse.ParseIsSound` | intl/printf-parse.c:55-532 | the directives lie in order in the format with no percent sign between them, refer to arguments of one agreed type each, and are covered by the maxima |
| `PrintfParse.ParseIsComplete` | intl/printf-parse.c:55-532 | literal text and directives of the grammar are parsed as such; only their arguments can be refused |
| `PrintfParse.AcceptedIsWritten` | intl/printf-parse.c:55-532 | whatever is accepted consists of literal text and directives of the grammar |
| `PrintfParser.ScanPosn` | intl/printf-parse.c:134-156 | a number before a dollar sign, counted from zero, with zero and too large ones refused |
| `PrintfParser.ArgTable.RegisterArg` | intl/printf-parse.c:83-113 | the macro on the growing array does what the specification says, each store within the allocation |
| `PrintfParser.Parser.TakeWidth` | intl/printf-parse.c:195-247 | the width, its argument and the maximum length |
| `PrintfParser.Parser.TakePrecision` | intl/printf-parse.c:249-306 | the precision, its argument and the maximum length |
| `PrintfParser.Parser.TakeConversion` | intl/printf-parse.c:308-499 | the modifiers and the conversion decide the type of the argument |
| `PrintfParser.Parser.AddEntry` | intl/printf-parse.c:501-517 | the directive is stored, and there is room for one more |
| `PrintfParser.Parser.ReadDirective` | intl/printf-parse.c:117-518 | one directive is parsed as the specification says |
| `PrintfParser.ParseFormat` | intl/printf-parse.c:55-532 | succeeds exactly on the formats that the specification accepts, with its result, and ends the list with the end of the format |
| `PrintfFormats.IntegerTypes` | intl/printf-parse.c:308-481 | the types of integer conversions and of %n by their modifiers |
| `PrintfFormats.OtherTypes` | intl/printf-parse.c:425-492 | the types of the other conversions |
| `PrintfFormats.PositionsCountFromOne` | intl/printf-parse.c:134-156 | a position written as a number is counted from one |
| `PrintfFormats.ArgumentsInOrder` | intl/printf-parse.c:195-499 | without positions the width, the precision and the value take the next arguments in this order |
| `PrintfFormats.CharactersOfDirectives` | intl/printf-parse.c:158-492 | the flags, modifiers and conversions |
| `PrintfFormats.DirectivesAreWritten` | intl/printf-parse.c:117-499 | the order of the parts of a directive |
| `Vasnprintf.RebuiltFits` | intl/vasnprintf.c:152-153 | the rebuilt format with its additions fits the scratch buffer |
| `Vasnprintf.ScratchIsUsedUp` | intl/vasnprintf.c:152-153 | no smaller buffer would do |
| `Vasnprintf.BuildFormat` | intl/vasnprintf.c:505-567 | the buffer holds flags, width, precision, modifiers and conversion, followed by %n |
| `PrintfFormats.RebuiltIsRead` | intl/vasnprintf.c:505-567 | the rebuilt format is read as one directive with the same flags, width, precision and conversion, for an argument of the same promoted type |
| `PrintfFormats.PrefixesInOrder` | intl/vasnprintf.c:569-582 | the argument of the width is handed on before that of the precision |
| `Vasnprintf.Accumulator.EnsureAllocation` | intl/vasnprintf.c:187-210 | there is room, what was written is kept, and it fails only when the size saturates |
| `Vasnprintf.Accumulator.Put` | intl/vasnprintf.c:214-222 | text is added |
| `Vasnprintf.GrowthsEnd` | intl/vasnprintf.c:822-834 | each growth leaves exactly one fewer to come |
| `Vasnprintf.Accumulator.Attempt` | intl/vasnprintf.c:591-800 | one call of snprintf tells the length and leaves the text if it fits, or tells nothing, and %n is cut off when nothing comes back through it |
| `Vasnprintf.Accumulator.Round` | intl/vasnprintf.c:584-851 | one round of the loop adds the text, or leaves exactly one round fewer to come |
| `Vasnprintf.Accumulator.PutRendered` | intl/vasnprintf.c:584-851 | the text of a directive is added, after as many retries as growths are needed, and one more if %n is not understood; a directive without a text ends the memory |
| `Vasnprintf.ThreeRetries` | intl/vasnprintf.c:584-851 | three retries happen |
| `Vasnprintf.Execute` | intl/vasnprintf.c:226-851 | one directive adds its text, if it has one |
| `Vasnprintf.Format` | intl/vasnprintf.c:212-852 | all directives and the text between them are added in order, and %n stores the lengths so far; otherwise a directive has no text or memory is short |
| `Vasnprintf.VasnPrintf` | intl/vasnprintf.c:114-894 | a success is the whole output with its length and a NUL; a failure means a bad format, an output longer than an int, half of the address space, or a directive without a text, which is reported as lack of memory |
| `PrintfMeaning.OutputIsSpoken` | intl/vasnprintf.c:212-852 | the output is, piece by piece, the literal text and the texts of the directives |
| `PrintfMeaning.TextsOfSpecials` | intl/vasnprintf.c:226-262 | a percent sign stands for itself and %n for nothing |
| `PrintfMeaning.CountsAreSpoken` | intl/vasnprintf.c:243-262 | each %n stores the length of all that comes before it |
| `MaskBits.PopIsPopcount` | intl/l10nflist.c:154-165 | the bit trick counts the bits of any number of sixteen bits |
| `MaskBits.RankGrows` | intl/l10nflist.c:333-336 | the dominated masks are numbered by their rank |
| `LocalePool.SuccessorsFit` | intl/l10nflist.c:295-302 | the successors and the NULL behind them fit the node as allocated |
| `LocaleNames.NamesAgree` | intl/l10nflist.c:216-265 | a mask and a submask name one file exactly if they differ at most in the modifier beside an audience and in an empty sponsor beside a revision |
| `LocaleNames.SelfSuccessor` | intl/l10nflist.c:333-358 | exactly for which directories and masks a file is among its own successors |
| `LocaleLookup.NameIsSpelled` | intl/l10nflist.c:203-265 | the file name, part by part, for every mask |
| `LocaleLookup.AbsoluteName` | intl/l10nflist.c:182-185 | an absolute language takes no directory |
| `LocaleLookup.DecidedExactly` | intl/l10nflist.c:309-315 | a node is not looked up exactly for several directories or both codesets |
| `LocaleLookup.XpgSuccessors` | intl/l10nflist.c:320-358 | the seven files below one with a territory, a normalized codeset and a modifier, in order |
| `LocaleLookup.DirectoriesInTurn` | intl/l10nflist.c:337-350 | several directories are asked in turn |
| `LocalePool.Pool.Search` | intl/l10nflist.c:269-287 | the search finds the file or the place where it belongs |
| `LocalePool.Pool.Inherit` | intl/l10nflist.c:337-357 | a submask adds the files of all directories in order |
| `LocalePool.Pool.FillSuccessors` | intl/l10nflist.c:320-358 | the successors are the files of the legal submasks in decreasing order |
| `LocalePool.Pool.Make` | intl/l10nflist.c:168-361 | the list stays strictly decreasing, old nodes stay as they were, new ones are complete, and the recursion ends |
| `Fnmatch.ReadMember` | lib/fnmatch.c:131-168 | one member of a bracket expression is read with its bounds |
| `Fnmatch.MatchBracket` | lib/fnmatch.c:115-190 | a bracket expression matches exactly its set or the complement, and is passed as a whole |
| `Fnmatch.StarUnfolds` | lib/fnmatch.c:105-113 | an asterisk matches nothing, or a character and more |
| `Fnmatch.StarThenAny` | lib/fnmatch.c:97-100 | an asterisk and a question mark may change places |
| `FnmatchPatterns.OneCharacterEach` | lib/fnmatch.c:69-91 | a question mark matches any character, and a character or an escaped one itself |
| `FnmatchPatterns.AnyStringMatches` | lib/fnmatch.c:92-113 | an asterisk matches a start of any length |
| `FnmatchPatterns.BracketMatches` | lib/fnmatch.c:115-190 | a bracket expression matches a character exactly if one of its characters or ranges has it, or with a mark if none has |
| `FnmatchPatterns.PlainMatchesItself` | lib/fnmatch.c:192-200 | a pattern without special characters matches itself alone |
| `FnmatchPatterns.WildcardsAreWritten` | lib/fnmatch.c:69-113 | how wildcards and escapes are written |
| `FnmatchPatterns.BracketsAreWritten` | lib/fnmatch.c:115-190 | how bracket expressions are written |
| `Fnmatch.MatchStar` | lib/fnmatch.c:92-113 | an asterisk and what follows match exactly their language |
| `Fnmatch.Fnmatch` | lib/fnmatch.c:54-210 | zero exactly if the string is in the language of the pattern |
| `LsParser.SkipOneField` | src/lsparser.c:113-122 | a word and the spaces behind it are passed |
| `LsParser.ParsePermissions` | src/lsparser.c:124-137 | the shifting in 32 bits computes the mode |
| `LsParser.ModeBit` | src/lsparser.c:124-137 | each of the nine lowest bits is set exactly if there is a character other than a hyphen at its place, and no other bit is |
| `LsParser.ListingRoundTrip` | src/lsparser.c:146-202 | a written line with any spacing is read back to its name, its mode and the value of its size field |
| `LsParser.StrtolOfNumeral` | src/lsparser.c:189 | the digits of a number are read back to the number, or to the largest long |
| `LsParser.StrtolOfSigned` | src/lsparser.c:189 | the same behind a sign |
| `LsParser.SizeRoundTrip` | src/lsparser.c:146-202 | the line of a file written from its size gives back the size if and only if it fits a long |
| `LsParser.ListingIsNoHeading` | src/lsparser.c:204-230 | and such a line is taken for a file line |
| `LsParser.HeadingRoundTrip` | src/lsparser.c:66-111 | a heading below the top directory gives its path, unless the top directory begins with a drive and has more than slashes behind it |
| `LsParser.TopHeading` | src/lsparser.c:66-111 | the heading of the top directory gives none under the same condition |
| `LsParser.RelativeHeading` | src/lsparser.c:81-93 | the heading "./path:" gives its path, unless the top directory begins it |
| `LsParser.DotHeading` | src/lsparser.c:85-93 | the heading ".:" gives the top directory |
| `LsParser.ForeignHeading` | src/lsparser.c:81-106 | a heading outside the top directory gives its path without the first slash |
| `LsParser.DriveIsCut` | src/lsparser.c:75-79 | a letter, a colon and a slash are cut down to the slash |
| `LsParser.NoDriveNoCut` | src/lsparser.c:75-79 | and nothing else is |
| `LsParser.ShaveOf` | src/lsparser.c:208 | white space around a line is taken off |
| `LsParser.PlainHeading` | src/lsparser.c:225 | a name without spaces and a colon is a heading |
| `LsParser.Context.ReadFile` | src/lsparser.c:146-202 | the parser of file lines follows its specification, every cursor staying inside the line |
| `LsParser.Context.ReadHeading` | src/lsparser.c:66-111 | the current directory becomes the one named |
| `LsParser.Context.ReadLine` | src/lsparser.c:204-230 | blank lines and totals are passed, headings change the directory and all else is a file line |
| `LsParser.SpacedHeading` | src/lsparser.c:204-230 | the heading "a b:" behind a blank line is refused as a file line |
| `PfList.ListedOnce` | src/lsparser.c:237-271 | every file and directory is listed as often as it was added |
| `PfList.List.Add` | src/lsparser.c:237-271 | the linked list is the files, newest first, and then the directories as they came, with the tail its last node |

## Left out

- Memory: allocation succeeds unless a saturated size forces the error exit; freeing is not modelled.
- Locks, errno, messages on standard error, and the wide character and non-snprintf variants.
- Bison's tracing, its location stack and `YYERROR`, which no action uses.
- Reading, mapping and byte-swapping of catalogue files: a file is given by its tables, and that the tables lie inside it is taken from the file format.
- Parsing the header entry of a catalogue for its plural expression and its character set.
- `Libintl.Library.DcIgettext`: environment, working directory, catalogue files and conversion are fixed functions; of a file's name only its end, the category and the domain, is taken into account; and the counters do not wrap around.
- `Libintl.Library.FindMsg`: a failed conversion is part of the conversion function; the memory blocks of converted strings are not modelled.
- `Getopt.ScanAll`: not for scans in which a call steps past the end of the list, since the next call then reads behind it; and a null table of long options is not combined with `W;`, which the source would dereference.
- getopt's wrappers `getopt`, `getopt_long` and `getopt_long_only` only pass on their arguments.
- `PrintfParser.ParseFormat`: the number of `l` modifiers is not bounded by an int, and spans of widths and precisions are kept as their text.
- `Vasnprintf.VasnPrintf`: the texts of directives are a function of the format and the arguments; a `%n` that is understood stores the whole length, whether or not it fits.
- `LocalePool.Pool.Make`: nodes are named by their files instead of addressed by pointers, and lists are sequences.
- Exploding a locale name into its parts, normalizing a codeset, and locale aliases.
- `Fnmatch.Fnmatch`: no flags; no second asterisk in a run of wildcards, which would advance the string; no backslash in brackets, where an escaped closing bracket ends the set early; characters are compared by their code.
- `LsParser.Context.ReadLine`: the helper that trims white space and the one that splits off a word are given by what they promise; strtol reads no white space.
- sitecopy's synchronization engine, its drivers and user interfaces, and the remaining files of `lib/` and `intl/`.
