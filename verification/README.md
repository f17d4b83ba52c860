# CBuild's incremental build core, in Dafny

CBuild is a small C build tool. It reads a `cbuild` configuration file and
walks the source directory. For every C file it decides, from a timetable of
earlier compiles, whether the file needs compiling again. It compiles what is
stale, links the executable unless everything is up to date, and saves the
timetable for the next run.

This project models that core as immutable datatypes and pure functions, and
proves what the C code promises about it. The modules follow the source
files:

- `Wrappers` (`wrappers.dfy`): `Option` and `Result`, the error results that stand for `NULL` and `exit(1)`.
- `Seqs` (`seqs.dfy`): one regrouping fact about concatenation that the codecs use.
- `CbSplit` (`cbsplit.dfy`): the whitespace word iterator `cbsplit_t` (`src/util/cbsplit.c`).
- `CbStr` (`cbstr.dfy`): the NUL-counting string `cbstr_t` and its list (`src/util/cbstr.c`), plus `strncmp` and what a C reader sees of a buffer.
- `CbConf` (`cbconf.dfy`): the configuration resolver `cbconf_init` (`src/core/cbconf.c`).
- `TimeTable` (`timetable.dfy`): the timetable rows, push, search and the upsert `compile` does (`src/util/cbtimetable.c`, `src/util/cbtimetable.h`).
- `TimeTableText` (`timetable_text.dfy`): the text form written by `time_table_save` and read by `time_table_load`.
- `TimeTableBinary` (`timetable_binary.dfy`): the binary file layout documented in `src/util/cbtimetable.h`.
- `CbCore` (`cbcore.dfy`): `needs_compile`, `set_compiler_stub`, `compile` and `cb_main` (`src/core/cbcore.c`).
- `FileTime` (`filetime.dfy`): `filetime_to_time_t` (`src/os/time.h`).

A `cbstr_t` is `Str(data, len)`:

- `data` is the whole allocation, so its length is the capacity.
- `len` counts the bytes in use, the trailing NUL included.
- The visible text of a terminated string is `data[..len-1]`.

This accounting is kept exactly. It is what makes the object path slice in
`compile` land after the source root's separator.

The outside world enters as values:

- the directory walk is a `Tree` given as input;
- `file_exists` is a predicate `fileExists`;
- `system` is a function `system` from a command to its exit code;
- the timetable file is its bytes, or `None` when it cannot be opened.

The oracles receive the characters a C function sees of a buffer: those up
to its first NUL.

The platform is fixed to the Linux/UNIX branches.

Three behaviours of the code worth noting:

- `cb_main` returns 0 whatever happened (`src/core/cbcore.c:282`). A failed
  link therefore shows only in the `build_success` flag and in the outcome
  `Linked(exit)`; no failing exit status is modelled.
- Moving the executable aside when the cache is on happens only on Windows
  (`src/core/cbcore.c:170-176`), so the model does not do it.
- `save_timetable` only warns when it cannot open the file. The model's
  `Run.saved` is the bytes that would be written.

## Model

| member | source | states |
|---|---|---|
| `CbSplit.Init` | src/util/cbsplit.c:37-44 | a fresh view has no current word and the whole buffer remaining |
| `CbSplit.Next` | src/util/cbsplit.c:11-35 | the view advances by the previous word plus the whitespace skipped, and `remaining` drops by the same amount. It reports false exactly when only whitespace follows the current word; `remaining` is then 0. Otherwise the new word is non-empty, holds no whitespace, and is followed by whitespace or the end of the buffer |
| `CbSplit.NextFindsWord` | src/util/cbsplit.c:29-33 | the word `cbsplit_next` designates is the first whitespace-separated word of what is left |
| `CbSplit.CollectIsWords` | src/util/cbsplit.c:11-35 | from any view, the words the `while (cbsplit_next(...))` loop visits are the reference word list of the rest of the buffer |
| `CbSplit.SplitVisitsWords` | src/util/cbsplit.c:11-44 | iterating from `cbsplit_init` until `cbsplit_next` fails visits exactly the buffer's whitespace-separated words, in order |
| `CbSplit.SplitAll` | src/util/cbsplit.h:17-21 | the caller's loop over the view, as a method, collects exactly those words |
| `CbStr.FromCStr` | src/util/cbstr.c:15-32 | copies `n` bytes; the length is `n` when byte `n-1` is NUL and `n+1` otherwise; the result is terminated, tight, and carries the same text |
| `CbStr.Copy` | src/util/cbstr.c:34-43 | the copy has the same length and the same bytes in use, so `cbstr_cmp` holds between copy and source, and the same text |
| `CbStr.WithCap` | src/util/cbstr.c:45-53 | an empty string over a zeroed allocation of `cap` bytes |
| `CbStr.Clear` | src/util/cbstr.c:55-58 | the length becomes 0, the allocation is kept, the bytes that were in use are zeroed, and bytes past the old length are untouched |
| `CbStr.ConcatCStrLayout` | src/util/cbstr.c:137-158 | the new length is `a.len + n - 1`, plus one when `b` lacks a terminator, plus one when `a` was empty. The bytes before `a`'s terminator stay, `b`'s `n` bytes follow, and the allocation covers the new length |
| `CbStr.ConcatCStr` | src/util/cbstr.c:130-163 | appending 0 bytes changes nothing. Otherwise the new length is `ConcatLen`, the bytes before `a`'s terminator stay, `b`'s `n` bytes follow inside the allocation, and an added terminator is the last byte in use. A terminated string stays terminated and its text gains the C text of `b`'s `n` bytes (corrected terminator; see Findings) |
| `CbStr.Concat` | src/util/cbstr.c:66-68 | appending a terminated string appends its text |
| `CbStr.ConcatSlice` | src/util/cbstr.c:70-77 | no change when the offset is at or past `b`'s length; otherwise the text gains `b`'s bytes from the offset to its terminator, and `b`, a value, is left as it was |
| `CbStr.FormatLoop` | src/util/cbstr.c:88-124 | whatever the format, the scanner leaves a string whose length stays within its allocation |
| `CbStr.FormatLoopExpands` | src/util/cbstr.c:88-126 | for a format built of literal runs, `%s` holes and `%%` escapes, the loop reads one argument per hole and appends the literal text with each hole replaced by the next argument's text and each escape by `%` |
| `CbStr.StepHole` | src/util/cbstr.c:96-110 | at `%s` the pending literal run is flushed, the next argument appended, and the scan resumes after the `s` with one argument fewer |
| `CbStr.StepPercent` | src/util/cbstr.c:90-99 | at `%%` the pending run is flushed, one `%` appended, and the scan resumes after the second `%` |
| `CbStr.AppendPercent` | src/util/cbstr.c:90-99 | appending the two bytes `%` and NUL keeps a terminated string terminated and adds `%` to its text |
| `CbStr.PlainRun` | src/util/cbstr.c:113-123 | a run of bytes without `%` passes through the scanner untouched and reads no argument |
| `CbStr.FormatDemand` | src/util/cbstr.c:102-110 | the scanner reads exactly as many arguments as the format has holes |
| `CbStr.ConcatFormat` | src/util/cbstr.c:79-128 | for every piecewise description of the format, the result is terminated and its text is the old text plus the expansion |
| `CbStr.Compare` | src/util/cbstr.c:165-179 | the loop returns true exactly when the lengths are equal and every byte below the length is equal |
| `CbStr.SameText` | src/util/cbstr.c:165-179 | two terminated strings that compare equal have the same text |
| `CbStr.StrnEqPrefix` | src/core/cbconf.c:34 | for NUL-free text, `strncmp(keyword, token, len(token)) == 0` holds exactly when the token is a prefix of the keyword |
| `CbStr.StrnEqMeans` | src/core/cbconf.c:34 | the byte-by-byte `strncmp(a, b, n) == 0` holds exactly when every one of the first `n` positions that `a` reaches before its terminator holds the same byte in `b` |
| `CbStr.UntilNulStops` | src/util/cbtimetable.c:67 | what `%s` and the other C readers see of a buffer stops at its first NUL |
| `CbStr.CStrOfText` | src/util/cbtimetable.c:67 | a terminated string whose text holds no NUL is seen by a C reader as exactly its text |
| `CbStr.ListPush` | src/util/cbstr.c:197-205 | the string goes to index `len`, the length grows by one, and earlier items are unchanged |
| `CbStr.ListGet` | src/util/cbstr.c:207-210 | an item is returned exactly when the index is below the length, and it is the item at that index (corrected bound; see Findings) |
| `CbStr.GetAfterPushes` | src/util/cbstr.c:197-210 | after pushing a sequence of strings, getting index `len + k` returns the `k`-th pushed string |
| `CbStr.PushAllLength` | src/util/cbstr.c:197-205 | pushing `k` strings adds `k` to the length |
| `CbStr.ConcatCStrAsWritten` | src/util/cbstr.c:130-162 | the append as written. Without reallocation, when the new length equals the capacity the terminator is written one byte past the allocation; otherwise the last byte in use is left as it was. With reallocation the write stays inside the new capacity, but the last byte in use is whatever the reallocation left there |
| `CbStr.AdoptSevenCharRuleOverflows` | src/core/cbconf.c:40-43 | with no rule argument, adopting the 7-letter rule `release` writes the terminator at index 8 of the 8-byte `"default"` buffer; the corrected append keeps the text inside it |
| `CbStr.AppendFillsEmpty` | src/util/cbstr.c:145-162 | appending `k` NUL-free bytes to an empty string over `k` bytes reallocates; byte `k` is the reallocation's byte, the terminator lands at `k + 1`, and a C reader sees the text followed by that byte |
| `CbStr.AdoptLongRuleLeavesGarbage` | src/core/cbconf.c:40-43 | with no rule argument, adopting the 8-letter rule `optimize` grows the `"default"` buffer to 14 bytes and leaves byte 8 of the new length unset; the corrected append gives the text `optimize` |
| `CbStr.ListGetAsWritten` | src/util/cbstr.c:207-210 | the guard `item > len` accepts every index up to and including `len` |
| `CbStr.ListGetPastEnd` | src/util/cbstr.c:208 | index `len` is handed out as written but refused by the corrected bound |
| `CbConf.InitialRule` | src/core/cbconf.c:24-28 | the selected rule is the first argument cut to 64 characters, else `default`, as a tight terminated string |
| `CbConf.Initial` | src/core/cbconf.c:17-22 | the scan starts with cache off, empty define and flag lists, no source or project, and nothing skipped |
| `CbConf.RuleLine` | src/core/cbconf.c:40-46 | while the selection is `default`, `rule <name>` adopts the name and keeps the body; otherwise the selection stays and the body is skipped exactly when `strncmp(selected, name, len(name))` reports a difference |
| `CbConf.Argument` | src/core/cbconf.c:35-38 | a directive's argument is the next word; there is none exactly at the end of input, which is the end-of-input error |
| `CbConf.Selects` | src/core/cbconf.c:34-106 | an empty word selects every keyword, and a selecting word starts with the keyword's first letter |
| `CbConf.SelectsPrefix` | src/core/cbconf.c:34-106 | a non-empty word selects a directive exactly when it is a prefix of the keyword, so `src` selects `source` (the proof is `CbStr.StrnEqPrefix`'s) |
| `CbConf.KeywordsDisjoint` | src/core/cbconf.c:59-106 | the seven keywords start with seven different letters, so a word selects at most one directive |
| `CbConf.Step` | src/core/cbconf.c:32-57 | `rule <name>` and `endrule` are acted on whether or not a body is skipped, and `endrule` always ends skipping. While skipping, every other word is dropped; otherwise the word is acted on. `rule` as the last word fails with the end-of-input error, and that error arises only at the last word |
| `CbConf.Act` | src/core/cbconf.c:59-118 | a second `source` or `project` is fatal, and the first one sets the value. `cache on` and `cache off` set the flag; any other mode is fatal. `define` and `flag` append their argument. At the last word, `cache`, `define`, `flag` and a first `source` or `project` are the end-of-input error. An unknown directive is reported and stepped over |
| `CbConf.Run` | src/core/cbconf.c:32-119 | the loop keeps the state valid, only appends to the define and flag lists, never changes a source or project once set, and never changes a selection other than `default` |
| `CbConf.Scan` | src/core/cbconf.c:30-119 | the whole scan over the words of the buffer ends in a valid state or in one of the scan errors |
| `CbConf.Resolve` | src/core/cbconf.c:121-127 | the configuration exists exactly when the scan succeeded with both source and project set, and carries the scan's rule, defines and flags; a scan that ends without both is the missing-information error |
| `CbConf.IsDefaultText` | src/core/cbconf.c:40 | `strncmp(rule, "default", rule.len) == 0` holds exactly when the selected rule's text is `default` |
| `CbConf.RuleAdopted` | src/core/cbconf.c:40-43 | while the selection is `default`, `rule <name>` selects exactly `<name>` and keeps its body |
| `CbConf.RuleBodyKept` | src/core/cbconf.c:44-46 | once another rule is selected, `rule <name>` leaves it selected and keeps the body exactly when the name is a prefix of the selected rule |
| `CbConf.RequestedRuleKept` | src/core/cbconf.c:24-46 | a rule given on the command line, other than `default`, is the rule of the resolved configuration |
| `CbConf.FirstRuleAdopted` | src/core/cbconf.c:40-43 | without a rule argument, the first `rule <name>` line makes `<name>` the resolved rule |
| `CbConf.SkippedBody` | src/core/cbconf.c:55-57 | while a body is skipped, a run of words other than `rule` and `endrule` changes nothing |
| `CbConf.SkippedArgumentIsExamined` | src/core/cbconf.c:55-57 | a skipped directive does not take its argument with it: an argument that reads as `endrule` ends the skipping |
| `TimeTable.Empty` | src/core/cbcore.c:239 | the table used when no file can be read has no rows and no successful link |
| `TimeTable.Push` | src/util/cbtimetable.c:42-50 | the row goes to index `len`, the length grows by one, and earlier rows and the link status are unchanged |
| `TimeTable.SearchFrom` | src/util/cbtimetable.c:105-116 | the loop from row `i` returns the first row whose file and parent both compare equal to the keys, or `NULL` exactly when none does |
| `TimeTable.Search` | src/util/cbtimetable.c:105-116 | the first row whose file and parent both compare equal, and `NULL` only if no row matches both keys |
| `TimeTable.MatchesSymmetric` | src/util/cbstr.c:165-179 | `cbstr_cmp` is symmetric, so which row is the probe does not matter |
| `TimeTable.Signed` | src/util/cbtimetable.h:51 | a 64-bit pattern read back into a signed `time_t` gives the same pattern |
| `TimeTable.SignedU64` | src/util/cbtimetable.h:51 | storing a `time_t` as its 64-bit pattern and reading it back loses nothing |
| `TimeTable.Upsert` | src/core/cbcore.c:131-144 | after a successful compile, a row with copies of the keys and object is pushed when the search found none; otherwise only that row's object path and write time change |
| `TimeTable.UpsertFinds` | src/core/cbcore.c:131-144 | after the upsert the search finds a row for the keys, carrying the new object path and write time |
| `TimeTable.UpsertKeepsKeysUnique` | src/core/cbcore.c:131-144 | the upsert keeps the keys of the table unique |
| `TimeTable.UpsertAgain` | src/core/cbcore.c:140-144 | recording the same file again updates its row in place: the table does not grow |
| `TimeTable.UpsertKeepsKeys` | src/core/cbcore.c:131-144 | every earlier row keeps its index, file and parent |
| `TimeTable.KeysKeptFinds` | src/util/cbtimetable.c:105-116 | a file the table knows stays known while rows keep their keys |
| `TimeTable.UpsertKeepsObjectsTerminated` | src/core/cbcore.c:136-142 | the upsert stores only terminated object paths when given one |
| `TimeTableText.Digit` | src/util/cbtimetable.c:58 | a digit value prints as a decimal digit character of that value |
| `TimeTableText.ValueDec` | src/util/cbtimetable.c:58 | reading back the decimal digits `%lu` prints gives the number |
| `TimeTableText.DecReadsBack` | src/util/cbtimetable.c:81 | a printed number below 2^64 reads back unchanged |
| `TimeTableText.SkipBlanks` | src/util/cbtimetable.c:76 | a conversion's leading whitespace skip leaves no more input than it was given, and what is left does not start with whitespace |
| `TimeTableText.SkipBlanksSkips` | src/util/cbtimetable.c:76 | the skipped prefix is whitespace only |
| `TimeTableText.TakeWord` | src/util/cbtimetable.c:76 | `%Ns` takes at most `width` characters and splits its input; with input left it takes at least one |
| `TimeTableText.TakeWordSplits` | src/util/cbtimetable.c:76 | the word taken and the rest are the input |
| `TimeTableText.TakeWordTakes` | src/util/cbtimetable.c:76 | the word holds no whitespace and ends at whitespace, at the end of the input, or after `width` characters |
| `TimeTableText.TakeDigits` | src/util/cbtimetable.c:81 | the leading digits and the rest split the input |
| `TimeTableText.ScanField` | src/util/cbtimetable.c:90 | a matched `%Ns` reads between 1 and `width` characters and consumes input |
| `TimeTableText.ScanFieldReads` | src/util/cbtimetable.c:90 | `%Ns` fails exactly when only whitespace is left; otherwise it skips whitespace and reads a whitespace-free word that ends at whitespace, at the end, or after `width` characters |
| `TimeTableText.ScanNumber` | src/util/cbtimetable.c:81 | `%lu` yields a value below 2^64 and consumes input |
| `TimeTableText.Signed64` | src/util/cbtimetable.c:81 | after a sign, `%lu` gives the digits' value saturated at 2^64-1 when there is no `-` or it is out of range, 2^64 - v for a `-` before an in-range v > 0, and 0 for `-0` |
| `TimeTableText.ScanNumberSaturates` | src/util/cbtimetable.c:81 | digits for a number of 2^64 or more read as 2^64-1, as `strtoul` saturates |
| `TimeTableText.ScanSignedAt` | src/util/cbtimetable.c:81 | an optional `+` or `-` before the digits is accepted; `-` negates the value modulo 2^64, and an out-of-range magnitude saturates to 2^64-1 |
| `TimeTableText.ScanMinusOne` | src/util/cbtimetable.c:81 | `%lu` reads `-1` as 2^64-1 |
| `TimeTableText.MakeEntry` | src/util/cbtimetable.c:95-97 | the row built from the fields is valid, each field through `cbstr_from_cstr` over its `strnlen` |
| `TimeTableText.ScanEntry` | src/util/cbtimetable.c:90 | one `fscanf` of a row yields a valid row and consumes input |
| `TimeTableText.LoadEntries` | src/util/cbtimetable.c:83-100 | the loop reads at most the stored count of rows, each valid |
| `TimeTableText.LoadEntriesStep` | src/util/cbtimetable.c:90-99 | a row that scans is pushed and the loop continues after it |
| `TimeTableText.LoadEntriesStops` | src/util/cbtimetable.c:90-93 | a row that does not scan ends the loop: nothing from it or after it is pushed |
| `TimeTableText.LoadSavedRow` | src/util/cbtimetable.c:65-99 | a saved portable row in front of more text loads as that row followed by what the rest loads as |
| `TimeTableText.Load` | src/util/cbtimetable.c:71-103 | loading appends after the rows already in the table, keeps them and the link status, and appends at most the count it read |
| `TimeTableText.LoadOf` | src/util/cbtimetable.c:81-83 | when the count parses, the appended rows are the loop's rows over that count |
| `TimeTableText.ScanFieldAt` | src/util/cbtimetable.c:90 | `%Ns` over an optional blank, a fitting word and a delimiter reads exactly that word |
| `TimeTableText.ScanNumberAt` | src/util/cbtimetable.c:81 | `%lu` over the printed digits of `n` reads `n` |
| `TimeTableText.ScanEntryAt` | src/util/cbtimetable.c:90 | a row's four words, each led by a blank, read back as the row built from them |
| `TimeTableText.PortableRoundTrip` | src/util/cbtimetable.c:95-97 | the printed text of a portable string, reloaded with `strnlen`, gives the same string |
| `TimeTableText.ScanSavedEntry` | src/util/cbtimetable.c:65-68 | scanning a saved portable row reads back the same row |
| `TimeTableText.LoadSavedEntries` | src/util/cbtimetable.c:83-100 | the loop over the saved rows returns them in order |
| `TimeTableText.SaveEntry` | src/util/cbtimetable.c:66-67 | a portable row prints without a NUL |
| `TimeTableText.SaveAll` | src/util/cbtimetable.c:65-68 | the portable rows print without a NUL |
| `TimeTableText.Save` | src/util/cbtimetable.c:52-69 | the first word of the text is the row count in decimal, and portable rows print without a NUL |
| `TimeTableText.PrintedRow` | src/util/cbtimetable.c:67 | `%s %s %s %lu ` of a portable row is NUL-free and its words are the three texts and the decimal write time |
| `TimeTableText.SaveEntryWordsAre` | src/util/cbtimetable.c:67 | a saved portable row's words are its four fields, and it ends with a blank |
| `TimeTableText.SaveAllWords` | src/util/cbtimetable.c:65-68 | the words of the saved rows are their fields, row after row |
| `TimeTableText.SaveWords` | src/util/cbtimetable.c:52-69 | the words of the saved text are the count, then every row's four fields in row order |
| `TimeTableText.SaveLoadRoundTrip` | src/util/cbtimetable.c:52-103 | saving rows whose strings are non-empty, whitespace-free and at most 259 characters, and loading the text into an empty table, gives the same rows in the same order |
| `TimeTableText.FieldFits` | src/util/cbtimetable.c:85-90 | with width 259 a field and its terminator always fit the 260-byte array |
| `TimeTableText.ScanFieldAsWritten` | src/util/cbtimetable.c:76 | `%260s` as written may store up to 261 bytes |
| `TimeTableText.LongFieldOverflows` | src/util/cbtimetable.c:85-90 | a saved field of 260 characters makes `%260s` store 261 bytes into a 260-byte array |
| `TimeTableBinary.Widths` | src/util/cbtimetable.h:19-35 | the 1-, 2-, 4- and 8-byte fields hold numbers below 256, 2^16, 2^32 and 2^64 |
| `TimeTableBinary.LittleEndian` | src/util/cbtimetable.h:19-30 | a number in `k` bytes takes exactly `k` bytes |
| `TimeTableBinary.FromLittleEndianOf` | src/util/cbtimetable.h:19-30 | reading the bytes a number was written as gives the number |
| `TimeTableBinary.LittleEndianOf` | src/util/cbtimetable.h:19-30 | every byte sequence is the encoding of the number it stands for |
| `TimeTableBinary.ToBytes` | src/util/cbtimetable.h:33-34 | each character is stored as its low 8 bits |
| `TimeTableBinary.ToChars` | src/util/cbtimetable.h:33-34 | each byte is read back as the character of that value |
| `TimeTableBinary.CharsOfBytes` | src/util/cbtimetable.h:33-34 | characters a C `char` holds survive storing and reading |
| `TimeTableBinary.Take` | src/util/cbtimetable.h:29-30 | the next `k` bytes exist exactly when `k` bytes are left, and split the input |
| `TimeTableBinary.ReadNumber` | src/util/cbtimetable.h:19-30 | a `k`-byte field reads a number below 256^k and consumes `k` bytes |
| `TimeTableBinary.DecodeStr` | src/util/cbtimetable.h:33-34 | a length-prefixed string decodes to a tight, terminated, non-empty string of C characters and consumes input; a string whose last byte is not NUL is refused |
| `TimeTableBinary.DecodeEntry` | src/util/cbtimetable.h:32-42 | an entry decodes to a valid row whose object path is terminated, and consumes input |
| `TimeTableBinary.DecodeEntries` | src/util/cbtimetable.h:29-30 | decoding `count` entries yields exactly `count` valid rows with terminated object paths, or fails |
| `TimeTableBinary.Decode` | src/util/cbtimetable.h:19-42 | whatever decodes is a valid table whose object paths are terminated |
| `TimeTableBinary.EncodeStr` | src/util/cbtimetable.h:33-34 | a string takes 4 + `len` bytes; the first four read back as `len` modulo 2^32, and the rest read back as the bytes in use when those are C characters |
| `TimeTableBinary.EncodeEntry` | src/util/cbtimetable.h:32-42 | an entry takes 8 bytes plus the three strings' sizes, and its first 8 bytes read back as the write time's 64-bit pattern |
| `TimeTableBinary.EncodeEntries` | src/util/cbtimetable.h:29-42 | the entries take the sum of their sizes |
| `TimeTableBinary.Header` | src/util/cbtimetable.h:16-30 | the header is 9 bytes: `74 54 03 00`, that is magic `0x5474` and version 3 in two bytes each, then the count modulo 2^32 in four bytes, then a status byte that is nonzero exactly on success |
| `TimeTableBinary.Encode` | src/util/cbtimetable.h:16-42 | the file opens with the header of the table's row count and status, and its size is 9 plus, per row, 8 + 3 * 4 bytes and the three string lengths |
| `TimeTableBinary.StorableEntries` | src/util/cbtimetable.h:50-59 | rows the layout stores exactly are valid rows |
| `TimeTableBinary.TakeAt` | src/util/cbtimetable.h:29-30 | taking the length of a prefix returns that prefix and the rest |
| `TimeTableBinary.ReadNumberAt` | src/util/cbtimetable.h:19-30 | reading a field written for `n` gives `n` and the bytes after it |
| `TimeTableBinary.DecodeStrAt` | src/util/cbtimetable.h:33-34 | a stored string decodes to itself |
| `TimeTableBinary.UnterminatedRefused` | src/util/cbtimetable.h:33 | a string stored without its terminating NUL, or empty, does not decode |
| `TimeTableBinary.DecodeEntryAt` | src/util/cbtimetable.h:32-42 | a stored entry decodes to itself: time first, then file, parent and object |
| `TimeTableBinary.DecodeEntriesCons` | src/util/cbtimetable.h:29-42 | a stored entry in front of bytes that decode to some entries decodes to it followed by them |
| `TimeTableBinary.DecodeEntriesStep` | src/util/cbtimetable.h:29-30 | an entry that decodes is the first of the entries read |
| `TimeTableBinary.DecodeEntriesAt` | src/util/cbtimetable.h:29-42 | stored entries decode to the same entries in the same order |
| `TimeTableBinary.DecodeSteps` | src/util/cbtimetable.h:19-30 | the decoder reads magic, version, count, status byte and entries in that order |
| `TimeTableBinary.EncodeFields` | src/util/cbtimetable.h:19-30 | the file of a storable table is the magic, version, count, status byte and entries, one after another |
| `TimeTableBinary.DecodeEncode` | src/util/cbtimetable.h:19-66 | decoding the encoding of a storable table gives the same rows in the same order and the same `build_success` |
| `TimeTableBinary.DecodeChecksHeader` | src/util/cbtimetable.h:16-24 | a file shorter than the header, or with another magic number or version, is refused |
| `TimeTableBinary.DecodedHeader` | src/util/cbtimetable.h:16-24 | whatever decodes starts with the magic number and version 3, byte for byte |
| `CbCore.Format` | src/core/cbcore.c:84 | `cbstr_concat_format` with a format of literal runs and holes appends the expansion |
| `CbCore.Blanks` | src/core/cbcore.c:84 | the empty arguments used to state a format's rendering are terminated |
| `CbCore.Around` | src/core/cbcore.c:84 | the format `pre%spost` has one hole and renders as written |
| `CbCore.ExpandAround` | src/core/cbcore.c:84 | `pre%spost` expands to `pre`, the argument's text and `post` |
| `CbCore.FormatOne` | src/core/cbcore.c:84 | formatting `pre%spost` with a terminated string appends `pre`, its text and `post` |
| `CbCore.FormatEach` | src/core/cbcore.c:43-49 | a loop of `pre%spost` over a list keeps the buffer terminated |
| `CbCore.FormatEachListed` | src/core/cbcore.c:43-49 | the loop from item `i` appends `pre<item>post` for every later item, in list order |
| `CbCore.FormatAll` | src/core/cbcore.c:181-183 | the loop over the whole list appends every item, in list order |
| `CbCore.SetCompilerStub` | src/core/cbcore.c:38-50 | the stub keeps the command buffer terminated |
| `CbCore.StubText` | src/core/cbcore.c:38-50 | the stub is `gcc -c `, then `-D<define> ` for every define and `<flag> ` for every flag, in configuration order |
| `CbCore.ObjectDir` | src/core/cbcore.c:88-101 | the object directory is terminated and its text has at least the 11 characters of `obj/linux/` and the rule's `/` |
| `CbCore.ObjectDirText` | src/core/cbcore.c:93-101 | the object directory is `obj/linux/<rule>/` followed by the parent's bytes past the source root's length |
| `CbCore.MarkObject` | src/core/cbcore.c:109 | `object.data[object.len-2] = 'o'` turns the last visible character into `o` |
| `CbCore.MarkAfter` | src/core/cbcore.c:109 | marking the whole path changes only the file name's last character |
| `CbCore.ObjectPath` | src/core/cbcore.c:88-111 | the object path of a file is terminated |
| `CbCore.SliceOfNested` | src/core/cbcore.c:101 | for a directory `<source>/<rel>`, the bytes past the source root's length are exactly `rel`, thanks to the counted terminator |
| `CbCore.ObjectPathNested` | src/core/cbcore.c:101-109 | a file in `<source>/<rel>` gets `obj/linux/<rule>/<rel>/` and its name with the last character set to `o` |
| `CbCore.ObjectPathAtRoot` | src/core/cbcore.c:101-109 | a file in the source root gets `obj/linux/<rule>/` and its name with the last character set to `o`, with no separator |
| `CbCore.CommandFormat` | src/core/cbcore.c:114 | the format `%s -o %s` has two holes |
| `CbCore.CompileCommand` | src/core/cbcore.c:113-114 | the command is the stub, the source path, ` -o ` and the object path |
| `CbCore.IsC` | src/core/cbcore.c:79 | for a terminated name, the file counts as C source exactly when its last visible character is `c` |
| `CbCore.NeedsCompile` | src/core/cbcore.c:24-36 | the result is true exactly when the table has no row for the file and directory, or the file is newer than its row, or the object file does not exist; so it is false exactly for a found row that is not older and an object that exists |
| `CbCore.ParentOf` | src/core/cbcore.c:81 | the directory of a file is a terminated string of the walk |
| `CbCore.PathOf` | src/core/cbcore.c:83-84 | the source path is `<parent>/<name>` |
| `CbCore.Job` | src/core/cbcore.c:83-114 | the object path, and the command made of the stub, `<parent>/<name>`, ` -o ` and that object path |
| `CbCore.UpsertFacts` | src/core/cbcore.c:131-144 | recording a compiled file keeps the rows' keys, finds the file afterwards, and keeps keys unique |
| `CbCore.RunCompile` | src/core/cbcore.c:124-149 | the new object joins the link set and the command is issued. Exit 0 records the file with the new object and write time; any other exit leaves the table and marks the loop failed |
| `CbCore.Decide` | src/core/cbcore.c:116-149 | an up-to-date file adds a copy of its row's object to the link set and changes nothing else; a stale one adds the new object, issues the command, and is recorded when it exits with 0 |
| `CbCore.DecideKeepsTerminated` | src/core/cbcore.c:118-142 | a turn adds only terminated strings to the link set and the table |
| `CbCore.StepFileSkipsUpToDate` | src/core/cbcore.c:116-149 | a C file with a row no older than it and an existing object file issues no command and only adds a copy of the row's object to the link set; any other C file issues exactly its compile command; these are the only two cases |
| `CbCore.DecideSkipsUpToDate` | src/core/cbcore.c:116-149 | for any object path and command, a turn issues no command exactly when the file has a row no older than it and the object exists; then it only adds a copy of the row's object, and otherwise it issues exactly that command |
| `CbCore.StepFile` | src/core/cbcore.c:76-149 | a file whose character at `len-2` is not `c` changes nothing. Any other file adds one object, issues at most one command, and fails exactly when that command exits non-zero; when it does not fail the file has a row |
| `CbCore.CompileFiles` | src/core/cbcore.c:70-150 | the loop only extends the link set and the commands, keeps the rows' keys and `build_success`, and without a failure adds one object per C file |
| `CbCore.TurnSettled` | src/core/cbcore.c:145-149 | a turn issues at most one command and fails exactly when it exits non-zero |
| `CbCore.ThenSettled` | src/core/cbcore.c:145-149 | a turn that did not fail, followed by the rest of the loop, settles together |
| `CbCore.LoopStopsAtFailure` | src/core/cbcore.c:145-149 | every command the loop issued before the last exited with 0, and the loop failed exactly when the last one did not |
| `CbCore.RecordedKept` | src/core/cbcore.c:131-144 | a recorded file stays recorded while rows keep their keys |
| `CbCore.AllRecordedFrom` | src/core/cbcore.c:70 | a recorded file followed by recorded files makes all of them recorded |
| `CbCore.LoopRecordsEveryFile` | src/core/cbcore.c:131-144 | without a failure, every C file from `i` on has a row in the table the loop leaves |
| `CbCore.StepKeepsKeysUnique` | src/core/cbcore.c:131-144 | one turn never gives two rows the same keys |
| `CbCore.StepKeepsTerminated` | src/core/cbcore.c:118-136 | one turn adds only terminated strings |
| `CbCore.LoopKeepsTerminated` | src/core/cbcore.c:118-136 | the link set the loop builds holds terminated strings only, when the table's object paths are terminated |
| `CbCore.LoopKeepsKeysUnique` | src/core/cbcore.c:131-144 | the loop never gives two rows the same keys |
| `CbCore.Stub` | src/core/cbcore.c:66-68 | the command buffer of `COMMAND_SIZE` bytes holding the stub is terminated |
| `CbCore.Start` | src/core/cbcore.c:61-62 | the loop starts with the loaded table, an empty link set, nothing built and nothing issued |
| `CbCore.Loop` | src/core/cbcore.c:61-150 | the loop over the whole tree keeps `build_success` and the rows' keys; `built` holds exactly when a command was issued; without a failure there is one object per C file |
| `CbCore.ProjectFile` | src/core/cbcore.c:155-157 | the executable is `<project>-<rule>.out` |
| `CbCore.LinkCommand` | src/core/cbcore.c:178-183 | the link command is terminated when every object is |
| `CbCore.LinkCommandText` | src/core/cbcore.c:178-183 | the link command is `gcc -g -o <project> ` and `<object> ` for every object in link order |
| `CbCore.Finish` | src/core/cbcore.c:163-188 | the link is skipped exactly when nothing was built, the last link succeeded and the executable exists. Otherwise the link command is issued and `build_success` becomes whether it exited with 0. Rows and the link set are unchanged |
| `CbCore.Compile` | src/core/cbcore.c:52-200 | the table keeps its rows' keys. `build_success` changes only when the link runs, and then becomes whether the last command exited with 0. Unless a compile failed, the link set has one object per C file |
| `CbCore.CompileKeepsKeysUnique` | src/core/cbcore.c:131-144 | a run of `compile` never gives two rows the same keys |
| `CbCore.CompileAborts` | src/core/cbcore.c:145-149 | `compile` returns without linking exactly when a compile failed: that command is the last one issued, and every earlier one exited with 0 |
| `CbCore.CompileSkipsLink` | src/core/cbcore.c:163-167 | the link is skipped exactly when the loop issued no command, the previous `build_success` is true and `<project>-<rule>.out` exists |
| `CbCore.CompileLinks` | src/core/cbcore.c:178-186 | when the link runs, its command is `gcc -g -o <project>-<rule>.out ` and every object of the link set in walk order, one per C file |
| `CbCore.FinishLinks` | src/core/cbcore.c:178-186 | the link `Finish` issues is the last command, and it lists every object of the link set |
| `CbCore.CompileRecordsEveryFile` | src/core/cbcore.c:131-144 | a run that did not abort leaves a row for every C file of the tree |
| `CbCore.RecordedSameRows` | src/core/cbcore.c:163-188 | the link does not touch the rows, so every file stays recorded |
| `CbCore.LoadTimetable` | src/core/cbcore.c:229-241 | the loaded table is valid and its object paths are terminated, and a file that cannot be opened gives the empty table with `build_success` false |
| `CbCore.LoadRejectsForeignFile` | src/util/cbtimetable.h:16-17 | a short file, or one with another magic number or version, loads as an empty table |
| `CbCore.LoadSaved` | src/core/cbcore.c:229-254 | what `save_timetable` writes, `load_timetable` reads back |
| `CbCore.TimetablePath` | src/core/cbcore.c:266-267 | the timetable of a rule lives at `.cbuild/<rule>-timetable` |
| `CbCore.RunBuild` | src/core/cbcore.c:264-273 | the source root is walked, the rule's timetable is loaded, `compile` runs on both, and the table it leaves is saved whatever the outcome |
| `CbCore.CbMain` | src/core/cbcore.c:256-283 | a configuration error stops the program before anything is walked, loaded or saved; otherwise the run is the walk, load, compile and save sequence |
| `CbCore.SavedTableIsNextLoaded` | src/core/cbcore.c:269-273 | the next run starts from the table this run saved, even after a failed compile, when the table fits the file layout |
| `CbCore.AbortedRunKeepsTimetable` | src/core/cbcore.c:271-273 | a run whose compile failed still saves a table that keeps every row it loaded and the previous link status |
| `FileTime.CDiv` | src/os/time.h:10 | C's `/`: the quotient truncated toward zero, bracketed from below for non-negative and from above for negative dividends |
| `FileTime.FiletimeToTimeT` | src/os/time.h:8-12 | the result is the file time's whole seconds, truncated toward zero, less 11644473600, and fits 64 bits |
| `FileTime.UnixEpoch` | src/os/time.h:5-12 | the file time 116444736000000000 converts to 0 |
| `FileTime.SameQuotient` | src/os/time.h:10 | at most one whole number of seconds brackets a tick count |
| `FileTime.NextSecond` | src/os/time.h:5-12 | for non-negative file times, 10000000 more ticks are exactly one more second |
| `FileTime.Monotone` | src/os/time.h:8-12 | a later file time never converts to an earlier `time_t` |
| `FileTime.TruncatesTowardZero` | src/os/time.h:10 | one tick before 1601 converts to the same second as 1601 itself, where flooring division would give one second less |

## Left out

- Directory walking, `create_dir` and `file_exists` are operating-system calls. The walk result is the input `Tree`. Its validity, that every parent index names a directory and every name is terminated, is what `walk_dir` guarantees. Existence is the predicate `fileExists`. The directories `compile` creates are not modelled.
- `system`, `printf`/`eprintf` and the file reads and writes in `load_config`, `load_timetable` and `save_timetable` are I/O. Exit codes come from the `system` oracle; messages are not modelled. The configuration file is its characters, and the timetable file is its bytes.
- The Windows and macOS branches are left out: `DeleteFileA`/`MoveFileA`, the cache relocation, the `.exe` suffix and `obj\win32` paths. So is the `temp` string, which only Windows uses.
- `cbstr_localize_path` has no body in the source, so it is the identity, as on Linux.
- The debug allocator, `cbstr_free`, the list and table `free` functions, and capacity growth are memory management, with one exception given on the next line. The model keeps `capacity >= len` as `Str.Valid`. The corrected append writes every byte up to the new length, so the bytes `realloc` adds do not matter there and are modelled as NUL. The as-written append takes them as the parameter `grown`, since one of them stays in use.
- A source directory whose walk finds exactly one regular file, such as one holding only `main.c`, is modelled as the evidently intended build, not as the code behaves. `compile` creates the link list with capacity `files->entries.len >> 1`, which is 0 here (`src/core/cbcore.c:61`). The first `cbstr_list_push` then computes the new capacity `(0 << 2) - (0 >> 1) == 0` and calls `REALLOC(strings, 0)` (`src/util/cbstr.c:198-200`). On glibc that frees the block and returns NULL, so `list->strings[list->len] = str` (`src/util/cbstr.c:203`) writes through a null pointer. This push is reached from `src/core/cbcore.c:118` or `src/core/cbcore.c:125`. `CbCore.Compile` keeps no list capacity and returns the normal build for this input.
- `compile` rewinds the command buffer with `command.len = stub_len` before each file. The model formats each command onto the stub afresh, which gives the same bytes in use. The link command is built on the cleared stub buffer.
- `tt_init`, `tt_load` and `tt_save` have no bodies in the source. The binary module is the documented layout with little-endian fields, which is an assumption about the host. The layout comment writes the magic number as `54 74`; stored little-endian, the value `0x5474` gives the bytes `74 54`, which is what the model writes and checks. A table that cannot be opened or decoded loads as `TimeTable.Empty`, with `build_success` false.
- `time_table_load` leaves its `len` uninitialised when the count does not parse. The model takes that value as the parameter `fallback`.
- TimeTableText.Load: requires a NUL-free input. The C `%s` and `%lu` conversions do not stop at an embedded NUL, while the model's text readers would have to say what one does; NUL-free input is what `time_table_save` writes.
- TimeTableText.SaveLoadRoundTrip: holds for rows whose strings are terminated, tight, non-empty, free of whitespace and NUL, and at most 259 characters, with write times within `time_t`. Other rows do not survive `%s`/`%260s`. `%lu` prints the 64-bit pattern of a negative time, and the model reads it back through `Signed`.
- CbConf.InitialRule: requires a non-empty first argument. For `argv[1] == ""`, `strnlen` is 0 and `cbstr_from_cstr` reads `cstr[-1]`, which is undefined behaviour.
- TimeTableText.ScanNumber: follows `strtoul` for `%lu`: an optional sign, `-` negating modulo 2^64, and saturation at 2^64-1 out of range. ISO C section 7.21.6.2 leaves an out-of-range conversion undefined, so this is glibc's choice, not a promise of the standard. `ERANGE` is not modelled.
- An unknown directive that is the last word of the configuration is printed by writing a NUL over `view.data[view.len]` (`src/core/cbconf.c:114-117`). The buffer is `MALLOC(data_size)` with no room for a terminator (`src/core/cbcore.c:218-219`), so that byte is one past the allocation. The model only reports the directive and does not model this out-of-bounds write.
- `CbSplit` and `CbConf` read characters, not `char` bytes. `isspace` is the C locale's six whitespace characters.
- CbCore.CompileLinks: requires the loaded table's object paths to be terminated. `LoadTimetable` ensures this for every table it returns, because the decoder refuses a string whose last byte is not the NUL the layout documents, and `compile` records only terminated paths. An unterminated object would make `%s` read past it.
- TimeTableBinary.DecodeEncode: holds for tables whose strings are terminated and non-empty. The layout documents every stored string as NUL-terminated, and the decoder refuses any other, so other strings do not survive a save and a load.
- CbCore.StepFile: requires file names of at least two bytes, one character and its NUL, as the walk returns them. The C code reads `name->data[name->len-2]` without checking.
- FileTime.FiletimeToTimeT: requires the file time to fit `long long`, which is the C parameter type.
- `cb_main`'s return value is always 0 and is not modelled.

## Findings

| source | as written | input that shows it | evidently intended | confidence | as-written member | corrected member |
|---|---|---|---|---|---|---|
| src/util/cbstr.c:160-162 | the added terminator is written at `data[new_len]`, one byte past the bytes in use, and `data[new_len - 1]` is never set | with no rule argument, `rule` is `"default"` in 8 bytes. `rule release` clears it and appends 7 bytes: `new_len` is 8, nothing is reallocated, and byte 8 is written outside the allocation. `rule optimize` appends 8 bytes: the buffer grows to 14, and byte 8, the last in use, is whatever `realloc` left, so `%s` may read the rule with a stray character | write the terminator at `data[new_len - 1]` | high; not executed | `CbStr.ConcatCStrAsWritten`, `CbStr.AdoptSevenCharRuleOverflows`, `CbStr.AdoptLongRuleLeavesGarbage` | `CbStr.ConcatCStr` |
| src/util/cbstr.c:208 | `cbstr_list_get` refuses only `item > len` | `item == len` returns a pointer to the unpushed slot, past the allocation when `len == cap` | refuse `item >= len` | high; not executed | `CbStr.ListGetAsWritten`, `CbStr.ListGetPastEnd` | `CbStr.ListGet` |
| src/util/cbtimetable.c:76 | fields are read with `%260s` into `char name[260]` | a saved file, directory or object name of 260 characters: `%260s` stores 260 characters and a NUL, 261 bytes | `%259s`, leaving room for the terminator | high; not executed | `TimeTableText.ScanFieldAsWritten`, `TimeTableText.LongFieldOverflows` | `TimeTableText.ScanField` |
