# INIFile: a verified model of a cached INI store

`INIFile` (in the `HEN_locate` tool) keeps an INI file in memory as two tables of sections:

- `m_Sections`: the file as loaded, plus every value set since.
- `m_Modified`: the overlay of values set since the last load or flush.

It also keeps a table of section comments and a modified ("dirty") flag.

- `Refresh` loads the file. The first header of a section wins, and within a section the first line of a key wins.
- The getters read `m_Sections`. The setters write into both tables.
- A flush works in one of two ways:
  - A **patch flush** copies the original file line by line, trimmed. A key line whose key is in the overlay is replaced by `key=value`. The overlay keys still waiting in a section are written when the section ends. Sections not seen in the file are appended as new `[name]` blocks.
  - A **rebuild** writes every section afresh.
- On top of the string values sit the typed conversions: booleans as `1`/`0`, integers in decimal, and byte arrays as lowercase hex.

The model is organised as follows.

**Where the code lives:**
- The line parsers are in `IniLine`.
- The load pass is in `Loading` as a function (`LoadFrom`), with its own declarative description.
- The table operations are in `Tables`, and the conversions are in `Codec`.
- The comment formatting of `SectionSetComment` is in `CommentFormat`.
- The flush engine is split across two modules:
  - `Patching` specifies it as a sequence of *pieces*: literal lines, replaced key lines, and dumps of a bucket.
  - `FlushWriter` holds the loops that write it.
- `LineBreaks` models the text file between `WriteLine` and `ReadLine`: each written string is ended by `Environment.NewLine`, and `ReadLine` splits at `\r`, `\n` and `\r\n`.
- `Reload` holds the round trip of a rebuild, and `PatchReload` the round trip of a patch flush: the written text, read back and loaded, is the file's table with the overlay put over it.
- The store itself is the class `Store.IniFile`, with fields `sections`, `modified`, `comments` and `dirty`. Its methods update them in place.

**Files and environment:**
- A file is `Option<seq<string>>`: `None` when it does not exist, otherwise the lines `ReadLine` returns.
- The file is a parameter of the operations that read it.
- A flush returns the lines it writes, or a failure chosen by a `Fault` parameter.

**Dictionary order:**
- C# `Dictionary` enumeration order is not specified. Wherever the code enumerates a dictionary, the model picks an arbitrary enumeration.
- Such methods return that order as a ghost out-parameter. The written lines are then a fixed function of the input and of that order.
- Properties that must hold for every order are proved for all orders.

## Model

| member | source | states |
|---|---|---|
| IniLine.ParseSectionName | src/HEN_locate/INIFile.cs:74-80 | a line names a section exactly when it starts with `[`, ends with `]` and has at least three characters; the name is the text between the brackets and is never empty |
| IniLine.ParseKeyValuePair | src/HEN_locate/INIFile.cs:83-95 | a line is a pair exactly when it has an `=` after index 0 and the trimmed text before the first `=` is not empty; the key is that trimmed text (so it holds no `=`), the value is the trimmed rest, with later `=` kept in it |
| IniLine.HeaderLineParses | src/HEN_locate/INIFile.cs:328-330 | the `[name]` line written for a non-empty name is already trimmed and parses back to that name |
| IniLine.KeyLineParses | src/HEN_locate/INIFile.cs:339-341 | a `key=value` line written for a trimmed key without `=` and a trimmed value parses back to exactly that key and value, and is not a header |
| IniLine.CommentIsNoHeader | src/HEN_locate/INIFile.cs:129-131 | a line starting with `;` is never taken for a section header |
| IniLine.NoEqualsNoEntry | src/HEN_locate/INIFile.cs:87 | a line without `=` never loads as a key |
| IniLine.BlankLineInert | src/HEN_locate/INIFile.cs:254 | the blank line written after a section is neither a header nor a pair |
| Text.TrimChars | src/HEN_locate/INIFile.cs:90 | trimming never introduces a character, so a trimmed key stays free of `=` |
| Loading.LoadDescribed | src/HEN_locate/INIFile.cs:120-156 | the loaded table has one section per distinct header name; each section holds the pairs of the block under its FIRST header, so key lines under a repeated header and before any header are dropped |
| Loading.EntriesFirstWins | src/HEN_locate/INIFile.cs:147-153 | within a block, the first line of a key decides its value; later lines of the same key do not change it |
| Loading.EntriesKeys | src/HEN_locate/INIFile.cs:147-153 | a key is in a loaded section exactly when some pair line of its block has that key |
| Loading.LoadRunAppend | src/HEN_locate/INIFile.cs:123-156 | the load pass over two runs of lines is the pass over the first continued over the second, so a file can be loaded piece by piece |
| Loading.LoadIgnoresPreamble | src/HEN_locate/INIFile.cs:144 | lines before the first header contribute nothing to the loaded table |
| Store.LoadLine | src/HEN_locate/INIFile.cs:127-155 | one iteration of the load loop advances the specification `LoadFrom` by exactly one line, keeping the open section in the table |
| Store.IniFile.constructor | src/HEN_locate/INIFile.cs:53-71 | a non-lazy store holds the loaded file, an empty overlay, no comments and a clear flag |
| Store.IniFile.Refresh | src/HEN_locate/INIFile.cs:98-165 | both tables are replaced by the load of the file (empty for a missing file); comments and the modified flag are left as they were |
| Tables.Lookup | src/HEN_locate/INIFile.cs:398-412 | an entry is found exactly when both its section and its key are present, with the stored value |
| Store.IniFile.GetValue | src/HEN_locate/INIFile.cs:380-414 | returns the value in `sections` when present, otherwise the default; changes nothing and never consults the overlay |
| Store.IniFile.SetValue | src/HEN_locate/INIFile.cs:417-457 | the entry is set in both tables (the section added when missing), every other entry of both is unchanged, the flag is set, and the overlay stays covered by the sections table |
| Store.PutValue | src/HEN_locate/INIFile.cs:432-452 | the in-place update of one table adds the section if needed and replaces the key |
| Tables.LookupWithValue | src/HEN_locate/INIFile.cs:428-452 | after a put, the entry reads the new value and every other (section, key) reads as before |
| Tables.WithValueSections | src/HEN_locate/INIFile.cs:433-437 | a put adds at most its own section and removes none |
| Tables.WithValueKeepsCover | src/HEN_locate/INIFile.cs:440-452 | writing the same entry into both tables keeps every overlay entry present in the sections table with the same value |
| Store.IniFile.ExchangeValue | src/HEN_locate/INIFile.cs:367-370 | a present entry is returned and nothing changes; a missing one returns the default with exactly the effect of `SetValue` with the default; afterwards the entry holds the result |
| Store.IniFile.GetBool | src/HEN_locate/INIFile.cs:675-681 | a stored integer gives `value != 0`; anything else, or a missing entry, gives the default |
| Store.IniFile.SetBool | src/HEN_locate/INIFile.cs:753-756 | stores `1` or `0` as `SetValue` would, and the getter then returns the value set for any default |
| Codec.ParseInt32 | src/HEN_locate/INIFile.cs:679 | `int.TryParse` in its default integer style: a parsed value lies in the 32-bit range |
| Codec.DecodeBool | src/HEN_locate/INIFile.cs:678-680 | true exactly when the text parses as a 32-bit integer (default integer style) other than 0; the default when it does not parse |
| Codec.BoolRoundTrip | src/HEN_locate/INIFile.cs:753-756 | decoding the stored `1`/`0` gives back the boolean |
| Codec.BoolTextIsNoInteger | src/HEN_locate/INIFile.cs:677-680 | the default's own text (`True`/`False`) does not parse, so the getter falls back to the default |
| Codec.DecodeInteger | src/HEN_locate/INIFile.cs:683-721 | the result is in the range of the integer type; it is the parsed value when the text parses in range, otherwise the default |
| Codec.ParseInteger | src/HEN_locate/INIFile.cs:687 | a parsed value always lies in the requested range; white space, the sign and a final run of NUL characters are accepted around the digits |
| Codec.TrailingNulIgnored | src/HEN_locate/INIFile.cs:679-687 | NUL characters at the very end of the text, which the .NET parser accepts in every number style, do not change the parse: `5\0` reads as 5, in either style and any range |
| Codec.TrailingSign | src/HEN_locate/INIFile.cs:679-687 | a sign after the digits (`5-`) is read as -5 by the `NumberStyles.Any` parse of the integer getters and rejected by the default style of the bool getter |
| Codec.IntegerRoundTrip | src/HEN_locate/INIFile.cs:758-771 | formatting an integer in decimal and parsing it, in either number style and any range that holds it, gives the integer back |
| Codec.DecodeIntegerRoundTrip | src/HEN_locate/INIFile.cs:683-721 | for each integer type, a value of that type written by the setter reads back unchanged |
| Codec.DigitsRoundTrip | src/HEN_locate/INIFile.cs:760 | the decimal digits of a natural number have that number as their value |
| Store.IniFile.GetInteger | src/HEN_locate/INIFile.cs:683-721 | returns the decoded stored value when present, the default otherwise, always in the type's range |
| Store.IniFile.SetInteger | src/HEN_locate/INIFile.cs:758-771 | stores the decimal text as `SetValue` would, and the getter of the same type then returns the value set |
| Store.IniFile.ExchangeInt32 | src/HEN_locate/INIFile.cs:372-378 | a present entry is decoded, in the 32-bit range, and nothing changes; a missing one returns the default and stores its decimal text in both tables with the flag set, as `SetValue` does; comments are untouched and the overlay stays covered |
| Codec.EncodeByteArray | src/HEN_locate/INIFile.cs:460-480 | the loop's output is the hex text of the bytes, two characters per byte |
| Codec.HexStringLength | src/HEN_locate/INIFile.cs:467-477 | the hex text of `n` bytes has length `2n` |
| Codec.HexStringIsLowerHex | src/HEN_locate/INIFile.cs:467-477 | every character of the hex text is a lowercase hex digit |
| Codec.PairValue | src/HEN_locate/INIFile.cs:490 | `Convert.ToByte` of two characters in base 16: a leading `+` gives the value of the second digit; otherwise the value of two hex digits of either case; no value when a digit is not hex |
| Codec.PairRoundTrip | src/HEN_locate/INIFile.cs:467-477 | the two digits written for a byte decode back to that byte |
| Codec.DecodeByteArray | src/HEN_locate/INIFile.cs:483-494 | the loop decodes the first `len/2` pairs; any pair that is not hex makes the whole decode fail |
| Codec.HexRoundTrip | src/HEN_locate/INIFile.cs:460-494 | decoding the hex text of a byte array gives the array back |
| Codec.HexDecodeIgnoresOddTail | src/HEN_locate/INIFile.cs:490 | a trailing odd character is ignored by the decoder |
| Codec.NoneStaysNone | src/HEN_locate/INIFile.cs:492 | once one pair fails to decode, decoding more pairs still fails |
| Store.IniFile.GetBytes | src/HEN_locate/INIFile.cs:731-742 | a stored value is decoded, with the default on a malformed pair; a missing entry gives the default |
| Store.IniFile.SetBytes | src/HEN_locate/INIFile.cs:778-781 | stores the hex text as `SetValue` would, and that text decodes to the bytes set |
| Store.IniFile.SectionExists | src/HEN_locate/INIFile.cs:517-528 | membership in the sections table, the overlay, or either, as the target says |
| Store.IniFile.GetSectionsNames | src/HEN_locate/INIFile.cs:497-515 | lists each section of the addressed table(s) exactly once; for both stores, the names of `sections` come first |
| Store.AppendMissing | src/HEN_locate/INIFile.cs:511 | appending the missing names of a second list keeps the first list as a prefix, keeps names distinct, and yields the union |
| Store.ReadSectionsKeys | src/HEN_locate/INIFile.cs:645-656 | an enumeration of the section's keys, empty for a missing section |
| FlushWriter.EnumerateKeys | src/HEN_locate/INIFile.cs:658-664 | an enumeration of a dictionary's keys: each once, nothing else |
| Store.IniFile.GetKeysNames | src/HEN_locate/INIFile.cs:623-641 | lists each key of the section in the addressed table(s) exactly once; for both stores, the keys of `sections` come first |
| Store.IniFile.SectionDelete | src/HEN_locate/INIFile.cs:530-537 | the section is removed from the addressed table(s) only; with both stores the overlay stays covered |
| Tables.RemoveKeepsCover | src/HEN_locate/INIFile.cs:534-535 | removing a section from both tables keeps the overlay covered |
| Store.IniFile.SectionRename | src/HEN_locate/INIFile.cs:539-561 | equal or empty names are rejected with no change; otherwise the section moves in the addressed table(s); a clash in `sections` leaves the old name removed and the overlay untouched; a clash in the overlay leaves its old name removed; a rename in both stores that does not clash keeps the overlay covered |
| Tables.RenameKeepsCover | src/HEN_locate/INIFile.cs:549-558 | moving a section to a name free in both tables, in both tables, keeps every overlay entry present in `sections` with the same value |
| Store.IniFile.SectionCreate | src/HEN_locate/INIFile.cs:563-567 | an unknown section is added to the overlay with no keys; nothing else changes; the flag is not set; afterwards the section exists |
| Store.IniFile.SectionSetComment | src/HEN_locate/INIFile.cs:569-621 | rejects an empty name; an absent comment changes nothing; an empty comment stores `;`; otherwise the section is created first, a second comment for the section is rejected, and the stored comment starts with `;` with every line marked |
| CommentFormat.FormatComment | src/HEN_locate/INIFile.cs:582-619 | the loop builds `;` followed by the comment, each line break kept whole and followed by `;` |
| CommentFormat.CommentBodyAt | src/HEN_locate/INIFile.cs:590-616 | the three cases of one step: a plain character, a two-character break (`\r\n` or `\n\r`), and a lone `\r` or `\n` |
| CommentFormat.UncommentRoundTrip | src/HEN_locate/INIFile.cs:585-617 | removing the `;` inserted after each break gives the comment back, so the formatting loses nothing |
| CommentFormat.CommentBodyAdds | src/HEN_locate/INIFile.cs:590-616 | the formatting adds no character but `;`: any other character of the stored comment comes from the comment, so a comment without `=` is stored without `=` |
| CommentFormat.CommentedMarked | src/HEN_locate/INIFile.cs:583-617 | the stored comment starts with `;` and every line after a break starts with `;`, so no line of it can load as a header |
| Patching.ScanConserves | src/HEN_locate/INIFile.cs:219-293 | across the scan of the original file, each overlay entry is either written by the scan or still waiting in its bucket, never both and never twice |
| Patching.StepConserves | src/HEN_locate/INIFile.cs:238-292 | the same for one line: a replaced key leaves its bucket as it is written; a header writes the rest of the previous bucket and empties it |
| Patching.LeaveConserves | src/HEN_locate/INIFile.cs:240-257 | leaving a section writes exactly the keys left in its bucket, then empties the bucket |
| Patching.ScanRest | src/HEN_locate/INIFile.cs:238-292 | after the scan, a section whose header appeared in the file has an empty bucket; any other keeps its bucket unchanged |
| Patching.BlocksEmit | src/HEN_locate/INIFile.cs:312-345 | the appended blocks write each pending entry of the listed sections exactly once, with its value |
| Patching.PatchEmitsEachOnce | src/HEN_locate/INIFile.cs:204-345 | for every enumeration order, a patch flush writes every overlay entry exactly once, with its overlay value, and writes no key line for anything else |
| Patching.RebuildEmitsEachOnce | src/HEN_locate/INIFile.cs:308-345 | for every enumeration order, a rebuild writes every entry of the merged table exactly once, with its value |
| Patching.PatchAppendsNothing | src/HEN_locate/INIFile.cs:312-316 | when every overlay section has a header in the file, the patch flush appends no block: empty buckets are skipped |
| Patching.BlocksOfEmpty | src/HEN_locate/INIFile.cs:316 | sections without keys produce no output at all |
| Patching.PatchKeepsUntouchedFile | src/HEN_locate/INIFile.cs:219-293 | when no header of the file has overlay values or a comment, the scan writes the file's lines trimmed, in order, and leaves the overlay untouched |
| Patching.ScanUntouched | src/HEN_locate/INIFile.cs:286-292 | lines outside modified sections are copied trimmed, one for one |
| Patching.RenderLiterals | src/HEN_locate/INIFile.cs:289 | copied lines render as themselves |
| Patching.RenderAppend | src/HEN_locate/INIFile.cs:194-345 | the output of consecutive writes is the concatenation of their outputs |
| FlushWriter.WriteBucket | src/HEN_locate/INIFile.cs:245-253 | the keys of a bucket are written one `key=value` line each, in some enumeration of the bucket |
| FlushWriter.LeaveCurrent | src/HEN_locate/INIFile.cs:240-257 | the loop code that leaves a section writes what `LeaveSection` specifies: the remaining keys, a blank line, and the bucket cleared |
| FlushWriter.CopyKind | src/HEN_locate/INIFile.cs:237-292 | the code for one classified line writes and updates what `Step` specifies |
| FlushWriter.CopyLine | src/HEN_locate/INIFile.cs:221-292 | reading, trimming and classifying one line, then handling it, is one `Step` |
| FlushWriter.CopyLines | src/HEN_locate/INIFile.cs:219-293 | the copy loop over the original file writes the rendering of `Scan` for the file, and leaves the buckets as `Scan` does |
| FlushWriter.WriteBlock | src/HEN_locate/INIFile.cs:316-344 | one remaining section is written as `BlockOf` specifies: a separating blank line unless first, the header, the comment if set, the keys |
| FlushWriter.WriteBlocks | src/HEN_locate/INIFile.cs:312-345 | the loop over the remaining sections writes the blocks of some enumeration of the table |
| Tables.Merge | src/HEN_locate/INIFile.cs:666-672 | the merged table has the sections of both; a section of the target keeps the target's bucket |
| Store.MergeDictionary | src/HEN_locate/INIFile.cs:666-672 | the loop computes `Merge` |
| Tables.MergeKeepsEntries | src/HEN_locate/INIFile.cs:308-309 | when the overlay is covered, the rebuild table holds every overlay entry with its overlay value and every entry of `sections` |
| Store.DeleteOriginalUncovers | src/HEN_locate/INIFile.cs:530-537 | after setting an entry and deleting its section from `sections` alone, the overlay holds a value that `sections` lacks, so the cover is broken |
| Store.RenameOverlayShadowed | src/HEN_locate/INIFile.cs:308-309 | after a delete and a rename in the overlay alone, an overlay value sits under a section whose `sections` bucket lacks it, and the rebuild merge keeps that bucket, so the value is not written |
| Store.RenameClashUncovers | src/HEN_locate/INIFile.cs:549-552 | a rename in both stores onto a name `sections` has fails with the old name gone from `sections` but still in the overlay, so the cover is broken |
| Tables.Emptied | src/HEN_locate/INIFile.cs:343 | after a rebuild, every section is kept but has no keys |
| Store.PatchContent | src/HEN_locate/INIFile.cs:204-345 | the patch flush's output is the scan of the file followed by the blocks of the sections left, for some enumeration order |
| Store.RebuildContent | src/HEN_locate/INIFile.cs:308-345 | the rebuild's output is the blocks of the merged table, for some enumeration order, and the sections table is left emptied |
| Store.IniFile.PerformFlush | src/HEN_locate/INIFile.cs:178-364 | a clean store writes nothing; otherwise the flag is cleared first, so a failure to create the temporary file leaves it clear with the tables intact; else the overlay is emptied and the file content is the patch or rebuild output (a failed swap still leaves the overlay emptied) |
| LineBreaks.ReadTextNoBreak | src/HEN_locate/INIFile.cs:125 | no line that `ReadLine` returns holds a `\r` or a `\n` |
| LineBreaks.TerminatedLine | src/HEN_locate/INIFile.cs:289 | after one `WriteLine` of a string that does not end in a break, with either `Environment.NewLine`, reading gives the lines of that string, then the lines of whatever follows |
| LineBreaks.WriteThenRead | src/HEN_locate/INIFile.cs:249-341 | reading what one `WriteLine` per string wrote gives, in order, the lines of each string, whenever no string ends in a break |
| LineBreaks.WritePlainThenRead | src/HEN_locate/INIFile.cs:249-341 | strings without line breaks, written with `WriteLine`, read back one for one |
| LineBreaks.BreakSplitsValue | src/HEN_locate/INIFile.cs:251 | a value holding `\n` written with `WriteLine` reads back as two lines, so it does not survive a flush |
| LineBreaks.MarkedLines | src/HEN_locate/INIFile.cs:291 | a stored comment without `=` whose every line is marked reads back as comment lines only: each empty or starting with `;`, none holding `=` |
| Reload.StoredCommentInert | src/HEN_locate/INIFile.cs:569-621 | every comment without `=` is stored by `SectionSetComment` in the form that reads back as inert lines |
| Reload.StoredCommentKinds | src/HEN_locate/INIFile.cs:291 | a stored comment written with `WriteLine` ends its own line and reads back as lines that are neither headers nor pairs |
| Reload.PlainKind | src/HEN_locate/INIFile.cs:289 | a line without breaks written and read back is classified as itself |
| Reload.KindsOfKeyLines | src/HEN_locate/INIFile.cs:339-341 | the key lines of a plain bucket hold no break and read back as one pair per key, with its value, in the written order |
| Reload.RebuildReloads | src/HEN_locate/INIFile.cs:308-345 | reading back, with `ReadLine`, the lines a rebuild writes with `WriteLine` and loading them gives exactly the sections that had keys, with their keys and values, for every enumeration order and either `Environment.NewLine` (when names and entries are plain and comments are inert) |
| Reload.NonEmpty | src/HEN_locate/INIFile.cs:316 | the sections that have keys, with their buckets |
| Reload.LoadBlock | src/HEN_locate/INIFile.cs:316-343 | loading one written block, read back, opens its section and adds it with exactly its bucket |
| Reload.LoadBlocks | src/HEN_locate/INIFile.cs:312-345 | loading the written blocks, read back, adds exactly the non-empty sections listed |
| PatchReload.ReadFile | src/HEN_locate/INIFile.cs:221-230 | a file line without breaks, read and trimmed by the patch scan, is still without breaks and is classified as the load pass of `Refresh` classifies it |
| PatchReload.Patched | src/HEN_locate/INIFile.cs:204-345 | the patched table has the sections of the file and the overlay sections that have keys |
| PatchReload.PatchedLookup | src/HEN_locate/INIFile.cs:204-345 | in the patched table an overlay entry has its overlay value and every other entry its value in the file |
| PatchReload.CopySim | src/HEN_locate/INIFile.cs:286-289 | a line copied unchanged moves the load of the file and the load of the output alike, keeping the two in step |
| PatchReload.PutSim | src/HEN_locate/INIFile.cs:270-281 | a replaced key line: the file's load takes the old entry, the output's load the new one, and the key leaves its bucket, keeping the two in step |
| PatchReload.LeaveFinal | src/HEN_locate/INIFile.cs:240-257 | leaving a section writes the rest of its bucket; the output then loads that section as the file's with the overlay bucket put over it |
| PatchReload.HeaderStart | src/HEN_locate/INIFile.cs:259-265 | after a header both loads open the same section, or both skip a repeated one, and the scan takes that section's bucket |
| PatchReload.HeaderSim | src/HEN_locate/INIFile.cs:238-291 | a header line, with the bucket left before it and the comment written after it, keeps the two loads in step |
| PatchReload.StepSim | src/HEN_locate/INIFile.cs:221-292 | any one line of the scan keeps the two loads in step |
| PatchReload.ScanSim | src/HEN_locate/INIFile.cs:219-293 | over the whole scan, the output's load ends as the file's load with each scanned section's bucket put over it, and the buckets of the scanned sections are empty |
| PatchReload.FinalPatched | src/HEN_locate/INIFile.cs:312-345 | after the scan, loading the appended blocks of the buckets left gives the patched table |
| PatchReload.PatchReloads | src/HEN_locate/INIFile.cs:204-345 | reading back and loading what a patch flush writes gives the file's table with the overlay put over it: every overlay entry with its overlay value, every other entry of the file with its old value, the file's sections plus the overlay sections with keys; for every enumeration order and either `Environment.NewLine`, when the file's lines hold no break, the overlay is plain and comments are inert |
## Left out

- Thread safety (`m_Lock` and the `lock` blocks): the store is modelled as single-threaded.
- File-system plumbing (`StreamReader`, `StreamWriter`, the `$n$` temporary file, `File.Exists`, `File.Copy`, `File.Delete`): the file is an input parameter. The written content is the result of `PerformFlush`. Two of the places a flush can throw are a `Fault` parameter: creating the temporary file and `File.Copy` at line 353. Failing to open the original at line 210, a failed write, and a failed `File.Delete` at line 356 after a successful copy are not modelled.
- The `double` and `DateTime` getters and setters: floating point and culture-dependent date parsing.
- Lazy loading and automatic flushing (`m_Lazy`, `m_AutoFlush`, `m_AutoRebuild`): the model is the non-lazy store without auto-flush. With them, a read would call `Refresh` first and a write would call `PerformFlush` after.
- `Flush` and `FlushAndRebuild`: they only take the lock and call `PerformFlush(false)` and `PerformFlush(true)`, which is modelled.
- `null` arguments (a `null` section name, key, value or byte array): strings are plain sequences.
- `FileName` and the file name passed to the constructor: the file itself is a parameter.
- Store.IniFile.GetInteger: the string is parsed as decimal digits with surrounding white space, a sign before the digits or, as `AllowTrailingSign` permits, after them, and any NUL characters at the very end, which .NET accepts in every style. The model leaves out the rest of `NumberStyles.Any`: grouping, currency, parentheses, exponent and decimal point.
- Store.IniFile.ExchangeInt32: the same plain decimal parse as `GetInteger`.
- Codec.DecodeBool: it parses in the default integer style (leading sign only), with the invariant culture's signs and white space. It does not model the current culture's own sign symbols.
- Store.IniFile.SetInteger: one method stands for the `int`, `long` and `ulong` setters, each of which writes the invariant-culture decimal text of the value; it accepts every integer kind of the getters, although the source has no `uint` or `byte` overload of its own.
- Codec.PairValue: `Convert.ToByte(s, 16)` on two characters is modelled as two hex digits of either case, or `+` and one digit. A `0x` prefix and an overflow cannot occur in two characters. A leading `-` is not modelled: the source raises an `ArgumentException` there, which escapes the getter because it catches only `FormatException`; the model reports it as a malformed pair.
- IniLine.ParseSectionName: `StartsWith("[")` and `EndsWith("]")` at lines 76-77 compare with the current culture, which ignores characters such as a soft hyphen; the model compares ordinally, so a line like `\u00AD[a]` is no header in the model.
- A section name, key or value holding a line break does not survive a flush: `WriteLine` writes it as several lines (`LineBreaks.BreakSplitsValue`). Nor do other entries that `Trim` or the first `=` would change when the file is read back: a value with surrounding white space (` x ` reloads as `x`), a key holding `=` (key `a=b` with value `c` reloads as key `a` with value `b=c`), a key with surrounding white space or starting with `[`, and an empty name or key. Both reload lemmas therefore require tables whose names and entries are free of all of these (`Reload.PlainTable`, built on `IniLine.IsPlainName` and `IniLine.IsPlainEntry`), file lines without breaks, and inert comments.
- The forms (`Form1.cs`) and the `hen_gen` and `hen_ungen` image tools: they are file plumbing around the store.

## Where the model follows the code

- `Refresh` clears both tables but not the modified flag. `Store.IniFile.Refresh` keeps `dirty` and `comments`.
- The modified flag is cleared before the file is written, so a flush that throws still leaves the store clean. `Store.IniFile.PerformFlush` states this for both fault points.
- A patch flush writes every copied line trimmed. A replaced key line is normalised to `key=value`.
- A section comment is written after every header of that section in the file. `Patching.Step` writes it for each header.
- `GetValue` reads only `sections`. `SetValue` writes into both tables, so the overlay stays covered by `sections` (`Store.IniFile.Consistent`) as long as every `SectionDelete` targets both stores and every `SectionRename` targets both stores and succeeds; each other operation keeps the cover. A delete or rename that targets one store only can break it (`Store.DeleteOriginalUncovers`, `Store.RenameOverlayShadowed`), and so can a rename in both stores that fails on a name `sections` already has, since the old name has then left `sections` but not the overlay (`Store.RenameClashUncovers`).
- Rebuild merges with `MergeDictionary(m_Modified, ref m_Sections)`. This adds an overlay section only when `m_Sections` lacks it; a section in both keeps the `m_Sections` bucket. In a store whose overlay is covered, that bucket already holds every overlay value (`Tables.MergeKeepsEntries`). Once a one-store delete or rename has broken the cover, it may not: the rebuild then writes the `m_Sections` bucket and drops the overlay values of that section (`Store.RenameOverlayShadowed`). The rebuild then clears each bucket, including those of `m_Sections`.
- Sections without keys are never written, including those made by `SectionCreate`, which does not set the flag.
- `SectionRename` into a name that already exists:
  - The code removes the old entry and then throws from `Dictionary.Add`.
  - `Store.IniFile.SectionRename` models exactly that.
  - It returns `DuplicateSection` with the old name gone.
  - It does not forbid the case by a precondition.
  - When the clash is in `sections`, the overlay is not reached.
- `SectionSetComment` creates the section before it adds the comment. A duplicate comment therefore throws with the section already created. An empty comment stores `;` without creating the section.
- A comment line that holds `=` would load back as a key when its section is the current one. `Reload.RebuildReloads` and `PatchReload.PatchReloads` therefore require comments stored from a text without `=` (`Reload.InertComments`, which `Reload.StoredCommentInert` shows every such comment meets).
