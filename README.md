# Lethe memo text engine in Dafny

Lethe is an Obsidian plugin that keeps short memos either as bullet lines
in daily notes or as individual markdown files. This project models its
memo text engine, the four files under `src/obComponents/` that read and
write memos as plain text:

- **Reading** (`obGetMemos.ts`): the per-line parser of a daily note, which
  turns a `- [c] HH:mm content` bullet into a memo record. The model covers
  the bullet/time test, the hour, minute, text and checkbox extractors, the
  type mapping, the block-id suffix, the line-index id and the
  `getRemainingMemos` gate that counts bullets first. It also covers the
  decoder of individual memo files: frontmatter strip, `created` fallback
  and task state.
- **Writing** (`obCreateMemo.ts`): the `'\n'` line splitter, the anchor
  search and section end of `insertAfterHandler`, and the splice of
  `insertTextAfterPositionInBody`. It also covers the bullet and the record
  that `waitForInsert` builds, and the frontmatter and body of
  `createIndividualMemoFile`.
- **Hiding** (`obHideMemo.ts`): the id-to-line-index decoding, the escaped
  removal pattern, the removal of the first occurrence with one line
  ending, and the three fallbacks.
- **Exporting** (`obCopyMemos.ts`): the group-by-date of `getMemosByDate`
  and the outline rendering of `transferMemosIntoText`.

## Layout

- `strings.dfy` (module `Text`) holds the JavaScript string operations the
  engine relies on:
  - `String.prototype` `includes`, `split`, `trim`, `trimStart` and
    `replace`, including the `$` replacement patterns;
  - `parseInt`;
  - the `\s` and line-terminator character classes.
- `timestamp.dfy` (module `Timestamp`) holds the date record, moment's
  fixed-width tokens and a strict reader for `YYYY/MM/DD HH:mm:ss` and
  `YYYY-MM-DD HH:mm:ss`.
- `memo.dfy` (module `Memos`) holds the memo record, the memo types and the
  two templates (the empty one and `{TIME} {CONTENT}`).
- `get_memos.dfy`, `create_memo.dfy`, `hide_memo.dfy` and `copy_memos.dfy`
  hold one module per source file. Each regular expression the source
  builds is a hand-written matcher that takes the first match in
  backtracking order.
- `round_trip.dfy` (module `RoundTrip`) holds the properties that join the
  writer and the reader.

Imperative steps of the source (its loops, its `+=` builder and its chain
of reassignments) are methods. Each method is proved equal to a
specification function, and the properties are proved about that function:

- `DailyNoteMemos` and `EachLine`, the per-line loop;
- `IndividualFilesMemos`;
- `GetLinesInString`;
- `InsertAfterHandler` and `SectionEnd`, the backward scan;
- `BuildFrontmatter`, the `+=` builder;
- `ObHideMemo`, the fallback chain;
- `GetMemosByDate` and `PlaceMemo`;
- `TransferMemosIntoText` and `AddGroup`.

The vault, the clock and `Math.random` do not appear. The following become
parameters:

- the note text and the file date;
- the file path;
- the chosen `Date`;
- the random block id;
- the frontmatter values;
- the daily-note date format.

## Model

| member | source | states |
|---|---|---|
| Memos.TypeName | src/obComponents/obGetMemos.ts:22-34 | the stored type name is `JOURNAL` exactly for journal memos, and every task type name starts with `TASK-` |
| Memos.ComposeBody | src/obComponents/obCreateMemo.ts:66-75 | the memo body under the empty template and under `{TIME} {CONTENT}` (also obCopyMemos.ts:48-56); no contract of its own, `ComposePlain` states its meaning |
| Memos.ComposePlain | src/obComponents/obCreateMemo.ts:73-75 | for content without `$`, both templates give `time + ' ' + content` |
| Text.SplitCrLf | src/obComponents/obGetMemos.ts:251 | `split(/\r?\n/)`: one line per `\n` piece, with a `\r` before a `\n` dropped; on text without `\r` it is the `'\n'` split (`SplitCrLfWithoutCr`) |
| Text.Split | src/obComponents/obCreateMemo.ts:210 | `split` on one character: at least one piece; the pieces join back to the text (`JoinSplit`), hold no separator (`SplitPiecesFree`) and number one more than the separators (`SplitCount`) |
| Text.SplitCrLfWithoutCr | src/obComponents/obGetMemos.ts:251 | on text without `\r`, the `/\r?\n/` split equals the `'\n'` split |
| Text.JoinSplit | src/obComponents/obCreateMemo.ts:210-214 | joining the `'\n'` pieces with `'\n'` gives the text back |
| Text.SplitPiecesFree | src/obComponents/obCreateMemo.ts:210 | no piece of a split holds the separator |
| Text.SplitCount | src/obComponents/obCreateMemo.ts:210 | the number of pieces is the separator count plus one |
| Text.SplitJoin | src/obComponents/obCreateMemo.ts:213-214 | splitting a join of separator-free pieces gives the pieces back |
| Text.TrimIdempotent | src/obComponents/obGetMemos.ts:193 | `trim` applied twice equals `trim` applied once |
| Text.ExpandPlain | src/obComponents/obCreateMemo.ts:73-75 | a replacement string without `$` is inserted literally |
| Text.ReplaceAll | src/obComponents/obCopyMemos.ts:75 | a `/pat/g` replace with a `$`-free replacement; no contract of its own, its meaning is in `ReplaceAllLeavesNone` and `ReplaceAllRemovesChar` |
| Text.ReplaceFirst | src/obComponents/obHideMemo.ts:33-41 | the string-pattern `replace` of the hide fallbacks (first occurrence only); no contract of its own, used by `HideText` and stated through `HideTextEmptyLine` |
| Text.ExpandReplacement | src/obComponents/obCreateMemo.ts:73-75 | the `$` patterns of a replacement string; no contract of its own, `ExpandPlain` states that `$`-free text is inserted literally |
| Text.ReplaceAllLeavesNone | src/obComponents/obCopyMemos.ts:75 | after replacing every `<br>` by text that cannot form one, none is left |
| Text.ReplaceAllRemovesChar | src/obComponents/obCreateMemo.ts:57 | replacing every `\n` by text without `\n` leaves no `\n` |
| Text.DecimalOfNatToString | src/obComponents/obGetMemos.ts:118 | the decimal text of a line index reads back as that index |
| Text.NatToStringInjective | src/obComponents/obGetMemos.ts:118 | different indices have different decimal texts |
| Text.ParseIntNatToString | src/obComponents/obHideMemo.ts:15 | `parseInt` of a line index's decimal text is the index |
| Text.ParseInt | src/obComponents/obGetMemos.ts:96-97 | `parseInt` with no radix: white space, sign, `0x`, longest digit run, NaN without digits; no contract of its own, its meaning is in `ParseIntOfDecimal` and `ParseIntNatToString` |
| Text.ParseIntOfDecimal | src/obComponents/obGetMemos.ts:96-97 | `parseInt` of a digit string is its decimal value |
| Timestamp.ZeroPadWidth | src/obComponents/obGetMemos.ts:118 | a number below 10^w fills exactly w digits |
| Timestamp.ZeroPadValue | src/obComponents/obGetMemos.ts:118 | the padded digits read back as the number |
| Timestamp.FormatWidths | src/obComponents/obGetMemos.ts:118 | `YYYYMMDDHHmm` has 12 digits, `YYYYMMDDHHmmSS` and `YYYYMMDDHHmmss` have 14, and `HH:mm` has 5 characters |
| Timestamp.ParseStamp | src/obComponents/obGetMemos.ts:172-176 | a stamp the strict reader accepts is a valid calendar date and time |
| Timestamp.ParseStampOfStamp | src/obComponents/obGetMemos.ts:172 | formatting a valid date as `YYYY-MM-DD HH:mm:ss` or `YYYY/MM/DD HH:mm:ss` and reading it back gives the date |
| Timestamp.StampOfParseStamp | src/obComponents/obGetMemos.ts:172 | whatever the reader accepts is the formatted text of what it returns |
| Timestamp.DateKey | src/obComponents/obCopyMemos.ts:11 | the day key is `Invalid date` exactly when `createdAt` does not read as a stamp |
| Timestamp.TimeOf | src/obComponents/obCopyMemos.ts:45 | the time is `Invalid date` exactly when `createdAt` does not read as a stamp |
| GetMemos.GetTaskType | src/obComponents/obGetMemos.ts:22-34 | `' '` gives TASK-TODO, `x` or `X` gives TASK-DONE (both if and only if), any other mark c gives `TASK-` + c, and the result is never JOURNAL |
| GetMemos.GetTaskTypeSeparates | src/obComponents/obGetMemos.ts:22-34 | two marks give the same type only when they are equal or both are `x`/`X` |
| GetMemos.BulletEnd | src/obComponents/obGetMemos.ts:275 | a bullet match is leading whitespace, `-` or `*`, then one whitespace character |
| GetMemos.ClockAt | src/obComponents/obGetMemos.ts:275 | a clock match is 1-2 digits, `:` and 2 digits, at the given position |
| GetMemos.LineContainsTimeClock | src/obComponents/obGetMemos.ts:311-332 | a line that passes `lineContainsTime` has an hour and minute match |
| GetMemos.LineContainsTimeText | src/obComponents/obGetMemos.ts:287-309 | a line that passes `lineContainsTime` has a group-8 text match |
| GetMemos.LineContainsTimeMark | src/obComponents/obGetMemos.ts:104-109 | on such a line, the checkbox test and `extractMemoTaskTypeFromLine` agree |
| GetMemos.ExtractHour | src/obComponents/obGetMemos.ts:311-332 | the hour is 1-2 digits |
| GetMemos.ExtractMin | src/obComponents/obGetMemos.ts:334-356 | the minute is exactly 2 digits |
| GetMemos.ExtractText | src/obComponents/obGetMemos.ts:287-309 | group 8 is a suffix of the line with no line terminator |
| GetMemos.ExtractMemoTaskType | src/obComponents/obGetMemos.ts:358-360 | a mark is found only after a `[c]` box, and it is the box's character |
| GetMemos.ClockTailFree | src/obComponents/obGetMemos.ts:275 | after an accepted clock, the rest of the line holds no line terminator (`.*$` without the `m` flag) |
| GetMemos.LineStamp | src/obComponents/obGetMemos.ts:94-103 | the memo time keeps the note's day, sets hour and minute below 100, and sets seconds to 0 |
| GetMemos.ClockFieldValue | src/obComponents/obGetMemos.ts:96-97 | `parseInt` of a 1-2 digit field is a number below 100 |
| GetMemos.LineType | src/obComponents/obGetMemos.ts:104-109 | JOURNAL without a checkbox, else `getTaskType` of the box's mark; no contract of its own, stated by `ParseLineYields` |
| GetMemos.ParseLine | src/obComponents/obGetMemos.ts:86-128 | a memo comes only from a non-empty line without `comment: ` that passes the time test; its content is the non-empty group 8, createdAt equals updatedAt, and the path is the note's |
| GetMemos.ParseLineYields | src/obComponents/obGetMemos.ts:89-112 | a line yields a memo if and only if the four gates hold; the type is JOURNAL exactly without a box, otherwise `getTaskType` of the box's mark |
| GetMemos.BlockIdOfParts | src/obComponents/obGetMemos.ts:113-116 | content ending in `^` plus 6 non-space characters gives those 6 as hasId and keeps the suffix in the content; otherwise hasId is the random id |
| GetMemos.ParseLineId | src/obComponents/obGetMemos.ts:118 | the id is 14 digits followed by the decimal line index |
| GetMemos.MatchCountIsPairCount | src/obComponents/obGetMemos.ts:49-58 | the global-match count of the count pattern equals the number of `- `/`* ` pairs outside earlier matches |
| GetMemos.RemainingMemosZero | src/obComponents/obGetMemos.ts:56-61 | the count is zero exactly when the note has no `-` or `*` followed by a space |
| GetMemos.NoteMemosGate | src/obComponents/obGetMemos.ts:73-75 | a note without such a pair yields no memos |
| GetMemos.NoteMemos | src/obComponents/obGetMemos.ts:64-133 | what `getMemosFromDailyNote` returns; no contract of its own, `DailyNoteMemos` computes it and `NoteMemosGate`, `NoteMemosShape` and `NoteIdsDistinct` state its meaning |
| GetMemos.RemainingMemos | src/obComponents/obGetMemos.ts:36-62 | the global-match count of the count pattern; no contract of its own, `MatchCountIsPairCount` and `RemainingMemosZero` state its meaning |
| GetMemos.DailyNoteMemos | src/obComponents/obGetMemos.ts:64-133 | the loop over the note's lines computes `NoteMemos` |
| GetMemos.EachLine | src/obComponents/obGetMemos.ts:86-130 | the per-line loop keeps the parsed memos of the lines seen, in order |
| GetMemos.SomesFacts | src/obComponents/obGetMemos.ts:86-130 | each kept memo comes from one line, and the line indices increase |
| GetMemos.LinesMemosSomes | src/obComponents/obGetMemos.ts:86-130 | the loop's result is the parsed lines' memos in line order |
| GetMemos.NoteMemosShape | src/obComponents/obGetMemos.ts:117-127 | every memo of a note has the note's path, createdAt equal to updatedAt, and non-empty single-line content |
| GetMemos.NoteIdsDistinct | src/obComponents/obGetMemos.ts:118 | the ids of one note's memos are pairwise distinct |
| GetMemos.TabBulletSkipped | src/obComponents/obGetMemos.ts:50-54 | the note `-\t10:00 x` has a line the parser accepts, but the space-only count gate yields no memos |
| GetMemos.FrontmatterMatch | src/obComponents/obGetMemos.ts:193 | a match starts at a line start with `---`, and no earlier line start holds `---` |
| GetMemos.FrontmatterAbsent | src/obComponents/obGetMemos.ts:193 | with no `---` at any line start there is no match |
| GetMemos.StripFrontmatter | src/obComponents/obGetMemos.ts:193 | the `/^---[\s\S]*?---\n*/m` removal never lengthens the text; `StripFrontmatterOf` and `FrontmatterAbsent` state what it removes |
| GetMemos.StripFrontmatterOf | src/obComponents/obGetMemos.ts:193 | a leading `---…---` block and the newlines after it are removed |
| GetMemos.DecodeIndividualFile | src/obComponents/obGetMemos.ts:181-205 | `type: task` gives TASK-DONE if and only if the text holds `- [x]` or `- [X]`, otherwise TASK-TODO; any other type gives JOURNAL; hasId is empty and the path is the file's |
| GetMemos.DecodeTimes | src/obComponents/obGetMemos.ts:170-179 | a readable `created` is kept, a missing or unreadable one falls back to ctime, and updatedAt reads as mtime |
| GetMemos.DecodeId | src/obComponents/obGetMemos.ts:196 | the id is the 14-digit createdAt time followed by `001` |
| GetMemos.IndividualFilesMemos | src/obComponents/obGetMemos.ts:155-210 | the loop over the folder computes `FolderMemos` |
| GetMemos.FolderMemosCount | src/obComponents/obGetMemos.ts:155-157 | there is one memo per markdown file |
| GetMemos.FolderMemosPaths | src/obComponents/obGetMemos.ts:204 | every file memo carries the path of a markdown file of the folder |
| CreateMemo.EscapeRegExp | src/obComponents/obCreateMemo.ts:21-23 | escaping never shortens the text |
| CreateMemo.EscapeRegExpLiteral | src/obComponents/obCreateMemo.ts:21-23 | the escaped text is a literal pattern that denotes exactly the original text |
| CreateMemo.AnchorPattern | src/obComponents/obCreateMemo.ts:159 | the cooked template is `s*`, the literal anchor, `s*`; that such a pattern tests true exactly when the line contains the anchor is argued in its comment, not proved, and `AnchorFrom` uses `Contains` directly |
| CreateMemo.GetLinesInString | src/obComponents/obCreateMemo.ts:26-39 | the loop's lines are the `'\n'` split of the input |
| CreateMemo.InsertTextAfterPositionInBody | src/obComponents/obCreateMemo.ts:197-236 | in lines: for -1 the text's lines follow all of the body's; otherwise they follow the body's first `pos + 1` lines (all when fewer), and with `found` the remaining lines follow unchanged and in order (one empty line when none remain), while without `found` they are dropped; posNum is the given position |
| CreateMemo.AppendAtEnd | src/obComponents/obCreateMemo.ts:220-227 | at the last line, the splice is `body + "\n" + text` |
| CreateMemo.AnchorFrom | src/obComponents/obCreateMemo.ts:162 | the anchor is the first line containing the target, or -1 when no line does |
| CreateMemo.HeadingFrom | src/obComponents/obCreateMemo.ts:172-174 | the heading is the first later line matching `^#+ ` or containing `---` |
| CreateMemo.LastNonBlank | src/obComponents/obCreateMemo.ts:180-186 | the backward scan finds the last non-blank line in range, and every line after it is blank |
| CreateMemo.SectionEnd | src/obComponents/obCreateMemo.ts:178-188 | the backward loop computes the section end, treating index 0 like none |
| CreateMemo.InsertionPoint | src/obComponents/obCreateMemo.ts:172-193 | with a heading, the point lies before the last line; without one, it is the last line |
| CreateMemo.InsertAfter | src/obComponents/obCreateMemo.ts:156-195 | posNum is -1 or a line of the note |
| CreateMemo.InsertAfterHandler | src/obComponents/obCreateMemo.ts:156-195 | the handler computes `InsertAfter` |
| CreateMemo.FindInsertionPoint | src/obComponents/obCreateMemo.ts:159-193 | the anchor, heading and section search computes `InsertionPoint` |
| CreateMemo.InsertAfterLines | src/obComponents/obCreateMemo.ts:197-219 | the new note's lines are the old lines with the new line at one index, and nothing else changes |
| CreateMemo.InsertAfterSection | src/obComponents/obCreateMemo.ts:172-190 | with the anchor and a later heading, the new line goes after the last non-blank line between them, or after the anchor when there is none |
| CreateMemo.InsertAfterNoHeading | src/obComponents/obCreateMemo.ts:191-192 | without a heading after the anchor, the result is `note + "\n" + line` |
| CreateMemo.InsertAfterNoAnchor | src/obComponents/obCreateMemo.ts:162-190 | without the anchor, the line goes after the last non-blank line before the first heading if its index is above 0; otherwise it is appended |
| CreateMemo.EncodeBreaks | src/obComponents/obCreateMemo.ts:57 | the encoded content holds no `\n` |
| CreateMemo.NewEvent | src/obComponents/obCreateMemo.ts:57-76 | the new bullet line; no contract of its own, `NewEventShape` and `RoundTrip.NewLineReadsBack` state its meaning |
| CreateMemo.NewEventShape | src/obComponents/obCreateMemo.ts:57-76 | the bullet line holds no `\n` and starts with `- [ ] ` or `- `; for content without `$` it is prefix, `HH:mm`, space and encoded content |
| CreateMemo.WaitForInsert | src/obComponents/obCreateMemo.ts:84-116 | the record is TASK-TODO if and only if it is a task, otherwise JOURNAL; createdAt equals updatedAt; the content is unchanged; hasId is empty |
| CreateMemo.WaitForInsertLine | src/obComponents/obCreateMemo.ts:86-91 | the new line sits at the index the corrected id ends in; the written id agrees except on the `posNum` -1 path, where it is two past |
| CreateMemo.WaitForInsertIdMismatch | src/obComponents/obCreateMemo.ts:86-88 | for the note `intro\n# H` and the anchor `@@`, the line is at index 2 but the written id ends in 4 |
| CreateMemo.TrimmedTags | src/obComponents/obCreateMemo.ts:275-277 | the tags are the trimmed pieces, and none is empty |
| CreateMemo.TrimmedTagsClean | src/obComponents/obCreateMemo.ts:275-277 | each tag is non-empty, has no comma and has no surrounding whitespace |
| CreateMemo.TagLines | src/obComponents/obCreateMemo.ts:282 | each tag becomes `  - tag`, in order |
| CreateMemo.Frontmatter | src/obComponents/obCreateMemo.ts:280-284 | the frontmatter block; no contract of its own, `BuildFrontmatter` computes it and `RoundTrip.FileReadsBack` reads it back |
| CreateMemo.FileBody | src/obComponents/obCreateMemo.ts:287-293 | the file body, `<br>` back to `\n` and a checkbox for a task; no contract of its own, `RoundTrip.FileReadsBack` reads it back |
| CreateMemo.BuildFrontmatter | src/obComponents/obCreateMemo.ts:280-284 | the `+=` builder computes the frontmatter block |
| CreateMemo.CreateIndividualMemoFile | src/obComponents/obCreateMemo.ts:244-317 | the file text is the frontmatter followed by the body; the record's id is the 14-digit timestamp plus `001`, with the same time for created and updated |
| HideMemo.Hide | src/obComponents/obHideMemo.ts:10-47 | nothing happens exactly when the id has no 14-digit run; the throw happens exactly when the index is NaN or names no line |
| HideMemo.ObHideMemo | src/obComponents/obHideMemo.ts:10-41 | the method with its fallback chain computes `Hide` |
| HideMemo.LineIndex | src/obComponents/obHideMemo.ts:15 | `parseInt(memoid.slice(14))`; no contract of its own, `IdGivesIndex` states its meaning |
| HideMemo.IdGivesIndex | src/obComponents/obHideMemo.ts:12-15 | an id built from 14 digits and a line index passes the test and decodes to that index |
| HideMemo.HideParsedMemo | src/obComponents/obHideMemo.ts:14-30 | hiding a parsed memo's id removes that memo's line text, and the delete note gets `- id content` |
| HideMemo.EscapeLine | src/obComponents/obHideMemo.ts:27 | escaping never shortens the line; `EscapeLineLiteral` states that the result denotes the line |
| HideMemo.RemoveFirstMatch | src/obComponents/obHideMemo.ts:26-30 | the removal by regular expression; no contract of its own, `RemoveFirstMatchUnchanged` and `HideTextFirstOccurrence` state its meaning |
| HideMemo.HideText | src/obComponents/obHideMemo.ts:26-41 | the removal and its fallbacks; no contract of its own, `HideTextFirstOccurrence`, `HideTextEmptyLine`, `HideTextAtOwnLine` and `HideHitsEarlierLine` state its meaning |
| HideMemo.EscapeLineLiteral | src/obComponents/obHideMemo.ts:26-29 | the escaped line is a literal pattern that denotes exactly the line |
| HideMemo.LineEndingEnd | src/obComponents/obHideMemo.ts:27 | `\r?\n?` takes at most two characters, all of them line endings |
| HideMemo.HideTextFirstOccurrence | src/obComponents/obHideMemo.ts:30 | for a present line, the cut is at its first occurrence; the text before and after is kept, and the length drops by the line plus 0 to 2 |
| HideMemo.RemoveFirstMatchUnchanged | src/obComponents/obHideMemo.ts:30-33 | the regular-expression removal leaves the text unchanged if and only if the line is absent, or is empty with no line ending at the start |
| HideMemo.HideTextEmptyLine | src/obComponents/obHideMemo.ts:33-34 | an empty line removes the first `\n` through the first fallback |
| HideMemo.HideTextAtOwnLine | src/obComponents/obHideMemo.ts:30 | when the first occurrence is the line itself, hiding cuts exactly that line |
| HideMemo.RemoveLineAtLines | src/obComponents/obHideMemo.ts:22-30 | cutting line n where it stands, for a line that is not the last, leaves the other lines in order; for the last line it keeps all the text before it, so the lines are the others followed by one empty line (just one empty line for a one-line text) |
| HideMemo.HideHitsEarlierLine | src/obComponents/obHideMemo.ts:30 | in `- 9:00 ab\n- 9:00 a`, hiding line 1 cuts the start of line 0 |
| CopyMemos.Days | src/obComponents/obCopyMemos.ts:9-25 | the days are listed without repetition |
| CopyMemos.DaysMember | src/obComponents/obCopyMemos.ts:9-25 | a day is listed if and only if some memo falls on it |
| CopyMemos.OnDayComplete | src/obComponents/obCopyMemos.ts:16 | every memo of a day is in that day's group |
| CopyMemos.ByDate | src/obComponents/obCopyMemos.ts:7-28 | the grouping by day, defined by filtering; no contract of its own, `ByDateGroups`, `ByDatePermutation` and `ByDateOrder` state its meaning |
| CopyMemos.GetMemosByDate | src/obComponents/obCopyMemos.ts:7-28 | the loop computes `ByDate` on the `YYYY-MM-DD` day of createdAt |
| CopyMemos.PlaceMemo | src/obComponents/obCopyMemos.ts:9-25 | one callback step turns the grouping of the memos seen into the grouping with one more memo |
| CopyMemos.FindGroup | src/obComponents/obCopyMemos.ts:13-19 | `some` stops at the first group of the day, and no earlier group has it |
| CopyMemos.ByDateOld | src/obComponents/obCopyMemos.ts:13-19 | a memo on a listed day is appended to that day's group, and no other group changes |
| CopyMemos.ByDateNew | src/obComponents/obCopyMemos.ts:20-23 | a memo on a new day opens a group at the end |
| CopyMemos.ByDateGroups | src/obComponents/obCopyMemos.ts:9-25 | group dates are pairwise distinct, groups are non-empty, and every member falls on its group's day |
| CopyMemos.ByDatePermutation | src/obComponents/obCopyMemos.ts:9-25 | the concatenated groups are a permutation of the input |
| CopyMemos.ByDateOrder | src/obComponents/obCopyMemos.ts:9-25 | groups follow first appearance: an earlier group's first memo comes earlier in the input |
| CopyMemos.Bullet | src/obComponents/obCopyMemos.ts:58-67 | the bullet for a memo type; no contract of its own, `NamedBullets` and `OtherMarkUndefined` state its meaning |
| CopyMemos.TaskMark | src/obComponents/obCopyMemos.ts:65 | element `[1]` of the `/TASK-(.*)?/g` matches; no contract of its own, `OtherMarkUndefined` states its meaning |
| CopyMemos.NamedBullets | src/obComponents/obCopyMemos.ts:58-63 | JOURNAL is written `- `, TASK-TODO `- [ ] ` and TASK-DONE `- [x] ` |
| CopyMemos.OtherMarkUndefined | src/obComponents/obCopyMemos.ts:64-66 | any other task mark is written `- [undefined] ` |
| CopyMemos.StripBlockIds | src/obComponents/obCopyMemos.ts:70 | the `/ \^\S{6}/g` removal never lengthens the text; `StripLineId` and `StripNothing` state what it removes |
| CopyMemos.StripLineId | src/obComponents/obCopyMemos.ts:70 | a trailing ` ^` plus 6 non-space characters is cut from a memo line |
| CopyMemos.StripNothing | src/obComponents/obCopyMemos.ts:70 | text without ` ^` is left as it is |
| CopyMemos.AddGroup | src/obComponents/obCopyMemos.ts:44-71 | the inner loop appends each memo's line and cuts block ids after each one |
| CopyMemos.TransferMemosIntoText | src/obComponents/obCopyMemos.ts:32-76 | the loops compute the outline, with every `<br>` replaced by a newline and four spaces |
| CopyMemos.NoBreakTags | src/obComponents/obCopyMemos.ts:75 | the exported text holds no `<br>` |
| CopyMemos.OutlineLines | src/obComponents/obCopyMemos.ts:40-71 | without ` ^`, the outline is each group's `- [[date]]` heading followed by its memos' indented lines |
| CopyMemos.StripLines | src/obComponents/obCopyMemos.ts:70 | block ids are cut line by line: the lines of the result are the input's lines, each with its own ids cut |
| CopyMemos.StripGuarded | src/obComponents/obCopyMemos.ts:70 | a head that holds no ` ^` and does not end in a space is kept, and only the rest is cut |
| CopyMemos.OutlineKeepsLines | src/obComponents/obCopyMemos.ts:40-71 | for every input, block ids included, the outline has as many lines as the uncut headings and memo lines, and each line keeps every head of its uncut line that holds no ` ^` and does not end in a space |
| CopyMemos.MemoLineHead | src/obComponents/obCopyMemos.ts:41-67 | a memo line starts with four spaces and its bullet, and that head with the clock's first character is one the cut keeps |
| CopyMemos.DayLineHead | src/obComponents/obCopyMemos.ts:40 | a group's heading line starts with `- [[`, a head the cut keeps |
| RoundTrip.EventMatches | src/obComponents/obGetMemos.ts:256-309 | a written bullet line passes the time test, with the written clock, the written text and the written type |
| RoundTrip.NewLineReadsBack | src/obComponents/obCreateMemo.ts:57-76 | a line written by `waitForInsert` parses back to a memo with the same `HH:mm`, the `<br>`-encoded content, TASK-TODO or JOURNAL, and the line-index id |
| RoundTrip.FileReadsBack | src/obComponents/obCreateMemo.ts:275-304 | a file written by `createIndividualMemoFile` decodes to the same id, createdAt and path, with the trimmed body as content and a task type if and only if it was a task |
| RoundTrip.DecodeWritten | src/obComponents/obGetMemos.ts:170-204 | with the written `created` and `type` values, the decoder returns the written time and id |
| RoundTrip.StripFenced | src/obComponents/obGetMemos.ts:193 | stripping a written frontmatter and trimming leaves the trimmed body |

## Left out

- Vault and host I/O are not modelled. This covers `vault.read`, `modify`, `create` and `createFolder`, `metadataCache`, `getAllDailyNotes`, `getDailyNote`, `getDateFromFile` and `createDailyNoteCheck`.
  - File text, frontmatter values, the note date, ctime/mtime and paths are parameters.
  - The read/modify side effects are the returned text.
  - Errors thrown by the vault are not modelled.
- `getMemos` (obGetMemos.ts:213-249) is not modelled: it only dispatches on the storage mode and loops over the vault's notes.
- The `!dailyNote` and `!note` early returns are not modelled: the note is always given as text.
- The storage-mode switch of `waitForInsert` (obCreateMemo.ts:50-52) is not one function. Each mode is modelled on its own (`WaitForInsert`, `CreateIndividualMemoFile`).
- The existing-note and new-note branches of `waitForInsert` are identical apart from the file, so they are one function.
- moment's lenient parsing is not modelled:
  - Reading `created` and `createdAt` accepts only the exact layout. moment also accepts looser forms.
  - An hour of 24-99 or a minute of 60-99 read from a daily-note line is kept as it is. moment rolls it over into the next day or hour.
  - In the source the day carries through the loop: `startDate` is made once before it (obGetMemos.ts:81), and each line only resets its hours and minutes (obGetMemos.ts:96-99). So one rolled-over clock moves the date of that line and of every later line. For `- 25:00 a\n- 09:00 b` the source dates both lines on the next day, in both createdAt and the id prefix. `LineStamp`, `NoteMemos` and `DailyNoteMemos` date every line on the note's own day.
  - The model therefore claims nothing about the dates or ids of any memo of a note that holds a line with such a clock. This covers `GetMemos.LineStamp`, `ParseLine`, `ParseLineId`, `NoteMemos`, `DailyNoteMemos`, `NoteIdsDistinct` and `HideMemo.HideParsedMemo`.
- `moment()`, the clock and `Math.random` are parameters: the date of `waitForInsert` and the random block id.
- In `createIndividualMemoFile`, the fallback from an invalid date to `moment()` (obCreateMemo.ts:253-255) is not modelled: the date is a parameter.
- File naming (`sanitizeFilename`, `generateUniqueFilename`) and folder creation are not modelled. The file path is a parameter.
- `getDailyNoteFormat` and `moment(date).format(...)` for the group heading are a function parameter `format`.
- `sendMemoToDelete` (obHideMemo.ts:44) is not modelled. The model returns the line it would receive.
- The daily-note lookup from the id's time part (obHideMemo.ts:14, 16-18) is not modelled. The note text is a parameter.
- User templates other than the empty one and `{TIME} {CONTENT}` are not modelled. The source splices the template into regular expressions unescaped, which has no meaning in general.
- Frontmatter values that are not strings (YAML dates, numbers) are not modelled: `created` and `type` are optional strings.
- The `tags` setting is a parameter. `IndividualMemoTags` is imported by the writer but is not exported by the settings module.
- The `else` branch at obCreateMemo.ts:229-232 is not modelled: the test before it always succeeds. The function documents this, and its result ignores the branch.
- RoundTrip.NewLineReadsBack: requires content without `$`, `\r`, U+2028, U+2029 and `comment: `.
  - With `$`, the template's `replace` expands patterns.
  - The other characters break the line or make the parser skip it.
  - The round trip is not stated for those inputs.
- RoundTrip.FileReadsBack: requires tags without `--`. A tag containing `---` would end the frontmatter match early, and the statement does not cover that case.
- CopyMemos.OtherMarkUndefined: is stated for marks without a line terminator. A mark containing one yields several matches, and element `[1]` is then defined.
- GetMemos.NoteIdsDistinct: requires a note date with a four-digit year and two-digit month and day, so the id prefix has a fixed width.
- HideMemo.HideParsedMemo: requires a note date with a four-digit year and two-digit month and day. Then the 14-digit id prefix is the time part that `obHideMemo` cuts off before reading the line index.
- Strings are sequences of Unicode scalar values, while JavaScript regular expressions without the `u` flag and `slice` count UTF-16 code units. A character above U+FFFF is one element here but two code units there. This affects:
  - `.{1}` in the checkbox patterns (obGetMemos.ts:104, 275, 358-360) and the count pattern (obGetMemos.ts:50-54). The line `- [😀] 10:00 x` gives no memo in the source, but `GetMemos.BoxAt` accepts the box.
  - `\S{6}` and `slice(-6)` for block ids (obGetMemos.ts:113-116, obCopyMemos.ts:70). In the source, `x ^😀😀😀` has a block id and `x ^abcde😀` has none; in `GetMemos.EndsWithBlockId` and `CopyMemos.BlockIdAt` it is the other way round.
  - The model's claims about these patterns hold only for text without characters above U+FFFF.
- CopyMemos.MemoLineHead: is stated for memo types whose mark has no line terminator, the marks the parser makes. Another mark can put ` ^` into the bullet, and the cut may then shorten it.
- CreateMemo.NewEventShape: the exact line is stated only for content without `$`. Content with `$` is covered only by the no-`\n` and prefix facts.

## Findings

| source | as written | input that shows it | evidently intended | confidence | as-written member | corrected member |
|---|---|---|---|---|---|---|
| src/obComponents/obCreateMemo.ts:86-88 | when `posNum` is -1, `lineNum` is the line count of the new text plus one | note `intro\n# H` with `InsertAfter` `@@`: the anchor is missing and line 0 is the last non-blank line before the heading, so the line is appended at index 2 while the id ends in `4` | the id ends in the index of the new line, which is the old line count, as the reader numbers it | not executed | CreateMemo.WaitForInsertIdMismatch | CreateMemo.WaitForInsertLine |
| src/obComponents/obHideMemo.ts:26-30 | the line's text is removed at its first occurrence anywhere in the note | note `- 9:00 ab\n- 9:00 a`, hiding line 1: the result is `b\n- 9:00 a`, so line 0 loses its start and line 1 stays | remove line `idString` where it stands, with its line ending | not executed | HideMemo.HideHitsEarlierLine | HideMemo.RemoveLineAtLines |
