# RIS duplicate remover — Dafny model

The program merges bibliography files in RIS format and removes duplicate
references. All of its logic lives in `src/app/page.tsx`. This project models
that logic as pure Dafny functions over already-decoded file texts, given as
`seq<string>` in the order the files were supplied, and proves what the
outputs are.

- **RecordSplitter** (`record_splitter.dfy`) models `text.split(/\r?\n\r?\n/)`.
  - The pattern has exactly four possible matches.
  - The scan finds the leftmost match, and each match consumes one separator.
  - The split yields the pieces together with the separators matched between them.
  - Each separator is the leftmost one in its piece followed by it, and the last piece holds none. Together these two properties determine the split uniquely.
- **TitleExtractor** (`title_extractor.dfy`) models `entry.match(/^TI  - (.+)$/m)` followed by `toLowerCase()`.
  - It finds the first line that starts with `TI  - ` and has at least one more character.
  - The key is the rest of that line, lower-cased and not trimmed.
- **Deduplicator** (`deduplicator.dfy`) models `processRisFiles` as a fold of the entries into two insertion-ordered maps, each held as a list of key/value pairs.
  - Every output is also stated by an independent reference definition over the list of titled entries: first entries, later entries grouped by key, and occurrence counts.
  - The fold is proved equal to that definition.
- **QuickCounter** (`quick_counter.dfy`) models `text.match(/TY  -/g)` and `countRisItems`, and proves the count equals the number of places the tag occurs.
- **BaseName** (`base_name.dfy`) models `getCommonBaseName`.
  - It strips `.ris` from each name and takes the longest common prefix, shrinking it on a mismatch.
  - It then applies three end-anchored clean-ups, each stated as "remove the leftmost match".
  - Finally it falls back to the first name, then to `output`.
- **RisText** (`ris_text.dfy`) holds the shared vocabulary:
  - JavaScript white space, for `trim()`;
  - line terminators;
  - ASCII lower-casing;
  - prefixes, concatenation and distinctness.

Three consequences of the code are worth stating on their own:

- Each match of the split pattern consumes exactly one separator. The code comments this split as "Split by blank lines" (`src/app/page.tsx:173`). Three newlines therefore leave a `\n` at the start of the next record (`RecordSplitter.ThreeNewlinesKeepOne`).
- The title key is the rest of the title line, lower-cased and never trimmed, so trailing spaces are part of it (`TitleExtractor.TrailingSpacesKept`).
- The version clean-up, commented "Remove version numbers like v1, V2, etc." (`src/app/page.tsx:48`), runs on the common prefix, not on each name. `scopus_v1.ris` and `scopus_v2.ris` share the prefix `scopus_v`, which has no digits, so the base name is `scopus_v` (`BaseName.DifferentVersionsKeepLetter`).

## Model

| member | source | states |
|---|---|---|
| RecordSplitter.SeparatorEnd | src/app/page.tsx:173 | the pattern `\r?\n\r?\n` matches at a position exactly when one of the four separators starts there, and the matched text is that separator |
| RecordSplitter.SeparatorAtMostOne | src/app/page.tsx:173 | at most one of the four separators starts at any position, so the match found there is determined by the text |
| RecordSplitter.SeparatorEndAt | src/app/page.tsx:173 | where a separator starts, the match ends right after that separator |
| RecordSplitter.FindSeparator | src/app/page.tsx:173 | the scan returns the leftmost separator at or after the start position, or reports that none exists |
| RecordSplitter.SplitWithSeparators | src/app/page.tsx:173 | there is one more piece than separators; interleaving the pieces with their separators gives back the text; each separator is the leftmost one in its piece followed by it; a text without separators is a single piece; no piece contains a blank line |
| RecordSplitter.SplitUnique | src/app/page.tsx:173 | any decomposition into pieces and separators where each separator is leftmost in its piece followed by it, and the last piece has none, is the split: the split is unique |
| RecordSplitter.SplitOfLeftmost | src/app/page.tsx:173 | with `y` the leftmost separator in `x + y`, `x + y + rest` splits into `x`, then the split of `rest` |
| RecordSplitter.LeftmostSeparatorFound | src/app/page.tsx:173 | the scan of `x + y + rest` finds `y` when `y` is leftmost in `x + y` |
| RecordSplitter.LeftmostExtends | src/app/page.tsx:173 | a separator leftmost in `x + y` stays leftmost whatever follows: no match starting inside `x` can reach past `y` |
| RecordSplitter.Split | src/app/page.tsx:173 | there is at least one record, and no record contains a blank line |
| RecordSplitter.SplitOfSeparatorFree | src/app/page.tsx:173 | a text with no separator splits into itself alone |
| RecordSplitter.NoBlankLineNoSeparator | src/app/page.tsx:173 | a text without a blank line contains no separator, because each separator starting with `\r` contains a blank line |
| RecordSplitter.SplitAfterEntry | src/app/page.tsx:173 | a separator-free entry that does not end in a line terminator, followed by any of the four separators, splits off as exactly that entry, ahead of the split of the rest |
| RecordSplitter.FirstSeparatorAfterEntry | src/app/page.tsx:173 | in such an entry followed by a separator, the leftmost match is that separator |
| RecordSplitter.NoDoubleTerminatorNoSeparator | src/app/page.tsx:173 | a text with no two line terminators in a row is never split |
| RecordSplitter.ThreeNewlinesKeepOne | src/app/page.tsx:173 | `a\n\n\nb` splits into `a` and `\nb`: the third newline stays with the next piece |
| RecordSplitter.CrLfSeparator | src/app/page.tsx:173 | after an entry, `\r\n\r\n` splits the text exactly where `\n\n` would |
| RecordSplitter.CarriageReturnJoinsSeparator | src/app/page.tsx:173 | in `x\n\nA\r\n\nb` the `\r` joins the second separator: the records are `x`, `A` and `b` |
| TitleExtractor.LineRest | src/app/page.tsx:179 | the greedy `.+` stops at the first line terminator: the result is a slice of the entry with no terminator, running to a terminator or the end |
| TitleExtractor.FirstTitleLine | src/app/page.tsx:179 | the position found is the leftmost line start holding `TI  - ` followed by a non-terminator, or there is none |
| TitleExtractor.TitleKey | src/app/page.tsx:179-181 | there is a key exactly when some line matches the title pattern; the key is non-empty and has no `\n` or `\r` |
| TitleExtractor.TitleKeyOfFirstLine | src/app/page.tsx:179-181 | the key is the text after `TI  - ` on the first matching line, up to the line's end, lower-cased |
| TitleExtractor.KeyOfTitleLine | src/app/page.tsx:179-181 | an entry `pre + "TI  - " + t + rest`, with the title line starting a line, no title line in `pre`, and `t` a whole line's text, has the key `t` lower-cased, wherever the line stands |
| TitleExtractor.KeyOfLeadingTitle | src/app/page.tsx:179-181 | when the entry begins with a title line, the key is that line's text lower-cased, whatever follows |
| TitleExtractor.KeyAfterTypeLine | src/app/page.tsx:179-181 | a record `TY  - JOUR`, `TI  - Sample Paper`, `ER  -` has the key `sample paper` |
| TitleExtractor.CaseInsensitiveKey | src/app/page.tsx:181 | two entries whose first title lines, at any position, differ only in ASCII case give equal keys |
| TitleExtractor.DeepLearningSameKey | src/app/page.tsx:181 | "Deep Learning" and "deep learning" give the same key |
| TitleExtractor.TrailingSpacesKept | src/app/page.tsx:179-181 | the key keeps trailing spaces and stops before `\r\n` |
| TitleExtractor.EmptyTitleIsNoTitle | src/app/page.tsx:179-180 | a tag with nothing after it on the line is no title |
| Deduplicator.ProcessRisFiles | src/app/page.tsx:167-205 | unique text = the first entry of each key plus `"\n\n"`, in first-appearance order; duplicate text = later entries grouped by key, keys in order of first duplicate; count = number of distinct keys; duplicateCount = number of duplicate entries; the two counts add up to the number of titled entries |
| Deduplicator.FoldMatchesReference | src/app/page.tsx:171-203 | folding files and then entries into the two maps yields exactly the reference first-entry list and grouped duplicates |
| Deduplicator.VisitFilesIsVisitAll | src/app/page.tsx:171-175 | visiting file after file is the same as visiting the concatenation of all their records |
| Deduplicator.VisitAllReflects | src/app/page.tsx:175-191 | after any prefix of the entries, the maps equal the reference definitions for the titled entries seen so far |
| Deduplicator.Insert | src/app/page.tsx:182-189 | after inserting, the key is in `allEntries`; the entries stored before are kept in place; exactly one entry is added across the two maps |
| Deduplicator.Visit | src/app/page.tsx:176-190 | one record keeps the stored entries in place and adds one entry when it has a title and is not blank, none otherwise |
| Deduplicator.VisitAll | src/app/page.tsx:175-191 | the records of one file keep the stored entries in place and add one entry per titled record |
| Deduplicator.VisitFiles | src/app/page.tsx:171-192 | the files keep the stored entries in place and add one entry per titled record across all files |
| Deduplicator.InsertReflects | src/app/page.tsx:182-189 | one insertion keeps the maps equal to the reference definitions: new key to `allEntries`, second entry opens a group at the end of `duplicates`, a later one extends its group |
| Deduplicator.PushSpec | src/app/page.tsx:188 | `Push`, the push onto an existing group, keeps the keys and their order and adds exactly one duplicate |
| Deduplicator.GroupedPush | src/app/page.tsx:185-188 | a further entry of a repeating key lands at the end of that key's group and nowhere else |
| Deduplicator.FirstSeenKeys | src/app/page.tsx:182-183 | the keys in `allEntries` are exactly the keys that occur, each once |
| Deduplicator.DuplicateKeysSpec | src/app/page.tsx:185-187 | a key has a duplicate group exactly when it occurs at least twice, and no key has two groups |
| Deduplicator.DroppedEntryIgnored | src/app/page.tsx:176-180 | a blank entry or one without a title line changes neither map, wherever it stands |
| Deduplicator.NoRepeatedKeyNoDuplicates | src/app/page.tsx:194-203 | with no repeated key, count is the number of titled entries and there are no duplicates |
| Deduplicator.FirstEntryIsStored | src/app/page.tsx:182-183 | the entry stored for a key is its first one; later entries do not replace it |
| Deduplicator.OrderAcrossFiles | src/app/page.tsx:171-197 | records X, Y then X, Z give unique X, Y, Z and the duplicate X |
| Deduplicator.DuplicatesGroupedByKey | src/app/page.tsx:185-197 | titles a, b, b, a, b give duplicates b, b, a: grouped by key, not in encounter order |
| Deduplicator.SameTitleTwice | src/app/page.tsx:167-205 | a file of two records with one title gives one unique and one duplicate record, each followed by `"\n\n"` |
| Deduplicator.TwoEntriesSameKey | src/app/page.tsx:182-197 | two entries with one key leave the first as the only unique entry and the second as the only duplicate |
| Deduplicator.ReprocessUniqueContent | src/app/page.tsx:173-203 | processing the unique text again keeps the count and finds no duplicates |
| QuickCounter.NoSelfOverlap | src/app/page.tsx:105 | two occurrences of `TY  -` cannot overlap |
| QuickCounter.TagPositions | src/app/page.tsx:105 | the global search returns occurrences of the tag, at least five apart, in increasing order, and misses none |
| QuickCounter.MatchAll | src/app/page.tsx:105 | the match is `null` exactly when the tag occurs nowhere; otherwise it lists `TY  -` once per occurrence |
| QuickCounter.QuickCount | src/app/page.tsx:105-106 | the count is the number of positions where `TY  -` occurs anywhere, and is 0 exactly when there is none |
| QuickCounter.PositionsAreOccurrences | src/app/page.tsx:134-135 | the matches list every occurrence exactly once |
| QuickCounter.MatchCount | src/app/page.tsx:106 | the length of the match list, or 0 for `null`, is the quick count |
| QuickCounter.TotalCountBounds | src/app/page.tsx:152-164 | the sum of the per-file counts is at least each file's count, and is 0 exactly when no file holds the tag |
| QuickCounter.TotalCountStep | src/app/page.tsx:160-161 | adding one more file adds its count to the sum |
| QuickCounter.CountRisItems | src/app/page.tsx:152-164 | the loop's total is the sum of the per-file counts |
| QuickCounter.UnanchoredMatch | src/app/page.tsx:158 | a tag in the middle of a line is counted |
| BaseName.Shrink | src/app/page.tsx:40-43 | the inner loop leaves the longest common prefix of the current prefix and the name |
| BaseName.PrefixFrom | src/app/page.tsx:38-44 | the outer loop leaves the longest prefix of the start value shared by all remaining names |
| BaseName.CommonPrefix | src/app/page.tsx:35-44 | the result is a prefix of every name, and no common prefix is longer |
| BaseName.CommonPrefixUnique | src/app/page.tsx:38-44 | any longest common prefix is the loop's result |
| BaseName.CommonPrefixOfPair | src/app/page.tsx:38-44 | two names differing only in their last character have everything before it as the common prefix |
| BaseName.StripVersion | src/app/page.tsx:48 | the result is a prefix; what is removed matches `[-_]?[vV]\d+` to the end; no match starts earlier |
| BaseName.StripNumber | src/app/page.tsx:49 | the result is a prefix; what is removed matches `[-_]\d+` to the end; no match starts earlier |
| BaseName.StripDashes | src/app/page.tsx:50 | the result is a prefix; what is removed is a run of `-`/`_` reaching the end; no such run starts earlier |
| BaseName.CleanUp | src/app/page.tsx:47-50 | clean-up only shortens: the result is a prefix of its input |
| BaseName.CleanUpKeepsPlainEnding | src/app/page.tsx:47-50 | a prefix ending in something other than a digit, dash or underscore is kept whole |
| BaseName.CleanUpDropsDashes | src/app/page.tsx:50 | trailing dashes and underscores after a plain ending are removed |
| BaseName.CleanUpDropsVersion | src/app/page.tsx:48 | a trailing `_v` and digits after a plain ending are removed |
| BaseName.StripExtension | src/app/page.tsx:35 | the result followed by `.ris`, when the name ends in it, gives back the name |
| BaseName.StripExtensions | src/app/page.tsx:35 | one stripped name per file, in order |
| BaseName.StripExtensionOf | src/app/page.tsx:35 | `.ris` at the end of a name is removed |
| BaseName.GetCommonBaseName | src/app/page.tsx:32-53 | the result is never empty; it is `output` for no files; otherwise it is the cleaned-up common prefix when that is non-empty, and then a prefix of every name without `.ris`; else the first name without `.ris` when that is non-empty; else `output` |
| BaseName.NothingInCommonGivesFirstName | src/app/page.tsx:52 | two names with different first characters give the first name without `.ris` |
| BaseName.PairBaseName | src/app/page.tsx:32-53 | two names differing only in the character before `.ris` are named after their shared part, cleaned up |
| BaseName.SingleBaseName | src/app/page.tsx:32-53 | a single file is named after its own name without `.ris`, cleaned up |
| BaseName.DifferentVersionsKeepLetter | src/app/page.tsx:32-53 | `scopus_v1.ris` and `scopus_v2.ris` give `scopus_v` |
| BaseName.SingleFileDropsVersion | src/app/page.tsx:32-53 | a single `scopus_v1.ris` gives `scopus` |
| BaseName.NumberedPartsDropDash | src/app/page.tsx:32-53 | `refs-1.ris` and `refs-2.ris` give `refs` |

## Left out

- React state, hooks, rendering and the drag-and-drop and file-input handlers are left out: they are user-interface plumbing. Only the `TY  -` counting lines inside those handlers are modelled.
- `downloadFile` and `getTimestampedFilename` are left out. The first works through the DOM, `Blob` and `URL`; the second reads the clock.
- Asynchronous `file.text()` reads are left out: the model takes the decoded texts as input, in the order supplied.
- The `.ris` extension filter on uploads and its toast messages are left out: they are validation and notification in the user interface.
- Lower-casing is ASCII-only, not full Unicode `toLowerCase`.
- U+2028 and U+2029 are not treated as line terminators in the title pattern. They do count as white space for `trim()`.
- Strings are sequences of Unicode scalar values, not UTF-16 code units. `slice(0, -1)` on a name ending in a surrogate pair would remove half a character in the program, but removes the whole character here.
- Deduplicator.ReprocessUniqueContent: requires that no titled record ends in `\r` or `\n`. For such a record, the appended `"\n\n"` can move the separator when the text is split again.
- `src/app/layout.tsx` is not part of this model: it holds static metadata and layout only.
