# DiskStats in Dafny

A model of the data pipeline in `DiskStats.js`, a batch script that collects Zenless Zone Zero builds from a character guide site. For every drive disc, the script reports which main stats and sub-stats the characters that use the disc recommend. The fetching, logging and file writing are left out. What remains is the chain of transforms below, each stated and proved in Dafny.

- **Character records** (`Records`). Each character page becomes a record with:
  - a display name;
  - the recommended build, or `null` when the character has none;
  - an empty disc list.

  The records are objects (`CharacterRecord`), because the merge later writes their `disks` field in place.
- **Sub-stat normalisation** (`Substats`). The raw recommendation goes through the five `.replace` calls, then `split(',')`, de-duplication through a `Set`, and `join(', ')`. Each rewrite is a function on strings with its own contract. The normalised names are proved:
  - pairwise distinct;
  - free of `,`, `>`, `=`, `[`, `]` and the substring `or`;
  - recovered exactly by the later `split(', ')`.

  The normalised string never has a `)` after a `(`. Normalising is **not** idempotent: `"A>=B"` becomes `"A,  B"`, and that becomes `"A, B"` (`Substats.NormalizeNotIdempotent`).
- **Disc extraction** (`DiscExtraction`). The regular expressions are written out as the searches they perform: the section between `},C=t` and `,T=t`, the lazy block of each character, the greedy `[^"]+` captures and the global `matchAll` scan.
  - The block terminator `"\w+"===a` cannot match a hyphenated slug, so such a character's marker does not end the block before it (`MarkerTerminatesIffWordSlug`).
  - The cleaned disc list has no duplicates, no `/`, and only trimmed entries. It holds every trimmed `/`-part of every capture, and the main captures' parts come first.
  - A missing section is the one fatal error. A character whose block is missing gets no entry.
- **Merge** (`Merge`). `mergeData` writes `diskData[name]` into each record that has an entry. It keeps the order, the names and the stats.
- **Aggregation** (`Aggregation`). Nested loops fill `diskStats`, which has four frequency tables per disc.
  - JavaScript objects are insertion-ordered entry lists (`JsObject`). Their order feeds the stable sort.
  - Every count is proved to equal a sum over the characters that have stats: how often the character lists the disc, times how often it lists the stat.
  - A character without stats creates no disc entry.
- **Ranking and report** (`Ranking`, `Report`).
  - `getTopCounts` selects the top N with ties from a stable sort by descending count.
  - The report is built by appending to a string. Discs appear in `sort()` order, each exactly once, with detail lists in non-increasing count order.

The loops of the source are methods with loop invariants. Each is proved equal to a specification function, and the lemmas state what that function means.

## Model

| member | source | states |
|---|---|---|
| Text.IndexOf | DiskStats.js:80 | The result is the first index where the pattern occurs, or None exactly when it occurs nowhere. |
| Text.Split | DiskStats.js:80 | `split` gives at least one piece. No piece contains the separator. Every piece occurs in the input. |
| Text.SplitAt | DiskStats.js:80 | One step of `split`: the text before the first separator, then the pieces of the rest. |
| Text.JoinSplit | DiskStats.js:80-81 | Joining the pieces of a split with the same separator gives the string back. |
| Text.SplitJoin | DiskStats.js:207 | Splitting a joined list gives the list back, provided no element holds the separator's first character. |
| Text.Trim | DiskStats.js:149 | `trim()` returns a string that neither starts nor ends with whitespace. |
| Text.TrimAll | DiskStats.js:149 | Computes `map(d => d.trim())`: each element trimmed, in order. |
| Text.TrimSpec | DiskStats.js:151 | The trimmed string occurs in the input, with only whitespace before and after it. Each of its characters is one of the input's. |
| Text.TrimKeepsOut | DiskStats.js:149 | Trimming introduces no character, so a `/`-part stays free of `/`. |
| Text.TrimTrimmed | DiskStats.js:232 | A trimmed string is left unchanged, so trimming twice is the same as trimming once. |
| Substats.RemoveSpaces | DiskStats.js:75 | Every whitespace character is removed and every other character is kept. |
| Substats.ReplaceComparisons | DiskStats.js:76 | No `>` or `=` is left. Every new character is `,` or a space. |
| Substats.GroupClose | DiskStats.js:77 | Finds the first `)` of a lazy group, with no `)` and no line terminator before it. It fails only when every `)` has a line terminator before it, because `.` does not match one. |
| Substats.DropGroups | DiskStats.js:77 | Adds no character. On text without line terminators, no `)` is left after a `(`. With DropGroupsKeep, DropGroupsUnclosed and DropGroupsGroup, it is fixed at every first character. |
| Substats.DropBrackets | DiskStats.js:78 | No `[` or `]` is left. No character is added. A text without a closed group stays so. |
| Substats.OrToComma | DiskStats.js:79 | No `or` is left. Every new character is a comma. A text without a closed group stays so. |
| Substats.RewrittenTextHasNoLineTerminator | DiskStats.js:75-77 | After whitespace removal there is no line terminator, so `.` in `\(.*?\)` matches everywhere. |
| Substats.RemoveSpacesAppend | DiskStats.js:75 | Whitespace removal distributes over concatenation. |
| Substats.RemoveSpacesChar | DiskStats.js:75 | A single character is removed exactly when it is whitespace. Together with `RemoveSpacesAppend` this fixes the result, in order. |
| Substats.ReplaceComparisonsAppend | DiskStats.js:76 | The operator rewrite distributes over concatenation wherever the cut does not part a `>=`. |
| Substats.ReplaceComparisonsUnits | DiskStats.js:76 | `>=` becomes one `", "`, a lone `>` or `=` becomes `", "`, and any other character stays. |
| Substats.ReplaceComparisonsKeeps | DiskStats.js:76 | Text without `>` and `=` is unchanged. |
| Substats.GroupCloseAt | DiskStats.js:77 | In text without line terminators, the first `)` closes the group. |
| Substats.DropGroupsGroup | DiskStats.js:77 | A `(`, text without `)` or line terminator, and a `)` are removed together, and the scan carries on after them. |
| Substats.DropGroupsKeep | DiskStats.js:77 | A character other than `(` is kept, and the scan goes on after it. |
| Substats.DropGroupsUnclosed | DiskStats.js:77 | A `(` that no `)` closes is kept, and the scan goes on after it. |
| Substats.DropGroupsNoOpen | DiskStats.js:77 | Text without `(` is unchanged. |
| Substats.DropBracketsAppend | DiskStats.js:78 | Bracket removal distributes over concatenation. |
| Substats.DropBracketsChar | DiskStats.js:78 | A single character is removed exactly when it is `[` or `]`. |
| Substats.OrToCommaNoOr | DiskStats.js:79 | Text without `or` is unchanged. |
| Substats.OrToCommaAtFirstOr | DiskStats.js:79 | The first `or` becomes a comma, and the text before it stays. |
| Substats.OrToCommaIsSplitJoin | DiskStats.js:79 | `.replace(/or/g, ',')` equals `.split('or').join(',')` for every string. |
| Substats.Rewrite | DiskStats.js:75-79 | Computes the five `.replace` calls in source order. |
| Substats.Tokens | DiskStats.js:73-80 | Computes `Array.from(new Set(rewritten.split(',')))`. |
| Substats.Normalize | DiskStats.js:73-81 | Computes the `substats` string: the tokens joined with `", "`. |
| Substats.RewriteProperties | DiskStats.js:75-79 | The rewritten text has no `>`, `=`, `[`, `]` or `or`, and no closed parenthesis group. |
| Substats.TokensWellFormed | DiskStats.js:73-80 | The normalised names are pairwise distinct and at least one. None contains `,`, `>`, `=`, `[`, `]` or `or`. |
| Substats.NormalizeNoClosedGroup | DiskStats.js:73-81 | No `)` follows a `(` anywhere in the normalised string. |
| Substats.NormalizeSplitRoundTrip | DiskStats.js:80-81 | Splitting the joined string on `", "`, as line 207 does, gives exactly the normalised names back. |
| Substats.NormalizeNotIdempotent | DiskStats.js:73-81 | `"A>=B"` normalises to `"A,  B"`, and that normalises to `"A, B"`. |
| Seqs.Dedup | DiskStats.js:73 | `[...new Set(xs)]` has no duplicates and the same members as xs. |
| Seqs.DedupIsFirstOccurrences | DiskStats.js:73 | De-duplication equals the "keep the first occurrence, drop later copies" definition. |
| Seqs.DedupNoDup | DiskStats.js:155 | A list without duplicates is unchanged by a `Set` round trip. |
| Seqs.DedupPrefix | DiskStats.js:144 | The de-duplicated prefix comes first. Everything after it is new and comes from the appended part. |
| Seqs.DedupFlatMapDedup | DiskStats.js:144-155 | De-duplicating before the `flatMap` does not change the final de-duplicated list. |
| DiscExtraction.FindDiskSection | DiskStats.js:112-119 | Returns the group of the leftmost `},C=t`, lazily ended at the next `,T=t`. It is None exactly when no `,T=t` follows any `},C=t`. |
| DiscExtraction.WordMarkerAtMeans | DiskStats.js:129 | The terminator test matches exactly when some run of one or more word characters fits `"\w+"===a`. |
| DiscExtraction.FirstTerminator | DiskStats.js:129 | Returns the first block terminator at or after a position, or None when there is none. |
| DiscExtraction.FindCharBlock | DiskStats.js:129-135 | Returns the lazy block after the first marker of the slug. It is None exactly when no terminator follows any marker. |
| DiscExtraction.MarkerTerminatesIffWordSlug | DiskStats.js:129 | A slug's marker also ends a block if and only if the slug consists only of word characters. |
| DiscExtraction.CaptureAtStart | DiskStats.js:122-123 | A capture is a non-empty run without quotes, and the whole pattern occurs at the start. |
| DiscExtraction.CaptureAtStartComplete | DiskStats.js:122-123 | Any capture the pattern accepts at the start is the one returned. |
| DiscExtraction.MatchAll | DiskStats.js:140-141 | Every capture of the global scan is non-empty and has no quote, and the text contains it wrapped in the pattern's opening and closing text. `MatchAllLeftmost` proves the result is exactly the leftmost non-overlapping captures. |
| DiscExtraction.MatchAllSkip | DiskStats.js:140-141 | Text holding no first character of the opening text yields no capture, and the scan carries on after it. |
| DiscExtraction.MatchAllStep | DiskStats.js:140-141 | A match at the start yields its capture, and the scan resumes right after the match. |
| DiscExtraction.MatchAllGapThenMatch | DiskStats.js:140-141 | A gap in which no match starts, followed by a match, yields that one capture before the scan of what follows. The gap may hold the opening text's first character. |
| DiscExtraction.MatchAllSpread | DiskStats.js:140-141 | For captures separated by gaps in which no match starts, the scan returns exactly those captures, in order. |
| DiscExtraction.MatchAllSkipNoMatch | DiskStats.js:140-141 | Text in which no match starts is skipped, whatever characters it holds and whatever follows it. |
| DiscExtraction.NoOpenNoMatch | DiskStats.js:140-141 | No match starts in text without the opening text's first character. |
| DiscExtraction.OpenCutShortNoMatch | DiskStats.js:140-141 | No match starts in text where each first character of the opening text is not followed by its second. |
| DiscExtraction.MatchIsCapture | DiskStats.js:140-141 | A match at the start of the text is found by the capture step. |
| DiscExtraction.SpreadGaps | DiskStats.js:140-141 | The text is exactly the gaps the scan leaves with its matches between them. |
| DiscExtraction.GapsNoMatch | DiskStats.js:140-141 | No match starts inside a gap the scan leaves. |
| DiscExtraction.MatchAllLeftmost | DiskStats.js:140-141 | The scan returns cs exactly when the text is cs's matches with gaps in which no match starts, for every text. |
| DiscExtraction.MainScanPastName | DiskStats.js:140-141 | `null,` holds the `n` of `name:"` but starts no match, so the main disc after it is found. |
| DiscExtraction.ExtraScanPastQuotes | DiskStats.js:140-141 | Quotes before an extra disc do not hide it from the extra scan. |
| DiscExtraction.MatchAllRender | DiskStats.js:140-141 | Scanning the text of back-to-back matches returns exactly their captures, in order. |
| DiscExtraction.SplitTrim | DiskStats.js:147-152 | Computes the `flatMap` callback: trimmed `/`-parts when the name has a `/`, otherwise the name trimmed. |
| DiscExtraction.SplitTrimParts | DiskStats.js:147-152 | Both branches of the `flatMap` callback trim the `/`-parts. |
| DiscExtraction.SplitTrimShape | DiskStats.js:147-152 | Every part the callback makes is trimmed and has no `/`. |
| DiscExtraction.CleanDiscs | DiskStats.js:144-155 | Computes the Set of the captures, then the `flatMap`, then the second Set. |
| DiscExtraction.ExtractDiscs | DiskStats.js:140-155 | Computes the cleaned disc list of one block from its main and extra captures. |
| DiscExtraction.CleanDiscsFlat | DiskStats.js:144-155 | The inner de-duplication does not affect the cleaned list. |
| DiscExtraction.CleanDiscsProperties | DiskStats.js:140-155 | The list has no duplicates, no `/`, and only trimmed entries. It holds every trimmed `/`-part of every capture and nothing else. The main captures' parts come first, in first-seen order. |
| DiscExtraction.DiskDataFrom | DiskStats.js:125-156 | Computes `diskData` after the loop: the assignments of each found character's discs, in order. |
| DiscExtraction.DiskDataFromKeys | DiskStats.js:129-155 | A name has an entry exactly when some character of that name has a block. |
| DiscExtraction.DiskDataFromLast | DiskStats.js:155 | A name's entry is the disc list of the last character of that name whose block is found. |
| DiscExtraction.DiskDataFromValues | DiskStats.js:140-155 | Every entry is the cleaned disc list of some block. |
| DiscExtraction.DiskDataStep | DiskStats.js:128-156 | One loop pass leaves the mapping unchanged when the block is missing. Otherwise it sets the character's entry. |
| DiscExtraction.GetDiskInformation | DiskStats.js:112-159 | Fails exactly when the disc section is missing. Otherwise it returns the mapping built over all characters in order. |
| Records.StatsFrom | DiskStats.js:69-82 | Computes `stats`: null without a build, otherwise the main-stat lists and the normalised sub-stat string. |
| Records.StatsFromSubstats | DiskStats.js:69-82 | Stats are null exactly without a build. The `substats` string splits on `", "` into the distinct normalised names and has no closed group. |
| Records.CharacterRecord.constructor | DiskStats.js:67-84 | A record has the unit's full name, its stats and an empty disc list. |
| Records.InitialRecords | DiskStats.js:60-87 | One record per unit, in order, each with an empty disc list. |
| Records.CollectCharacters | DiskStats.js:57-90 | Creates one fresh, distinct record and one name/slug reference per character, in order, matching `InitialRecords`. |
| Merge.MergedDisks | DiskStats.js:173-175 | Computes a record's disc list: the entry for its name if there is one, otherwise the list it had. |
| Merge.MergeAll | DiskStats.js:169-180 | Same length and order. Names and stats are unchanged. Disc lists are replaced exactly for names with an entry. |
| Merge.MergeIdempotent | DiskStats.js:169-180 | Merging twice with the same mapping is the same as merging once. |
| Merge.MergeEmpty | DiskStats.js:177 | With no disc data every record is unchanged. |
| Merge.MergedDiscsClean | DiskStats.js:155-175 | After the whole pipeline every record's disc list has no duplicates and no `/`, and every entry is trimmed. |
| Merge.MergeData | DiskStats.js:169-183 | Writes the disc lists in place, returns the same list, and leaves the records equal to `MergeAll` of their old values. |
| JsObject.Get | DiskStats.js:220 | Computes `obj[k]`: the value of the entry with key k, or None for undefined. |
| JsObject.Put | DiskStats.js:220 | Computes `obj[k] = v`: the value replaced in place for an existing key, or a new last entry. |
| JsObject.GetSpec | DiskStats.js:220 | `obj[k]` is defined exactly when k is a key, and the value is stored with k. |
| JsObject.PutGet | DiskStats.js:220 | After `obj[k] = v`, `obj[k]` is v. |
| JsObject.PutOther | DiskStats.js:220 | An assignment leaves every other key's value unchanged. |
| JsObject.PutKeys | DiskStats.js:210-211 | A new key goes last, and an existing key keeps its place. |
| JsObject.PutPut | DiskStats.js:210-217 | When a key is assigned twice, the second value wins, in the place of the first. |
| Aggregation.Increment | DiskStats.js:220 | Computes `t[s] = (t[s] \|\| 0) + 1`. |
| Aggregation.TallyAll | DiskStats.js:219-221 | Computes a table after counting every element of a list, in order. |
| Aggregation.TallyAllValid | DiskStats.js:219-235 | Counting keeps a table's keys distinct and its counts positive. |
| Aggregation.TallyAllCount | DiskStats.js:219-221 | Each stat's count goes up by the number of times the list holds it. |
| Aggregation.TallyAllKeys | DiskStats.js:219-221 | New stats are added to a table in first-seen order. |
| Aggregation.NonEmpty | DiskStats.js:207 | `.filter(Boolean)` keeps exactly the list's non-empty strings. |
| Aggregation.NonEmptyCount | DiskStats.js:207 | Each non-empty string is kept as often as it occurs, and the empty string is dropped. |
| Aggregation.TrimmedNames | DiskStats.js:231-235 | Every counted sub-stat name is trimmed and non-empty. |
| Aggregation.TrimmedNamesIsTrimFilter | DiskStats.js:231-235 | Trim-and-skip equals trimming every piece and then filtering out the empty strings. |
| Aggregation.TrimmedNamesCount | DiskStats.js:231-235 | A non-blank name is counted once for each piece that trims to it. |
| Aggregation.SubstatNames | DiskStats.js:207-235 | Computes the sub-stat names a character counts: the `", "` pieces, non-empty, trimmed, blank ones skipped. |
| Aggregation.TrimmedNamesNonEmpty | DiskStats.js:207-235 | The `filter(Boolean)` before the trim-and-skip changes nothing. |
| Aggregation.AddDisc | DiskStats.js:210-236 | Computes one disc pass: the disc's tables, created empty if missing, count the character's names. |
| Aggregation.AddDiscs | DiskStats.js:209-237 | Computes the disc passes for each of a character's discs, in order. |
| Aggregation.AggregateAll | DiskStats.js:198-238 | Computes `diskStats` after the character loop. A character without stats adds nothing. |
| Aggregation.AddDiscsKeys | DiskStats.js:209-217 | New discs get their tables in first-use order. |
| Aggregation.AggregateKeys | DiskStats.js:198-217 | The discs of `diskStats` are the ones used by characters with stats, each once, in first-use order. A disc used only by characters without stats has no entry. |
| Aggregation.AddDiscsCount | DiskStats.js:209-236 | A character adds, times each listing of the disc, the number of times it lists the stat. |
| Aggregation.AggregateCounts | DiskStats.js:198-238 | Every count equals a sum over the characters with stats: disc occurrences times stat occurrences. |
| Aggregation.TotalWithoutRepeats | DiskStats.js:198-238 | When disc lists have no duplicates, a count is the sum of stat occurrences over the characters with stats that list the disc. |
| Aggregation.AggregateValid | DiskStats.js:198-238 | Every table of every disc has distinct keys and positive counts. |
| Aggregation.TableListsContributors | DiskStats.js:198-238 | A stat is in a disc's table exactly when its total is positive, and its stored count is that total. |
| Aggregation.TallyInto | DiskStats.js:219-221 | The counting loop gives the table `TallyAll` describes. |
| Aggregation.TallySubstats | DiskStats.js:231-236 | The sub-stat loop counts exactly the trimmed, non-blank pieces. |
| Aggregation.CountDisc | DiskStats.js:210-236 | One disc pass creates the tables if missing, then counts the character's names into them. |
| Aggregation.CountCharacter | DiskStats.js:199-237 | A character without stats changes nothing. Otherwise each of its discs counts its names. |
| Aggregation.AggregateDiscStats | DiskStats.js:196-238 | The character loop over the merged records gives `AggregateAll` of their values. |
| Ranking.SortByCountDesc | DiskStats.js:245 | Computes the sort by descending count as a stable insertion sort. |
| Ranking.SortByCountDescSorted | DiskStats.js:245 | The sort by `b[1] - a[1]` gives non-increasing counts and is a permutation of the entries. |
| Ranking.SortByCountDescStable | DiskStats.js:245 | The sort is stable: entries with equal counts keep their `Object.entries` order. |
| Ranking.TopWithTies | DiskStats.js:249-258 | Returns a prefix: all entries when there are at most N, none when N is 0. Otherwise the first N plus exactly the following entries that tie with the N-th. |
| Ranking.TopWithTiesThreshold | DiskStats.js:249-258 | On sorted entries, an entry is selected if and only if its count is at least the N-th's. |
| Ranking.GetTopCounts | DiskStats.js:244-261 | The loop with `currentCount` and `break` returns `TopWithTies` of the sorted entries. |
| Report.NatToString | DiskStats.js:275 | `${count}` is a non-empty string of decimal digits with no leading zero. |
| Report.ParseNatToString | DiskStats.js:284 | The printed digits read back as the count. |
| Report.NatToStringInjective | DiskStats.js:284 | Different counts print differently. |
| Report.LexLessTotal | DiskStats.js:264 | The `sort()` order sets any two different names one way round. |
| Report.SortStrings | DiskStats.js:264 | Computes `sort()` without a comparator, as an insertion sort in lexicographic order. |
| Report.SortStringsSorted | DiskStats.js:264 | `sort()` orders the names and keeps exactly the same multiset. |
| Report.SortStringsDistinct | DiskStats.js:264 | Sorting distinct names lists each exactly once, in strictly ascending order. |
| Report.ReportDiscOrder | DiskStats.js:264 | The report's discs are those used by characters with stats, each once, in strictly ascending order. |
| Report.ReportDiscsPresent | DiskStats.js:264-265 | Every disc the report names has its own table in `diskStats`. |
| Report.DetailListing | DiskStats.js:282-300 | A detail list is in non-increasing count order and stable. It lists every stat of the table exactly once, with the table's count. |
| Report.Summary | DiskStats.js:266-279 | Computes the heading and summary: the top 2, 2, 2 and 4 entries, as `stat: count` joined with `", "`. |
| Report.DiscSection | DiskStats.js:266-302 | Computes a disc's section: summary, four titled detail lists and a blank line. |
| Report.ReportText | DiskStats.js:264-303 | Computes the report: the sections of the discs in `sort()` order. |
| Report.AppendDetails | DiskStats.js:283-285 | The `output +=` loop appends one `- stat = count` line per entry, in order. |
| Report.AppendDetailBlock | DiskStats.js:282-285 | A title, then its sorted detail lines. |
| Report.AppendDiscSection | DiskStats.js:265-302 | Appends the heading, the summary of the top 2, 2, 2 and 4 entries, the four detail lists and a blank line. |
| Report.FormatDiskStats | DiskStats.js:193-306 | Returns the sections of all discs of the aggregated tables, in `sort()` order. |

## Left out

- The network. `fetch`, `response.json()`, `response.text()` and the `response.ok` test are not modelled. The page data and script text are parameters: a `Unit` per character, and the script's content for `GetDiskInformation`.
- The JSON traversal down to `unit` and `.map(stat => stat.stat)` are not modelled. The main-stat lists arrive as lists of names.
- `fs.writeFileSync`, `JSON.stringify`, `console` output, the try/catch-and-rethrow wrappers, and `main()`, which only orchestrates I/O steps.
- A slug interpolated into `new RegExp` without escaping. Slugs are treated as literal text, and only the `"`, `===a` and `\w` structure of the block pattern is modelled.
- The check `diskSections.length < 2` is not modelled. A successful match of a pattern with one group always has length 2.
- Truthiness of `unit.build` beyond present or absent (`Option`). `character.disks || []`, `stats.main_4 || []` and `stats.substats || ''` are not modelled, because the records always hold a list or a string there.
- JavaScript property order for integer-like keys, and prototype keys such as `constructor` or `__proto__`. Objects are plain insertion-ordered entry lists.
- `diskData`. Once built it is only looked up by name, so it is a `map` rather than an insertion-ordered object.
- Character order. Strings are sequences of Unicode scalar values, compared by code point. `sort()` on JavaScript strings compares UTF-16 code units, which differs only for characters outside the Basic Multilingual Plane.
- Number formatting beyond non-negative integers. Counts are never negative or fractional.
- Aliasing between records. `CollectCharacters` creates distinct records. `MergeData` is specified for any list, and a record listed twice is written twice with the same value.
