# noskrien-ziemu: name reconciliation and race comparison in Dafny

This project models the in-memory core of the Noskrien Ziemu results site. The site scrapes
winter-running results, reconciles participant names that differ only in Latvian
diacritics or case, loads them into a database, and compares two runners' shared races.

The model covers:

- **Latvian folding** (`latvian.dfy`, `latvian_variants.dfy`). This is `normalizeLatvian`,
  `countLatvianChars` and `hasNaturalCasing` of `src/utils/latvian.ts`. It also covers the
  two other folds and relates them to the first:
  - the search fold of `worker/index.ts` and `scripts/check_duplicates.ts`, a chain of
    case-insensitive `replace` calls;
  - `normalizeName` and `hasLatvianChars` of the merge migration, which lowercase first
    and then fold.
- **Race comparison** (`comparison.dfy`, `comparison_facts.dfy`). This is `parseTime`,
  `calculatePace`, `deriveSeasonFromDate` and `compareRaces`.
  - Distances and paces are `real`.
  - Dates are read straight from their `YYYY-MM-DD` digits (ISO 8601 extended calendar
    date).
  - `compareRaces` is a method: a loop indexes the second history, a loop collects rows
    from the first, then the rows are sorted.
- **The normalization pass** (`normalize.dfy`, `normalize_pass.dfy`, `normalize_facts.dfy`).
  This is `selectCanonicalName` and the in-memory body of `normalizeData`:
  - loading the registry;
  - the cross-gender repair;
  - counting merges;
  - writing each group's races back per file.
  The methods follow the script's loops over an ordered map that stands for a JavaScript
  `Map`.
- **The DB merge migration** (`migration.dfy`, `migration_run.dfy`, `migration_facts.dfy`).
  The merge plan is a function of the participant rows. `MigrationRun.Db` is a class whose
  two map fields, the participants by id and each race's participant, are updated by the
  migration's UPDATE and DELETE statements.
- **The duplicate checker** (`duplicates.dfy`). This is the load, grouping and filter loops
  of `scripts/check_duplicates.ts`, with the gender rule of its line 55 as written. The
  corrected rule is kept beside it so the two can be compared (see Findings).
- **Field extraction from scraped pages** (`extract.dfy`, `extract_facts.dfy`). This covers:
  - `parseDate` and `MONTH_MAP`;
  - the row and cell rules of `extractRaces`;
  - `extractLinks` over the hrefs the regular expression matched;
  - `extractName`, with its `<title>` regular expression read over the page text.
- **SQL generation** (`sql.dfy`, `sql_run.dfy`, `sql_facts.dfy`). This is `escapeSQLString`
  and `generateSQL`. The script is a list of statement values with their text and their
  effect on an abstract two-table database. `SqlRun.GenerateSql` is the emitting loop nest.
- **Shared pieces** (`text.dfy`, `records.dfy`, `collections.dfy`):
  - the JavaScript string built-ins the core uses: `trim`, `split`, `includes`, `parseInt`,
    `parseFloat`, `padStart` and number printing;
  - the file records and the gender-from-file-name rule;
  - `Map` filled by `set`, `Map` of arrays filled by `push`, the stable `sort`, and the
    positions and values a list of optional results yields.

Each state-changing method is proved against a function of its inputs. The properties the
system promises are proved as lemmas about those functions.

A few points where the model reads the code rather than its comments:

- The documentation example at `src/utils/latvian.ts:49` gives `countLatvianChars('Bērziņš')`
  as 2. The code counts 3 (ē, ņ, š), which is what `Latvian.CountExampleMixed` states.
- `scripts/pipeline/2-normalize-data.ts:3` imports `deriveSeasonFromDate` from
  `latvian.js`, which does not define it. The definition modelled is the one at
  `src/utils/comparison.ts:42-54`.
- The comment at `src/utils/comparison.ts:41` says a season runs from November to March.
  The code labels every month from January to October with the season that began the
  year before.
  - `ExtractFacts.ParsedDateSeason` shows the consequence. `parseDate` puts July to
    December in a season's start year. `deriveSeasonFromDate` then gives a July to October
    date the label of the season before.
- `loc1 === loc2` (`src/utils/comparison.ts:83`) always holds, because both locations are
  part of the key they were matched by. It is kept in `Comparison.Comparable` as written.

## Model

| member | source | states |
|---|---|---|
| Latvian.CharFacts | src/utils/latvian.ts:9-21 | The map sends each small Latvian letter to a small ASCII letter and each capital to a capital; it fixes exactly the characters outside the map and never yields a mapped letter; lowering keeps a letter mapped or unmapped and commutes with the map |
| Latvian.Fold | src/utils/latvian.ts:37-39 | normalizeLatvian keeps the length: one character replaces one character |
| Latvian.FoldAt | src/utils/latvian.ts:37-39 | Character i of the folded text is the map entry of character i |
| Latvian.FoldMapsLetters | src/utils/latvian.ts:9-21 | Each of the 22 letters becomes the ASCII letter of the same case; every other character is left as it is |
| Latvian.FoldLeavesNoLatvian | src/utils/latvian.ts:37-39 | A folded text has countLatvianChars 0 |
| Latvian.FoldFixedIffNoLatvian | src/utils/latvian.ts:51-54 | countLatvianChars(s) == 0 exactly when normalizeLatvian(s) == s |
| Latvian.FoldIdempotent | src/utils/latvian.ts:37-39 | normalizeLatvian is idempotent |
| Latvian.CountLatvianChars | src/utils/latvian.ts:51-54 | The count never exceeds the length |
| Latvian.CountIgnoresCase | src/utils/latvian.ts:51-54 | Small and capital letters are counted alike: lowering does not change the count |
| Latvian.CountExampleUpper | src/utils/latvian.ts:51-54 | countLatvianChars('JĀNIS') is 1 |
| Latvian.CountExampleMixed | src/utils/latvian.ts:51-54 | countLatvianChars('Bērziņš') is 3 |
| Latvian.FoldLowerCommute | src/utils/latvian.ts:37-39 | Folding and lowercasing commute |
| Latvian.Lower | scripts/pipeline/2-normalize-data.ts:93 | toLowerCase keeps the length |
| Latvian.Upper | src/utils/latvian.ts:74 | toUpperCase keeps the length |
| Latvian.Letters | src/utils/latvian.ts:68 | Removing non-letters never lengthens the text |
| Latvian.LettersAreNameLetters | src/utils/latvian.ts:68 | Only [a-zA-Z] and Latvian letters remain, and some remain exactly when the name has one |
| Latvian.LettersKeep | src/utils/latvian.ts:68 | A letter occurs after the removal exactly when it occurred before |
| Latvian.LettersKeepSmall | src/utils/latvian.ts:68 | The remaining letters include a small one exactly when the name does |
| Latvian.UpperFixedIffNoSmall | src/utils/latvian.ts:74 | A text of letters equals its uppercase exactly when it has no small letter |
| Latvian.NaturalCasingMeans | src/utils/latvian.ts:66-77 | hasNaturalCasing holds for a name without letters, and otherwise exactly when some letter is small, so it is false exactly when every letter is a capital |
| Latvian.CasingExample | src/utils/latvian.ts:74-76 | 'ĀBOLIŅŠ' does not have natural casing |
| LatvianVariants.ReplaceAll | worker/index.ts:9 | One global single-letter replace keeps the length |
| LatvianVariants.ReplaceAllAt | worker/index.ts:9 | A global replace acts on each character on its own |
| LatvianVariants.ApplyRules | worker/index.ts:7-20 | A chain of replace calls keeps the length |
| LatvianVariants.ApplyRulesAt | worker/index.ts:7-20 | A chain of replace calls acts on each character on its own |
| LatvianVariants.SearchChar | worker/index.ts:7-20 | The search chain sends each of the 22 letters, of either case, to its small ASCII letter and fixes every other character |
| LatvianVariants.SearchFoldAt | worker/index.ts:7-20 | The search fold keeps the length and maps character by character |
| LatvianVariants.SearchFoldMapsLetters | scripts/check_duplicates.ts:7-20 | Every mapped letter becomes small ASCII; every other character keeps its value and its case |
| LatvianVariants.SearchFoldIdempotent | worker/index.ts:7-20 | The search fold is idempotent |
| LatvianVariants.SearchFoldOfLower | worker/index.ts:7-20 | The search fold of a lowered text is the lowered case-preserving fold: searchFold(lower(s)) == lower(normalizeLatvian(s)) |
| LatvianVariants.LowerOfSearchFold | scripts/check_duplicates.ts:77 | The duplicate checker's key lower(searchFold(name)) equals the pipeline's lower(normalizeLatvian(name)) |
| LatvianVariants.MigrationChar | migrations/merge-latvian-duplicates.js:14-24 | The migration chain folds exactly the small Latvian letters and fixes every other character |
| LatvianVariants.NormalizeNameIsLowerFold | migrations/merge-latvian-duplicates.js:11-25 | normalizeName is the lowered case-preserving fold |
| LatvianVariants.NormalizeNameInsensitive | migrations/merge-latvian-duplicates.js:11-25 | normalizeName ignores case and Latvian diacritics: lowering or folding first changes nothing |
| LatvianVariants.HasLatvianCharsIffCount | migrations/merge-latvian-duplicates.js:28-30 | hasLatvianChars holds exactly when countLatvianChars is positive |
| Records.GenderOfFile | scripts/pipeline/3-generate-sql.ts:66 | 'S' exactly when the file name contains 'women'; 'V' exactly when it contains 'men' but not 'women'; else 'U' |
| Records.WomenContainsMen | scripts/pipeline/3-generate-sql.ts:65 | Every name containing 'women' contains 'men', which is why 'women' is checked first |
| Records.FileNameGenders | scripts/pipeline/2-normalize-data.ts:88 | results_women.json gives 'S' and results_men.json gives 'V' |
| Text.Trim | src/utils/comparison.ts:18 | trim never lengthens and leaves no whitespace at either end |
| Text.TrimIdempotent | src/utils/comparison.ts:18 | Trimming twice is trimming once |
| Text.Split | src/utils/comparison.ts:21 | split always gives at least one piece |
| Text.SplitJoin | src/utils/comparison.ts:21 | Joining the pieces gives the text back; there is one more piece than separators, and no piece holds the separator |
| Text.ReplaceFirst | src/utils/comparison.ts:87 | A one-character string replace changes only occurrences of that character, into the replacement |
| Text.ReplaceFirstAfter | src/utils/comparison.ts:87 | Only the first occurrence is replaced |
| Text.ParseIntDigits | src/utils/comparison.ts:25 | parseInt of a run of decimal digits is their value |
| Text.ParseFloatDecimal | src/utils/comparison.ts:87 | parseFloat of digits, a point and digits is the decimal value |
| Text.NatToString | src/utils/extract_results.ts:37 | Printing a number gives digits without a leading zero |
| Text.NatToStringRoundTrip | src/utils/extract_results.ts:37 | Reading back the printed digits gives the number |
| Text.IntToStringInjective | src/utils/comparison.ts:50 | Different years print differently |
| Text.PadStart2 | src/utils/extract_results.ts:37 | padStart(2, '0') leaves two or more characters alone and left-fills shorter text with '0' to length 2 |
| Comparison.CalculatePace | src/utils/comparison.ts:35-38 | The pace is null exactly when the distance is zero |
| ComparisonFacts.PaceTimesDistance | src/utils/comparison.ts:35-38 | The pace times the distance is the time: seconds per kilometre |
| ComparisonFacts.ParseTimeNull | src/utils/comparison.ts:16-30 | parseTime is null for '', '0', 'x' and '-' after trimming, and a number only when the text holds one or two ':' |
| ComparisonFacts.ParseTimeTwoParts | src/utils/comparison.ts:24-25 | 'a:b' reads as a·60+b when both parts parse, else null, with no range check |
| ComparisonFacts.ParseTimeThreeParts | src/utils/comparison.ts:26-27 | 'h:m:s' reads as h·3600+m·60+s when all parts parse, else null |
| ComparisonFacts.ParseDistanceComma | src/utils/comparison.ts:87-88 | A distance with a decimal comma reads as the same number written with a point |
| Comparison.ParseIsoDate | src/utils/comparison.ts:43-45 | A date read from its digits has a month 1-12 and a day 1-31 |
| ComparisonFacts.SeasonNamesDateYear | src/utils/comparison.ts:49-53 | For every valid date, Y is the number its first four digits spell and the month the next two: November and December give 'Y-(Y+1)', every other month '(Y-1)-Y', each year printed as String(year); a year without a leading zero prints as the date's own four digits |
| ComparisonFacts.MinutesSeconds | src/utils/comparison.ts:16-30 | 'a:b' in digits reads as a minutes and b seconds |
| ComparisonFacts.FirstTimeExample | src/utils/comparison.test.ts:40 | '52:09' is 3129 seconds |
| ComparisonFacts.SecondTimeExample | src/utils/comparison.test.ts:41 | '41:02' is 2462 seconds |
| ComparisonFacts.DistanceExample | src/utils/comparison.ts:87-88 | '10,0' reads as 10 km |
| ComparisonFacts.ExampleComparable | src/utils/comparison.test.ts:10-21 | The two Smiltene races of the worked example pass the venue, distance and time checks |
| ComparisonFacts.PaceExample | src/utils/comparison.test.ts:39-45 | On any date, 52:09 against 41:02 over '10,0' km gives paces 312.9 and 246.2 s/km and a difference of 66.7 |
| ComparisonFacts.DateKeyChronological | src/utils/comparison.ts:119 | The sort key orders valid dates chronologically and is equal only for the same date |
| Comparison.IndexRaces | src/utils/comparison.ts:59-67 | The forEach builds the index of the second history by date, trimmed venue and category, the last race of a key winning |
| Comparison.CollectRows | src/utils/comparison.ts:69-117 | The loop collects, in order, the row each race of the first history yields |
| Comparison.CompareRaces | src/utils/comparison.ts:56-121 | compareRaces returns the common races as the comparison function defines them |
| ComparisonFacts.MatchedSound | src/utils/comparison.ts:69-117 | Every collected row comes from one race of the first history |
| ComparisonFacts.MatchedComplete | src/utils/comparison.ts:69-117 | Every race that yields a row has its row collected |
| ComparisonFacts.MatchedPresent | src/utils/comparison.ts:69-117 | The collected rows are exactly the rows the races yield, in race order |
| ComparisonFacts.MatchedOnePerRace | src/utils/comparison.ts:69-117 | Row k comes from race src[k] of the first history; the positions strictly increase, so no race gives two rows; a race has a position exactly when it yields a row |
| ComparisonFacts.MatchSome | src/utils/comparison.ts:71-110 | A row exists only for a race in the requested category whose key is indexed and whose partner passes the venue, 0.5 km distance and time checks; the row is built from the two races |
| ComparisonFacts.PartnerOf | src/utils/comparison.ts:59-83 | The partner of a matched race is the last race of the second history with the same date, trimmed venue and effective category |
| ComparisonFacts.ComparisonSound | src/utils/comparison.ts:56-121 | Every row of compareRaces pairs a race of the requested category with the last same-key race of the other history, both distances positive and within 0.5 km, both times parsed, with pace = seconds/km, diff = pace1 − pace2 and the season derived from the date |
| ComparisonFacts.ComparisonComplete | src/utils/comparison.ts:56-121 | Every such pair has its row in the output |
| ComparisonFacts.ComparisonShape | src/utils/comparison.ts:69-121 | The output is a permutation of the collected rows, one per yielding race of the first history, sorted by date, and rows of the same date keep the order the loop collected them in |
| Collections.SortBySortsAndPermutes | src/utils/comparison.ts:119 | The sort orders by key and is a permutation of its input |
| Collections.InsertByKeepsSorted | src/utils/comparison.ts:119 | Inserting into a sorted list keeps it sorted |
| Collections.InsertByWithKey | src/utils/comparison.ts:119 | Inserting into a sorted list puts the item after every item with the same key |
| Collections.SortByStable | src/utils/comparison.ts:119 | The sort is stable: the items of each key keep their order, as Array.prototype.sort guarantees |
| Collections.PresentAtShape | src/utils/comparison.ts:69-117 | One position per yielded value, each an index of the input, strictly increasing |
| Collections.PresentAtValue | src/utils/comparison.ts:69-117 | The value at position k is the one the item at that index yields |
| Collections.PresentAtComplete | src/utils/comparison.ts:69-117 | An item has a position exactly when it yields a value |
| Collections.IndexByLast | src/utils/comparison.ts:65 | The Map holds under each key the last item with that key |
| Collections.IndexByKeys | src/utils/comparison.ts:65 | Every key of the Map is the key of an item, the last with that key |
| NormalizeFacts.CodePointLessIrreflexive | scripts/pipeline/2-normalize-data.ts:45 | The alphabetical tie-break never puts a name before itself |
| NormalizeFacts.CodePointLessTotal | scripts/pipeline/2-normalize-data.ts:45 | Of two different names one comes first |
| NormalizeFacts.CodePointLessAsymmetric | scripts/pipeline/2-normalize-data.ts:45 | The tie-break is asymmetric |
| NormalizeFacts.CodePointLessTransitive | scripts/pipeline/2-normalize-data.ts:45 | The tie-break is transitive |
| NormalizeFacts.PrecedesTransitive | scripts/pipeline/2-normalize-data.ts:34-46 | The three-level comparator is transitive |
| NormalizeFacts.FirstIsFirst | scripts/pipeline/2-normalize-data.ts:33-47 | The chosen name is on the list and no name of the list comes before it |
| NormalizeFacts.CanonicalNameChoice | scripts/pipeline/2-normalize-data.ts:33-47 | selectCanonicalName is undefined only for no names; it returns a name with the most Latvian letters, among those one with natural casing when there is one, among those the smallest in code-point order |
| Normalize.Names | scripts/pipeline/2-normalize-data.ts:168 | group.map(p => p.name) has one name per record |
| NormalizePass.LoadRegistry | scripts/pipeline/2-normalize-data.ts:73-111 | The load loop builds the registry of all files' records and counts them |
| NormalizePass.LoadFile | scripts/pipeline/2-normalize-data.ts:90-108 | One file's participants join the registry under their keys, and the count grows by their number |
| NormalizeFacts.LoadedShape | scripts/pipeline/2-normalize-data.ts:93-107 | The loaded registry is a valid map with no empty group |
| NormalizeFacts.LoadedGroups | scripts/pipeline/2-normalize-data.ts:93-107 | A group holds exactly the loaded records with its key, whatever their season, and no record is lost |
| NormalizeFacts.SameNameSameGroup | scripts/pipeline/2-normalize-data.ts:93-94 | Records whose names fold to the same lowercase text, with the same distance and gender, share a group across seasons |
| Normalize.AsWomen | scripts/pipeline/2-normalize-data.ts:132-137 | Relabelling a group keeps its size |
| NormalizePass.MoveMenToWomen | scripts/pipeline/2-normalize-data.ts:121-144 | The repair loop appends each moving men's group to its women's group and lists its key and counts its records |
| NormalizePass.RemoveKeys | scripts/pipeline/2-normalize-data.ts:147-149 | The removal loop deletes the listed keys one by one |
| NormalizePass.RepairCrossGender | scripts/pipeline/2-normalize-data.ts:118-149 | The repair yields the repaired registry and the number of moved records |
| NormalizeFacts.MergeMenKeeps | scripts/pipeline/2-normalize-data.ts:121-144 | The repair loop keeps every key and leaves every group but the women's untouched |
| NormalizeFacts.MergeMenWomen | scripts/pipeline/2-normalize-data.ts:125-137 | Once a men's key is visited, the women's group of the same name and distance ends with the men's records relabelled 'S' |
| NormalizeFacts.MergeMenTotal | scripts/pipeline/2-normalize-data.ts:131-141 | Each moved group adds its size both to the total and to crossGenderMerges |
| NormalizeFacts.KeysToRemoveFacts | scripts/pipeline/2-normalize-data.ts:140-141 | keysToRemove lists, once each, exactly the visited men's keys whose women's key exists, and crossGenderMerges is the size of their groups |
| NormalizeFacts.DeleteAllEntries | scripts/pipeline/2-normalize-data.ts:147-149 | Deleting keys removes exactly their groups and keeps every other group |
| NormalizeFacts.DeleteAllTotal | scripts/pipeline/2-normalize-data.ts:147-149 | Deleting distinct keys removes exactly their records from the total |
| NormalizeFacts.RepairedShape | scripts/pipeline/2-normalize-data.ts:121-149 | The repaired registry is still valid with no empty group |
| NormalizeFacts.RepairKeepsTotal | scripts/pipeline/2-normalize-data.ts:131-148 | The repair loses no record |
| NormalizeFacts.RepairLeavesNoPairs | scripts/pipeline/2-normalize-data.ts:121-149 | After the repair no 'V' key remains whose 'S' key exists |
| NormalizeFacts.RepairWomenGroups | scripts/pipeline/2-normalize-data.ts:125-137 | A women's group ends with the relabelled men's group of the same name and distance |
| NormalizeFacts.RepairKeepsOthers | scripts/pipeline/2-normalize-data.ts:121-149 | Any other group stays as it was, and is deleted exactly when it is a men's group whose women's key exists |
| NormalizeFacts.GroupMergesMeans | scripts/pipeline/2-normalize-data.ts:160-164 | A group adds size − 1 to mergedCount exactly when two of its records are spelled differently, else 0 |
| NormalizeFacts.MergedBound | scripts/pipeline/2-normalize-data.ts:156-165 | mergedCount never exceeds the records that do not head their group |
| Normalize.SeasonedRaces | scripts/pipeline/2-normalize-data.ts:197-201 | A record's races are written back one for one |
| NormalizeFacts.SeasonedRacesKeepFields | scripts/pipeline/2-normalize-data.ts:197-201 | Writing a race back changes only its season, which becomes the season of its date |
| NormalizePass.GroupRacesByFile | scripts/pipeline/2-normalize-data.ts:184-203 | The loop builds racesByFile as the race distribution function defines it |
| NormalizeFacts.RacesWrittenOnce | scripts/pipeline/2-normalize-data.ts:184-203 | Each record's races go, exactly once and in record order, to the file of its season, distance and gender: results_men.json for 'V', results_women.json otherwise |
| NormalizePass.PushEntries | scripts/pipeline/2-normalize-data.ts:206-220 | One entry per file of racesByFile, with the canonical name and the first record's link |
| NormalizePass.WriteBackGroup | scripts/pipeline/2-normalize-data.ts:159-220 | One group adds its merges and pushes its entries under its canonical name |
| NormalizePass.WriteBack | scripts/pipeline/2-normalize-data.ts:156-221 | The write-back loop yields mergedCount and processedFiles over all groups |
| NormalizeFacts.EmitGroupEntries | scripts/pipeline/2-normalize-data.ts:206-220 | A group's pushes keep the file map valid and add only entries with its canonical name, its normalized name and its first link |
| NormalizeFacts.ProcessedEntries | scripts/pipeline/2-normalize-data.ts:159-221 | Every written participant carries normalized_name = lower(normalizeLatvian(name)) and is a group's entry: its canonical name and the link of its first record |
| NormalizePass.NormalizeData | scripts/pipeline/2-normalize-data.ts:55-240 | normalizeData returns the outcome of load, repair, merge count and write-back |
| NormalizeFacts.NormalizeOutcome | scripts/pipeline/2-normalize-data.ts:232-239 | uniqueParticipants is the number of keys after the repair, those groups hold every loaded record, and mergedDuplicates + uniqueParticipants never exceed the records loaded |
| Migration.FindLatvian | migrations/merge-latvian-duplicates.js:59 | group.find returns the first member with a Latvian letter, or nothing when none has one |
| Migration.Keeper | migrations/merge-latvian-duplicates.js:59-61 | The keeper is a member: the first with a Latvian letter if any, else group[0] |
| MigrationRun.PlanMerges | migrations/merge-latvian-duplicates.js:43-74 | The grouping and operation loops build the merge plan |
| MigrationRun.PlanLoop | migrations/merge-latvian-duplicates.js:56-74 | The loop over groups concatenates their operations in group order |
| MigrationRun.GroupPlanOf | migrations/merge-latvian-duplicates.js:57-72 | A single-member group gives nothing, any other its keeper's operations |
| MigrationRun.GroupOpsLoop | migrations/merge-latvian-duplicates.js:63-72 | One operation per member whose id is not the keeper's |
| MigrationRun.Db.constructor | migrations/merge-latvian-duplicates.js:32 | The database holds the given tables |
| MigrationRun.Db.UpdateRaces | migrations/merge-latvian-duplicates.js:92-94 | The races of the old id now belong to the new id; participants are unchanged |
| MigrationRun.Db.DeleteParticipant | migrations/merge-latvian-duplicates.js:97-99 | The participant is deleted; races are unchanged |
| MigrationRun.Db.MergeDuplicates | migrations/merge-latvian-duplicates.js:32-103 | mergeDuplicates computes the plan and applies each operation in order, reassigning races and then deleting; an empty plan leaves the database untouched |
| MigrationFacts.GroupOpsMembers | migrations/merge-latvian-duplicates.js:63-71 | A group's operations are exactly those that merge a member with another id into the keeper |
| MigrationFacts.GroupOpsDistinct | migrations/merge-latvian-duplicates.js:63-71 | With unique ids a group's operations delete distinct ids |
| MigrationFacts.PlanOpsMembers | migrations/merge-latvian-duplicates.js:56-74 | The plan is the union of the groups' operations |
| MigrationFacts.PlanOpSound | migrations/merge-latvian-duplicates.js:56-74 | An operation of a group merges a non-keeper row of that key into its group's keeper |
| MigrationFacts.PlanOpComplete | migrations/merge-latvian-duplicates.js:56-74 | Every non-keeper row has its operation in its group's plan |
| MigrationFacts.MergeSound | migrations/merge-latvian-duplicates.js:54-74 | Every operation merges some non-keeper row into the keeper of its group |
| MigrationFacts.MergeComplete | migrations/merge-latvian-duplicates.js:54-74 | Every non-keeper row is merged into the keeper of its group |
| MigrationFacts.NoSelfMerge | migrations/merge-latvian-duplicates.js:64 | No operation has oldId == newId |
| MigrationFacts.MergeWithinKey | migrations/merge-latvian-duplicates.js:46 | The two rows of an operation share normalized name, season, distance and gender, so different seasons never merge |
| MigrationFacts.SameKeyMerges | migrations/merge-latvian-duplicates.js:57 | Two rows with the same key and different ids always give an operation, even when spelled identically |
| MigrationFacts.MergeNoChain | migrations/merge-latvian-duplicates.js:59-72 | With unique ids no keeper is itself merged away |
| MigrationFacts.MergeDistinctOld | migrations/merge-latvian-duplicates.js:63-71 | With unique ids every row is merged at most once |
| MigrationFacts.PlanOpsDistinct | migrations/merge-latvian-duplicates.js:56-74 | With unique ids the operations of distinct groups delete distinct ids |
| MigrationFacts.GroupPlanDistinct | migrations/merge-latvian-duplicates.js:57-72 | With unique ids one group's plan deletes distinct ids |
| MigrationFacts.OpsOfDifferentGroups | migrations/merge-latvian-duplicates.js:56-74 | Operations of two different groups move different rows |
| MigrationFacts.ExecuteRaceIds | migrations/merge-latvian-duplicates.js:90-100 | No race is added or removed |
| MigrationFacts.ExecuteParticipants | migrations/merge-latvian-duplicates.js:97-99 | Exactly the operations' old ids are deleted |
| MigrationFacts.ExecuteCount | migrations/merge-latvian-duplicates.js:90-100 | Deleting distinct existing ids drops the participant count by the number of operations |
| MigrationFacts.ExecuteRedirects | migrations/merge-latvian-duplicates.js:92-94 | Every race of a deleted participant ends at the participant it was merged into; every other race keeps its participant |
| MigrationFacts.NoDanglingRaces | migrations/merge-latvian-duplicates.js:90-100 | No race is left pointing at a deleted participant |
| MigrationFacts.MigrationOutcome | migrations/merge-latvian-duplicates.js:32-103 | With unique ids: the race count is unchanged, each race of a merged row moves to its keeper, no race refers to a deleted id, and the participant count drops by the number of operations |
| OrderedMaps.GroupByLoop | scripts/check_duplicates.ts:76-84 | The grouping loop builds the Map of arrays the grouping function defines |
| OrderedMaps.GroupByTotal | scripts/check_duplicates.ts:76-84 | The group sizes add up to the number of items |
| OrderedMaps.GroupByMembers | scripts/check_duplicates.ts:76-84 | Every item is in the group of its key, and a group holds exactly the items with its key |
| OrderedMaps.CollectByEntries | scripts/pipeline/2-normalize-data.ts:192-202 | A key is in the Map exactly when some item has it, and its array holds those items' values in item order |
| OrderedMaps.CollectByTotal | scripts/pipeline/2-normalize-data.ts:192-202 | The Map holds the values of all the items |
| Duplicates.FileRecords | scripts/check_duplicates.ts:55-65 | One record per participant of the file, in order, with its name and link, the file's season and distance, and the gender the chosen rule reads from the file name: MenFirst is line 55 as written, WomenFirst the corrected order |
| Duplicates.GenderAsWrittenNeverWomen | scripts/check_duplicates.ts:55 | The rule as written never gives 'S', and gives 'V' for results_women.json |
| Duplicates.GroupsPartition | scripts/check_duplicates.ts:76-84 | The groups partition the participants: their sizes add up to participants.length |
| Duplicates.SameKeyIff | scripts/check_duplicates.ts:77-78 | Two records share a key exactly when their lowered folded names, distances and genders agree; the season plays no part |
| Duplicates.GroupsByKey | scripts/check_duplicates.ts:76-84 | A group holds exactly the records of its key, so different distances never share a group |
| Duplicates.DuplicatesOfIff | scripts/check_duplicates.ts:89-96 | The filter keeps exactly the groups with more than one member and more than one distinct name, unchanged |
| Duplicates.DuplicateGroupsIff | scripts/check_duplicates.ts:86-96 | A group is reported exactly when it has more than one member and more than one distinct spelling |
| Duplicates.IdenticalNamesNotReported | scripts/check_duplicates.ts:91-92 | A group whose records all spell the name alike is never reported |
| Duplicates.TwoSpellingsDuplicate | scripts/check_duplicates.ts:89-92 | A group holding two different spellings is a duplicate |
| Duplicates.InLoaded | scripts/check_duplicates.ts:50-66 | Every record of every file is in the participants array |
| Duplicates.WomenShareMenKey | scripts/check_duplicates.ts:55-78 | Under the rule as written a women's file's record and a men's file's record with the same folded name and distance get the same group key; under the corrected rule they never do |
| Duplicates.WomenReportedWithMen | scripts/check_duplicates.ts:30-96 | As written, a women's record and a men's record of the same distance, spelled differently but folding alike, land in one group and that group is reported as a duplicate |
| DuplicatesRun.CheckDuplicates | scripts/check_duplicates.ts:30-96 | main loads the participants with line 55's men-first gender rule, groups them and filters the duplicates as the model's functions define |
| DuplicatesRun.LoadAll | scripts/check_duplicates.ts:40-68 | The walk pushes one record per participant, file after file, with the gender line 55 computes as written |
| DuplicatesRun.FilterDuplicates | scripts/check_duplicates.ts:87-96 | The filter loop keeps the duplicate groups in key order |
| Extract.PositionOf | src/utils/extract_results.ts:26 | A found position names the looked-up entry; absence means the name is not listed |
| Extract.MonthNumber | src/utils/extract_results.ts:14-17 | A month number is 1-12 and names that month; no number means no month has that name |
| ExtractFacts.MonthNamesDistinct | src/utils/extract_results.ts:14-17 | The twelve month names differ |
| ExtractFacts.MonthTable | src/utils/extract_results.ts:14-17 | MONTH_MAP is a bijection between the twelve names and 1-12 |
| ExtractFacts.ParseDateFallback | src/utils/extract_results.ts:21-28 | A date without '.', or whose second '.'-part names no month, is returned unchanged |
| ExtractFacts.PaddedValue | src/utils/extract_results.ts:37 | A padded number below 100 is two digits that read back as the number |
| ExtractFacts.IsoRoundTrip | src/utils/extract_results.ts:37-38 | The text built from a four-digit year, a month and a day is a YYYY-MM-DD date that reads back as that date |
| ExtractFacts.ParseDateOfDayMonth | src/utils/extract_results.ts:19-39 | 'day.month' gives the date text of that day and month, in the start year for months 7-12 and the end year for 1-6 |
| ExtractFacts.ParseDateRoundTrip | src/utils/extract_results.ts:19-39 | 'day.month' becomes the date of that day and month in the year its half of the season falls in |
| ExtractFacts.ParsedDateSeason | src/utils/extract_results.ts:30-34 | A parsed date of July to October gets the label of the season before; every other month gets its own season |
| ExtractFacts.ReplaceNbspNone | src/utils/extract_results.ts:105 | Text without '&' has no entity to replace |
| ExtractFacts.StripTagsNone | src/utils/extract_results.ts:105 | Text without '<' has no tag to strip |
| ExtractFacts.PlainCell | src/utils/extract_results.ts:105 | A plain-text cell is only trimmed |
| ExtractFacts.NbspCell | src/utils/extract_results.ts:105 | A leading '&nbsp;' counts for nothing in a cell |
| ExtractFacts.TagStripped | src/utils/extract_results.ts:105 | A tag is removed with its text |
| ExtractFacts.NumberedRowAccepted | src/utils/extract_results.ts:109 | A row of ten or more cells whose first cell is digits is a data row |
| ExtractFacts.RowYieldIff | src/utils/extract_results.ts:109-118 | A row yields a race exactly when accepted, and then the race with cells 1, 5, parseDate(8) and 9 |
| ExtractFacts.RowsRacesIff | src/utils/extract_results.ts:97-121 | A race comes from one row, every accepted row's race is there, and there are never more races than rows |
| ExtractFacts.HeaderIgnored | src/utils/extract_results.ts:99 | The first row never yields a race, whatever it holds |
| Extract.ExtractRacesLoop | src/utils/extract_results.ts:86-123 | The row loop with its row counter gives the races of the rows after the first |
| Extract.RowRaces | src/utils/extract_results.ts:101-119 | One row's cells and its race when accepted |
| Extract.CellsLoop | src/utils/extract_results.ts:101-107 | The cell loop cleans each cell in order |
| Extract.ExtractLinks | src/utils/extract_results.ts:41-84 | At most limit links (all without a limit), in document order, each '../' href becoming baseUrl plus the rest and any other href kept |
| Extract.CloseFrom | src/utils/extract_results.ts:126 | The lazy `(.*?)`: the nearest '</title>' (any case) reachable without crossing a line terminator, or none |
| Extract.TitleFrom | src/utils/extract_results.ts:126 | The leftmost '<title>' that has such a closing tag, with its nearest closing tag, or none when no match starts at or after the position |
| Extract.ExtractName | src/utils/extract_results.ts:125-128 | With no case-insensitive `<title>…</title>` match on one line, 'Unknown'; otherwise the text between the tags of the leftmost match, closed by its nearest closing tag |
| ExtractFacts.TitlePageFirst | src/utils/extract_results.ts:126 | In '<HTML><TITLE>Dāvis Pazars</TITLE>' the match is the upper-case tag pair at 6 and 25 |
| ExtractFacts.ExtractNameExample | src/utils/extract_results.ts:125-128 | extractName of that page is 'Dāvis Pazars' |
| SqlFacts.EscapeLength | scripts/pipeline/3-generate-sql.ts:22-24 | The escaped length is the length plus the number of apostrophes |
| SqlFacts.EscapeNoQuote | scripts/pipeline/3-generate-sql.ts:22-24 | Text without an apostrophe is unchanged |
| SqlFacts.EscapeRoundTrip | scripts/pipeline/3-generate-sql.ts:22-24 | Turning each doubled apostrophe back into one recovers the input |
| SqlFacts.EscapePaired | scripts/pipeline/3-generate-sql.ts:22-24 | The escaped text has no unpaired apostrophe |
| SqlFacts.PairedIsEscaped | scripts/pipeline/3-generate-sql.ts:22-24 | Every text with paired apostrophes is the escape of its unescaped form |
| SqlFacts.EscapeImage | scripts/pipeline/3-generate-sql.ts:22-24 | A text is an escape output exactly when its apostrophes are paired |
| SqlFacts.ParticipantStatementsShape | scripts/pipeline/3-generate-sql.ts:68-110 | A participant without normalized_name gives no statement; one with it gives its upsert and then one insert per race with a season, in order |
| SqlFacts.ParticipantCounts | scripts/pipeline/3-generate-sql.ts:78-109 | A participant gives one upsert if kept and one insert per seasoned race of a kept participant |
| SqlFacts.StatementCounts | scripts/pipeline/3-generate-sql.ts:50-114 | participantCount is the number of kept participants and raceCount the number of their races with a season |
| SqlFacts.RunParticipants | scripts/pipeline/3-generate-sql.ts:78-81 | The upserts leave each key with the name of its last upsert |
| SqlFacts.RunRacesGrow | scripts/pipeline/3-generate-sql.ts:97-108 | The statements only add races |
| SqlFacts.ExecGrows | scripts/pipeline/3-generate-sql.ts:97-108 | A statement keeps all participants and races, and a race insert for an existing participant leaves its race in the table |
| SqlFacts.RunCovers | scripts/pipeline/3-generate-sql.ts:97-108 | When each insert's participant is upserted first, after a run every insert's race is in the table |
| SqlFacts.RunCoveredKeepsRaces | scripts/pipeline/3-generate-sql.ts:103-108 | Inserts whose races are there already add nothing |
| SqlFacts.RunIdempotent | scripts/pipeline/3-generate-sql.ts:97-108 | Running such a script twice is running it once |
| SqlFacts.ExecNoDuplicates | scripts/pipeline/3-generate-sql.ts:103-108 | The NOT EXISTS guard never adds a second race with the participant, date and location of another |
| SqlFacts.RunNoDuplicates | scripts/pipeline/3-generate-sql.ts:103-108 | A script keeps the races free of such duplicates |
| SqlFacts.GeneratedUpsertedBefore | scripts/pipeline/3-generate-sql.ts:74-110 | In the generated script every race insert follows the upsert of its participant |
| SqlFacts.ScriptIdempotent | scripts/pipeline/3-generate-sql.ts:26-34 | The generated script is safe to run repeatedly: every race lands, a second run changes nothing, and no duplicate race appears |
| SqlRun.GenerateSql | scripts/pipeline/3-generate-sql.ts:35-120 | The loop nest produces the script text of the statements and counts upserts and inserts |
| SqlRun.EmitParticipants | scripts/pipeline/3-generate-sql.ts:68-111 | The participant loop appends each participant's statements |
| SqlRun.EmitParticipant | scripts/pipeline/3-generate-sql.ts:69-110 | Skips a participant without normalized_name, else appends the upsert and the race inserts |
| SqlRun.EmitRaces | scripts/pipeline/3-generate-sql.ts:85-110 | The race loop appends each race's insert |
| SqlRun.EmitRace | scripts/pipeline/3-generate-sql.ts:86-109 | Skips a race without a season, else appends its guarded insert |

## Left out

- File system, console, CLI: directory walks, `readFileSync`, `writeFileSync`, `JSON.parse`, `JSON.stringify` and every `console.log` are left out. Each run takes an in-memory list of files `(season, distance, fileName, participants)`, in the order the walk would visit them. It returns the files it would write and the counters it would print.
- The missing data directory error: `generateSQL` and `normalizeData` throw when the directory is absent; with an in-memory list there is no such case.
- The season directory is not used by `generateSQL`; the model does not use it either.
- HTML tokenising: the regular expressions of `extractLinks` and `extractRaces` that find the table, rows, cells and hrefs are left out. The model takes the matched hrefs and the rows as lists of raw cell texts. The title regular expression of `extractName` is modelled over the page text.
- Extract.ExtractLinks: `limit` is an optional integer, absent for the default `Infinity`. A fractional limit, which lets `links.length < limit` admit one more link, is not modelled.
- The worker's HTTP routing, CORS, D1 queries and SQL `REPLACE` chain, the scrapers, the React components, the image script, the legacy SQL and statistics scripts, and the test mocks `selectPreferredName` and `findDuplicateGroups` are not part of this model.
- The win-count swap and colour rule of the comparison view is not part of this model; it exists only inside a component test.
- The D1 calls are modelled as sequential updates to a two-map database, with no await and no failure.
- The participants query's `ORDER BY name` is not modelled; MigrationRun.Db.MergeDuplicates takes the rows in whatever order the query returns them.
- The statements are not executed on a real SQL engine. Sql.Exec gives the two statement kinds their meaning, and the participant id is modelled by the unique key `(normalized_name, distance, gender)`.
- Sql.Render: distance and gender are written into the literals unescaped, as the source does, so the text is well formed only when they hold no apostrophe.
- Keys built as `'|'`-joined strings are tuples in the model. This merges nothing extra only while names, seasons and distances hold no `'|'`.
- The unused `allRaces` array at `scripts/pipeline/2-normalize-data.ts:172-181` has no effect and is not modelled.
- Comparison.DeriveSeason: `new Date` parsing and time zones are not modelled.
  - A date is read from its `YYYY-MM-DD` digits with no calendar check beyond a month of 1-12 and a day of 1-31, as in the UTC reading.
  - A text that is not such a date gives the label `NaN-NaN`.
  - A time zone west of UTC, in which `getMonth` can see the previous day, is not modelled.
- Comparison.DateKey: an invalid date gets key 0 and sorts before valid dates. In JavaScript the comparator returns NaN there, and the resulting order depends on the engine.
- Comparison.CompareRaces: an absent `races` array is modelled as an empty list, and an absent location as the empty string.
- Text.ParseInt and Text.ParseFloat: these model `parseInt` and `parseFloat` for sign, optional `0x` prefix and digits, and decimal digits with one point. Exponents, `Infinity`, and digits beyond the first point are not modelled.
- Latvian.Lower and Latvian.Upper: `toLowerCase` and `toUpperCase` are modelled for ASCII letters and the 22 Latvian letters only. Other characters keep their case, so contracts that involve case hold only for names written in those letters.
- NormalizeFacts.CodePointLessTotal: `localeCompare` is modelled as code-point order. Locale collation is not modelled.
- Extract.MonthNumber: a `MONTH_MAP` lookup of an inherited property name such as `constructor` is not modelled. The model finds only the twelve month names.
- Duplicates.FileRecords: the duplicate checker runs on the rule as written (MenFirst), which labels women's files 'V' (see Findings). The corrected rule, FileGender(WomenFirst, …) = Records.GenderOfFile, is kept beside it for comparison and is not used by DuplicatesRun.
- The helper methods EmitParticipant, EmitRaces, EmitRace, WriteBackGroup, LoadFile, RowRaces and CellsLoop each hold a loop body the source writes inline; they change no behaviour.

## Findings

| source | as written | input that shows it | evidently intended | confidence | as-written member | corrected member |
|---|---|---|---|---|---|---|
| scripts/check_duplicates.ts:55 | `file.includes('men')` is checked before `file.includes('women')`, and every name containing 'women' contains 'men', so the 'S' branch is unreachable | `results_women.json` gives gender 'V', so a women's record and a men's record of the same distance whose names fold alike share a key, and the group is reported when they are spelled differently (Duplicates.GenderAsWrittenNeverWomen, Duplicates.WomenReportedWithMen) | Check 'women' first, as `scripts/pipeline/3-generate-sql.ts:66` and `scripts/pipeline/2-normalize-data.ts:88` do, so women's files give 'S' and never share a key with men's files (Duplicates.WomenShareMenKey, second half; Records.FileNameGenders) | medium, not executed | Duplicates.WomenReportedWithMen | Duplicates.WomenShareMenKey |
