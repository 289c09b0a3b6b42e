# Catalogue tooling, verified

A Dafny model of the algorithms behind the TRADINGO seed, index and sitemap scripts, with proofs of
what they promise. `dafny verify dfyconfig.toml` checks the whole project.

| file | what it models |
|---|---|
| `EditDistance.dfy` | the edit-distance matrix, and its meaning as least-cost edit scripts |
| `DuplicateDetector.dfy` | normalised names, the composite-key index, the search for a duplicate |
| `Overlap.dfy` | the fuzzy verdict and its confidence in counts of terms |
| `DetectionOrder.dfy` | when the search's answer depends on the order of the map |
| `Json.dfy`, `RecordText.dfy`, `Checksum.dfy` | serialised values, the text of a record, and its checksum |
| `Slugs.dfy` | both slug functions, transliteration, the search for a unique slug |
| `CharRules.dfy` | both slug functions and the normalised name, character by character |
| `Csv.dfy`, `CsvReading.dfy` | the line and file reader, with a printer, and which lines are rows |
| `ImportModel.dfy` | tables, lookups, ledgers and jobs of the four seeders as values |
| `ImportEngine.dfy` | the tables, the log of jobs, and the seeders' `run`, `resume` and `rollback` as methods that update it |
| `ImportTheorems.dfy`, `ParentChoice.dfy` | what a run and its resumption promise, and when the unordered parent lookup matters |
| `RollbackTheorems.dfy`, `RollbackReach.dfy` | what rollback undoes, and what else it reaches |
| `Histories.dfy` | any sequence of actions of the four seeders on one database |
| `PipelineTheorems.dfy` | which rows are imported, and the seeders in sequence |
| `Shuffle.dfy` | the seeded generator and the in-place shuffle |
| `Reindex.dfy` | retry, write loop and prune scan of the reindex script |
| `Sitemap.dfy` | URL deduplication and the paged collectors |
| `Text.dfy`, `InsertionOrder.dfy`, `Words32.dfy`, `Wrappers.dfy` | text, insertion-ordered sets, 32-bit words, options |

How the world is modelled:

- Text is ASCII. Case-insensitive equality of names is equality of their lower-cased forms.
- A table is a sequence of rows in storage order. `findFirst` sends no order, so it may return any
  matching row; a number per row says which. A failing database call has no effect, except that a
  write may take hold before it fails; which call fails is chosen per row (`Env`). A call outside the
  row loop that throws ends the run (`Crash`) or the rollback (`Stop`). There is one writer.
- The four seeders share their code up to the parent lookup and the kind of reference in the ledger;
  one class `Seeder` with a `kind` stands for all four. Two share the category table, two have a table
  of their own, and all share the log of jobs.
- Deleting a category clears the parent of its children, the default for an optional relation in the
  schema.
- Confidences are exact rationals (`real`); JavaScript's 32-bit operations are written out.
- Every attempt of every remote operation has its own fault; search responses are any set of hits of
  the right size.

Findings, each with a theorem below:

- A category id containing "|||" makes the detector report confidence 1 without the exact key.
- An overlap match can displace a nearer match. The confidence is free of the order of the map exactly
  when nothing at distance 2 competes with an overlap above 0.8 (`DetectionConfidenceFreeExactly`).
- A colon in a key makes checksum texts ambiguous: every record of two or more fields has a twin of one field.
  Bars do no harm, in keys or in values (`RecordsToldApart`).
- `resume` drops rows whose name is empty, and may then miss the slug "item".
- A job that was cut short or rolled back is refused by `resume` although failed rows are left in it
  (`RefusedWithErrors`, `ResumableExactly`).
- `resume` takes the job of any seeder: the category seeder makes root categories of failed products.
- A run that is cut short while writing its ledger leaves a RUNNING job: nothing can resume it, and its
  rollback leaves behind what the unwritten rows created.
- `rollback` deletes an entity that another row of the job records as a duplicate, when that row met a
  name the job had imported itself; it spares it exactly when the entity is older than the run, or its
  deletion fails, or its own write was reported as failed (`DuplicateSurvivesExactly`).
- A write that takes hold and is then reported as failed does not disturb resumption, but its row is an
  ERROR in the ledger, so no rollback of the job removes what it created (`LostWriteStays`).
- `rollback` of a category makes roots of the subcategories other jobs put under it (`ChildBecomesRoot`).
- When marking its rows throws, a rollback can be repeated; when it does not, it cannot (`RollbackAgain`).
- `rollback` of the two master seeders deletes whatever row bears the recorded slug now.
- `rollback` marks rows ROLLED_BACK even when their deletion failed; they can never be rolled back again.
- A category whose slug is claimed by a differently spelled one gets no root, so every one of its
  subcategories is an error; and a subcategory name used under two categories is imported once.
- The prune scan sends no sort, reads `sort` from the last hit, and so never ends once the index holds
  1000 documents (scripts/reindex-products.js:320-323), although the script's header promises removal.
- `dedupe` removes one trailing slash, not all, although its comment promises none
  (apps/web/app/sitemap.ts:24-27).

## Model

| member | source | states |
|---|---|---|
| EditDistance.LevenshteinDistance | prisma/seed-scripts/duplicate-detector.ts:32-50 | The in-place matrix, shortcut included, returns the distance of the two strings. |
| EditDistance.ScriptIsOptimal | prisma/seed-scripts/duplicate-detector.ts:32-50 | Some script of insertions, deletions and substitutions, at arbitrary positions, turns `a` into `b` in exactly the computed number of edits. |
| EditDistance.NoShorterScript | prisma/seed-scripts/duplicate-detector.ts:32-50 | No such script, in any order of edits, is shorter than the computed distance. |
| EditDistance.ShortcutLosesNothing | prisma/seed-scripts/duplicate-detector.ts:38-46 | Copying the diagonal on equal characters equals the minimum over all three neighbours. |
| EditDistance.ZeroExactlyWhenEqual | prisma/seed-scripts/duplicate-detector.ts:32-50 | The distance is zero exactly for equal strings. |
| EditDistance.Symmetric | prisma/seed-scripts/duplicate-detector.ts:32-50 | The distance is symmetric. |
| EditDistance.Triangle | prisma/seed-scripts/duplicate-detector.ts:32-50 | The distance obeys the triangle inequality. |
| EditDistance.LengthBounds | prisma/seed-scripts/duplicate-detector.ts:32-50 | The distance lies between the difference of the lengths and the longer length. |
| DuplicateDetector.NormalizeJoinsWords | prisma/seed-scripts/duplicate-detector.ts:24-30 | A normalised name is the maximal runs of letters and digits of the lower-cased name joined by single blanks, with no blank at either end. |
| DuplicateDetector.NormalizeFixedPoints | prisma/seed-scripts/duplicate-detector.ts:24-30 | Normalisation is idempotent and its fixed points are exactly the normal forms. |
| CharRules.NormalizeReads | prisma/seed-scripts/duplicate-detector.ts:24-30 | On every input: capitals read as small letters, every character that is no letter or digit as a blank, and the words are joined by single blanks. |
| CharRules.NormalizeCharacter | prisma/seed-scripts/duplicate-detector.ts:24-30 | Law: a capital counts as its small letter, and any character that is no letter or digit as a blank. |
| DuplicateDetector.KeyInjective | prisma/seed-scripts/duplicate-detector.ts:84-96 | Two composite keys are equal exactly when normalised name and category are, whatever the categories contain. |
| DuplicateDetector.FirstPiece | prisma/seed-scripts/duplicate-detector.ts:114 | Splitting a category at three bars gives it back whole exactly when it contains no three bars. |
| DuplicateDetector.IndexedEntryDecodes | prisma/seed-scripts/duplicate-detector.ts:84-116 | An indexed entry decodes to its name and to its category up to the first three bars, so it is compared under its own category exactly when that is free of three bars. |
| DuplicateDetector.BuildExistingIndex | prisma/seed-scripts/duplicate-detector.ts:79-88 | The loop builds the index of the records. |
| DuplicateDetector.IndexedLookup | prisma/seed-scripts/duplicate-detector.ts:79-88 | A key finds the id of the last record with that normalised name and category, and nothing otherwise. |
| DuplicateDetector.IndexedOrder | prisma/seed-scripts/duplicate-detector.ts:79-88 | The index lists each key once, in order of its first record: the order the search visits. |
| DuplicateDetector.Consider | prisma/seed-scripts/duplicate-detector.ts:113-139 | One iteration of the search, early exits included, updates the best match as the candidate's verdict demands. |
| DuplicateDetector.DetectDuplicate | prisma/seed-scripts/duplicate-detector.ts:90-150 | The whole search returns the detection that the lemmas below are about. |
| DuplicateDetector.VerdictMeaning | prisma/seed-scripts/duplicate-detector.ts:90-150 | Duplicate exactly when the exact key is in the map, or the name has a significant term and some entry of the category is within distance 2, or within distance 4 with term overlap above 0.6. |
| DuplicateDetector.VerdictIgnoresOrder | prisma/seed-scripts/duplicate-detector.ts:113-149 | Reordering the map does not change the verdict. |
| DuplicateDetector.ConfidenceMeaning | prisma/seed-scripts/duplicate-detector.ts:98-149 | For any map: confidence 0 for a non-duplicate; 1 exactly for an exact key or for an entry that decodes to the queried name and category under another key; otherwise in (0.6, 0.9]. |
| DuplicateDetector.IndexedConfidence | prisma/seed-scripts/duplicate-detector.ts:79-150 | On an index of any records, confidence 1 means an exact key and the id of its last record, or, for a name with a significant term, a record of that normalised name whose category up to its first three bars is the queried one; every other duplicate has confidence in (0.6, 0.9]. Without three bars in any category only the exact key gives 1. |
| DuplicateDetector.BarsGiveFalseCertainty | prisma/seed-scripts/duplicate-detector.ts:114-122 | One stored category containing three bars yields confidence 1 without the exact key, for any name with a significant term. |
| DuplicateDetector.MatchResembles | prisma/seed-scripts/duplicate-detector.ts:141-147 | Without the exact key, the id reported for a duplicate is that of an entry which resembles the name. |
| Overlap.OverlapInCounts | prisma/seed-scripts/duplicate-detector.ts:129-131 | The overlap is twice the number of common terms per term of either name. |
| Overlap.OverlapThreshold | prisma/seed-scripts/duplicate-detector.ts:129-132 | It exceeds 0.6 exactly when ten times the common terms exceed three times the terms of both names. |
| Overlap.CommonTermRaises | prisma/seed-scripts/duplicate-detector.ts:129-131 | A further common term raises it, unless the names have the same terms. |
| Overlap.UnsharedTermLowers | prisma/seed-scripts/duplicate-detector.ts:129-131 | A further term of one name alone lowers it, if there is any to lower. |
| Overlap.TermsOfLongerName | prisma/seed-scripts/duplicate-detector.ts:52-72 | A further word is a further term exactly when it has at least three characters and is no stop word. |
| Overlap.VerdictInCounts | prisma/seed-scripts/duplicate-detector.ts:90-150 | The verdict on any map, with no overlap computed: the exact key, or an entry of the category at distance up to 2, or at distance 3 or 4 with enough common terms in counts. |
| Overlap.ConfidenceInCounts | prisma/seed-scripts/duplicate-detector.ts:118-147 | Without the exact key, id and confidence are those of one such entry: 1, 0.9 and 0.8 at distances 0 to 2, and beyond that c with c times the terms of both names equal to twice the common ones, capped at 0.9. |
| Overlap.RedAndTan | prisma/seed-scripts/duplicate-detector.ts:105-147 | An instance: two of three terms in common at distance 3 is a duplicate with confidence two thirds. |
| DuplicateDetector.OverlapMeaning | prisma/seed-scripts/duplicate-detector.ts:129-131 | The term overlap is symmetric, lies in [0, 1], is 1 exactly for equal term sets and 0 exactly for disjoint ones. |
| DuplicateDetector.CloseWins | prisma/seed-scripts/duplicate-detector.ts:118-126 | In every order a candidate at distance 0, or failing that at distance 1, wins; the first such candidate is the match. |
| DuplicateDetector.DistanceOneWins | prisma/seed-scripts/duplicate-detector.ts:111-147 | The first entry at distance 1 is the match with confidence 0.9, whatever else the map holds. |
| DuplicateDetector.TwoWinsExactlyWhenSettled | prisma/seed-scripts/duplicate-detector.ts:118-138 | With nothing closer than 2, a distance-2 match wins exactly when some distance-2 entry is followed by no overlap match of confidence above 0.8. |
| DuplicateDetector.OverlapOnlyMaximises | prisma/seed-scripts/duplicate-detector.ts:128-138 | With overlap matches only, the greatest confidence wins whatever the order. |
| DuplicateDetector.NearestWinsExactly | prisma/seed-scripts/duplicate-detector.ts:111-147 | When some entry is within distance 2, the winner has minimum distance exactly when one is at distance 0 or 1 or the distance-2 matches are settled; in particular whenever there is no overlap match. |
| DuplicateDetector.RecordsVerdict | prisma/seed-scripts/duplicate-detector.ts:79-150 | End to end, for any records: duplicate exactly when some record has the queried category and normalised name, or its category up to the first three bars is the queried one and, for a name with a significant term, its name is within distance 2, or within distance 4 with term overlap above 0.6. |
| DuplicateDetector.RecordOrderIsIrrelevant | prisma/seed-scripts/duplicate-detector.ts:79-150 | Neither the order nor the repetition of the records changes the verdict. |
| DetectionOrder.ConfidenceFreeExactly | prisma/seed-scripts/duplicate-detector.ts:111-139 | For any candidates: every order gives the same confidence exactly when one is at distance 0 or 1, or none is at distance 2, or no overlap match is above 0.8. |
| DetectionOrder.ReportFreeExactly | prisma/seed-scripts/duplicate-detector.ts:111-149 | Every order gives the same id and confidence exactly when, besides, all best candidates bear one id. |
| DetectionOrder.DetectionConfidenceFreeExactly | prisma/seed-scripts/duplicate-detector.ts:90-150 | For any map: its order does not matter to the confidence exactly when the exact key is there, or the name has no significant term, or some entry of the category is at distance 0 or 1, or none is at distance 2, or none at distance 3 or 4 overlaps by more than 0.8. |
| DetectionOrder.DetectionFreeExactly | prisma/seed-scripts/duplicate-detector.ts:90-150 | Nor to the whole answer exactly when the exact key is there, or there is no significant term, or that condition holds and the best entries share one id. |
| DetectionOrder.IndexIsMap | prisma/seed-scripts/duplicate-detector.ts:79-88 | An index of records has distinct keys, as that theorem asks. |
| DetectionOrder.WinnerDependsOnOrder | prisma/seed-scripts/duplicate-detector.ts:118-138 | The condition does fail: for every normalised name with a significant term, a pair of entries whose order decides between confidence 0.8 and 0.9. |
| Checksum.RollingHash | prisma/seed-scripts/duplicate-detector.ts:6-11 | The 32-bit loop, wrapping at every step, is the base-31 polynomial of the text wrapped once. |
| RecordText.CanonicalIgnoresOrder | prisma/seed-scripts/duplicate-detector.ts:2-4 | The text of a record does not depend on the order in which its fields were set. |
| RecordText.LessMeans | prisma/seed-scripts/duplicate-detector.ts:2 | Keys are sorted by the character codes at their first difference, a proper prefix first. |
| RecordText.ShortTexts | prisma/seed-scripts/duplicate-detector.ts:2-4 | The texts of records of no, one and two fields, written out. |
| Json.StringifyIsSealed | prisma/seed-scripts/duplicate-detector.ts:3 | In the text of any value every bar lies within a closed string literal. |
| Json.QuoteRoundTrip | prisma/seed-scripts/duplicate-detector.ts:3 | Undoing the escapes of a string literal (section 7 of RFC 8259) gives the string, and a literal holds no control character. |
| Json.NestedTexts | prisma/seed-scripts/duplicate-detector.ts:3 | Arrays and objects written out, `undefined` within them included. |
| RecordText.RecordsToldApart | prisma/seed-scripts/duplicate-detector.ts:1-4 | Records without a colon in a key, whatever their values and bars, have one text exactly when they have the same keys and the same serialised values. |
| RecordText.RecordHasTwin | prisma/seed-scripts/duplicate-detector.ts:2-4 | As soon as a key may contain a colon, every record of two or more fields has another record, of one field, with the same text and so the same checksum. |
| Checksum.ComputeChecksum | prisma/seed-scripts/duplicate-detector.ts:1-21 | Serialising, sorting, the two loops and the padding produce, for a record, the checksum of its text that `CollisionExactly` is about. |
| Checksum.CollisionExactly | prisma/seed-scripts/duplicate-detector.ts:6-21 | A checksum has sixteen digits; two texts share it exactly when their FNV hashes agree and their rolling hashes agree up to sign. |
| Checksum.HalvesMean | prisma/seed-scripts/duplicate-detector.ts:6-21 | The first eight digits are the rolling hash without its sign, the last eight the FNV hash, both in hexadecimal. |
| Checksum.XorBits | prisma/seed-scripts/duplicate-detector.ts:15 | The exclusive or has a 1 exactly where the binary digits of the operands differ. |
| Checksum.FnvVectors | prisma/seed-scripts/duplicate-detector.ts:13-18 | The published values of FNV-1a for "", "a" and "fo". |
| CharRules.SlugifyReads | prisma/seeds/seed.utils.ts:120-127 | On every input: capitals read as small letters, letters and digits as themselves, blanks and dashes as a dash, all else as nothing; the words between dashes are joined by single dashes, and no word gives "item". |
| CharRules.SlugifyBlank | prisma/seeds/seed.utils.ts:124 | Law: a blank of any sort counts as a dash. |
| CharRules.SlugifyOther | prisma/seeds/seed.utils.ts:123 | Law: a character that is no letter, digit, blank or dash can be left out. |
| CharRules.SlugifyCapital | prisma/seeds/seed.utils.ts:122 | Law: a capital counts as its small letter. |
| CharRules.SlugifyDashes | prisma/seeds/seed.utils.ts:125-126 | Law: two dashes count as one, and a dash at an end as none. |
| CharRules.SlugifyRuns | prisma/seeds/seed.utils.ts:120-127 | Law: runs of letters and digits joined by blanks give the runs joined by dashes. |
| Slugs.SlugifyJoinsWords | prisma/seeds/seed.utils.ts:120-127 | The same through the source's own steps: drop, cut, join. |
| Slugs.SlugifyYieldsSlug | prisma/seeds/seed.utils.ts:120-127 | Every slug is nonempty, over a-z, 0-9 and dash, with no leading, trailing or doubled dash. |
| Slugs.SlugifyFixedPoints | prisma/seeds/seed.utils.ts:120-127 | The fixed points of `slugify` are exactly such strings, so it is idempotent. |
| Slugs.TransliterateIsSimultaneous | prisma/seed-scripts/slug-generator.ts:49-52 | Replacing table entry after table entry equals spelling out every character once, so the order of the table does not matter. |
| Slugs.AsciiTableIsValid | prisma/seed-scripts/slug-generator.ts:17-22 | The ASCII entries of the source's table spell with slug characters and replace none. |
| Slugs.GenerateSlug | prisma/seed-scripts/slug-generator.ts:46-61 | The loop over the table and the normalisation compute the slug of the name. |
| Slugs.SlugOfJoinsWords | prisma/seed-scripts/slug-generator.ts:46-61 | A generated slug is in normal form, and is the runs of letters and digits of the spelled-out name joined by single dashes, or "untitled". |
| CharRules.SlugOfReads | prisma/seed-scripts/slug-generator.ts:46-61 | On every input, for any table that spells no blank: capitals read as small letters, table characters as their spelling, all else that is no letter, digit or dash as a dash; the words are joined by single dashes, and no word gives "untitled". |
| CharRules.SlugOfCharacter | prisma/seed-scripts/slug-generator.ts:46-57 | Law: each character can be replaced by what it reads as. |
| Slugs.SlugOfFixedPoints | prisma/seed-scripts/slug-generator.ts:46-61 | Its fixed points are exactly the slugs in normal form, so it is idempotent. |
| Slugs.UniqueSlug | prisma/seed-scripts/slug-generator.ts:63-75 | The do/while search ends within as many iterations as there are taken slugs with the free base or the least free suffix from 2. |
| Slugs.GenerateUniqueSlug | prisma/seeds/seed.utils.ts:129-139 | The same for the seeders' slugs; no iteration at all exactly when the base is free. |
| Slugs.UniqueSlugIsDetermined | prisma/seeds/seed.utils.ts:129-139 | That contract determines the result. |
| Slugs.FirstSuffixes | prisma/seeds/seed.utils.ts:132-138 | A taken name gets the suffix -2, and with that taken too, -3. |
| Text.DecimalMeans | prisma/seeds/seed.utils.ts:135 | Suffixes are decimal numerals. |
| Slugs.NamedInTurnDistinct | prisma/seeds/seed.utils.ts:129-139 | Naming any list in turn yields fresh, pairwise distinct slugs in normal form. |
| Csv.ParseCsvLine | prisma/seeds/seed.utils.ts:37-60 | The quote-state loop computes the fields of a line. |
| Csv.LineRoundTrip | prisma/seeds/seed.utils.ts:37-60 | Parsing undoes printing for every nonempty list of fields and every quoting that quotes at least the fields with a comma or a quote (RFC 4180, section 2, rules 5 to 7). |
| Csv.ParseCsv | prisma/seeds/seed.utils.ts:62-118 | The file loop returns the accepted rows in order, and categories and subcategories in insertion order. |
| CsvReading.RejectedExactly | prisma/seeds/seed.utils.ts:79-96 | A line yields no row exactly when it has fewer than five fields, a blank category or name, or a type that is, but for blanks around it, neither of the two words. |
| CsvReading.RejectedLineIsSkipped | prisma/seeds/seed.utils.ts:78-96 | A rejected line leaves no trace. |
| CsvReading.UntidyLineReads | prisma/seeds/seed.utils.ts:79-108 | A line with any blanks around its fields, quoted or not, blank columns from the sixth on missing, or superfluous columns reads as the row with its fields trimmed. |
| CsvReading.UntidyFileReads | prisma/seeds/seed.utils.ts:62-118 | A file of such lines reads as those rows, in order. |
| CsvReading.SerialMeaning | prisma/seeds/seed.utils.ts:85 | A serial number reads as the digits after blanks and an optional sign, and zero when there are none. |
| CsvReading.UnclosedQuote | prisma/seeds/seed.utils.ts:37-60 | A quote that is never closed takes in the rest of the line. |
| Csv.SummaryMeaning | prisma/seeds/seed.utils.ts:75-117 | Categories are the distinct categories of accepted rows in first-appearance order; the map has exactly those keys; each set is exactly the nonempty subcategories of that category's rows. |
| Csv.FileRoundTrip | prisma/seeds/seed.utils.ts:62-118 | A file printed from any rows with trimmed, unbroken fields reads back row for row. |
| Csv.ReadPrintRead | prisma/seeds/seed.utils.ts:62-118 | For every input file the accepted rows are trimmed and have name and category, and printing them gives a file that reads back as the same rows. |
| ImportEngine.Store.Upsert | prisma/seeds/subcategories.seed.ts:60-76 | Creates exactly when no row bears the slug; otherwise that row keeps its id and gets the name and, if one is given, the parent. |
| ImportEngine.Seeder.TryRow | prisma/seeds/subcategories.seed.ts:36-88 | One row has the outcome of the simple row step, also when its write takes hold and then fails; the suffix search is never entered and `upsert` never overwrites. The slug set never holds a foreign slug, and one that agrees with the table still agrees unless such a write occurs. |
| ImportEngine.Seeder.ImportRows | prisma/seeds/subcategories.seed.ts:25-89 | The loop with slug set, suffix search, upsert and faults equals the simple run that knows none of them; the counters count the ledger. |
| ImportEngine.Seeder.WriteLedger | prisma/seeds/subcategories.seed.ts:91-93 | The slices written are the batches of the ledger; the job ends up with exactly the ledger, or with the batches before the one whose write throws. |
| ImportEngine.Seeder.Run | prisma/seeds/categories.seed.ts:11-99 | From a valid database to a valid one: the table of the simple run and one finished job with its ledger, counts and status; when a call outside the row loop throws, a RUNNING job with the ledger written so far, or nothing if that was before the job. Status and counts of the result agree with the rows: PARTIAL when some failed and some were imported, FAILED when some failed and none was imported, COMPLETED when none failed. |
| ImportTheorems.JobAfterMeans | prisma/seeds/categories.seed.ts:84-97 | So do those of the stored job: its counts are the numbers of rows of each status; a job that was cut short is RUNNING with counts of zero. |
| ImportTheorems.RowOutcome | prisma/seeds/subcategories.seed.ts:37-88 | One row in full, for every fault: error exactly when it is hindered before its lookup or, with nothing found, at its write; duplicate exactly when something is found; imported otherwise; and what it refers to. |
| ImportEngine.Seeder.Resume | prisma/seeds/categories.seed.ts:101-119 | Refused with nothing changed unless the job is FAILED or PARTIAL; otherwise a new run over what can be read back from its error rows, whichever seeder wrote them. |
| ImportEngine.Seeder.Rollback | prisma/seeds/categories.seed.ts:125-157 | From a valid database to a valid one: deletes row by row what the imported ledger rows stand for, reports how many were deleted and how many calls failed, and marks them all rolled back, failed deletions included; or ends at the first call outside the loop that throws. |
| RollbackTheorems.UndoCountsErrors | prisma/seeds/categories.seed.ts:134-144 | On any table with unique slugs and any ledger, the errors reported are exactly the imported rows whose call fails, or whose id is missing or was deleted for an earlier row. |
| RollbackReach.OwnRollbackCounts | prisma/seeds/categories.seed.ts:134-156 | Rolling back a run's own ledger counts each imported row once: as rolled back when its deletion works, as an error when it fails. |
| RollbackReach.JobAfterRollbackMeans | prisma/seeds/categories.seed.ts:146-154 | What a rollback makes of the job: its status after each stop, and which rows are marked. |
| RollbackReach.ForeignRollback | prisma/seeds/categories.seed.ts:126-129 | On another seeder's job it deletes and marks nothing, and still calls the job rolled back. |
| ImportEngine.Seeder.UndoOne | prisma/seeds/product-masters.seed.ts:161-169 | One guarded deletion, by id or by looking the slug up first. |
| ImportTheorems.LedgerIsComplete | prisma/seeds/subcategories.seed.ts:31-106 | For every fault pattern: one ledger row per input in order, imported + duplicate + error equals the input length, and the job the run leaves can be resumed exactly when the run was not cut short and some row is an error. |
| Histories.ResumableExactly | prisma/seeds/categories.seed.ts:101-119 | Over every history of runs, resumptions and rollbacks of the four seeders: a job can be resumed if and only if its run was not cut short, it was never rolled back, and it has an ERROR row. |
| Histories.RefusedWithErrors | prisma/seeds/categories.seed.ts:107-110 | An instance: a category whose write fails, its job cut short at the last update or rolled back, is refused with the row still to be retried. |
| Histories.ReachedIsSeeded | prisma/seeds/categories.seed.ts:11-157 | Over every such history: every table is valid, every slug is that of its row's name, and the category tree has two levels. |
| Histories.ActChanges | prisma/seeds/product-masters.seed.ts:12-34 | An action changes the table of its seeder only; the two category seeders share theirs. |
| ImportTheorems.BatchesCover | prisma/seeds/categories.seed.ts:80-82 | The batches are nonempty, hold at most 100 rows, number ceil(n/100) and concatenate to the ledger. |
| ImportTheorems.ImportedRow | prisma/seeds/subcategories.seed.ts:37-76 | Only an entry new by name under the parent picked for it, and new by slug, is imported, or written and reported as failed; either adds exactly its own entity and slug, and every other outcome leaves the table alone. |
| ImportTheorems.SlugsAfterRun | prisma/seeds/categories.seed.ts:31-78 | For every table, every fault pattern and every choice of the unordered lookups, the slugs after a run are those before plus those of the entries that are new under the parent picked for them and whose rows took effect: no errors, or errors reported after the write took hold. |
| ImportTheorems.FreeChoiceSlugs | prisma/seeds/subcategories.seed.ts:37-58 | Where equally named parents agree on each child, or its slug is there before, they are those before plus those of the eligible entries whose rows took effect. |
| ParentChoice.EligibilityDecidesExactly | prisma/seeds/subcategories.seed.ts:37-58 | Eligibility alone gives the slugs after every run, whatever fails and whatever the lookups return, exactly under that condition. |
| ParentChoice.FaultFreeRunsAgreeExactly | prisma/seeds/subcategories.seed.ts:37-58 | Fault-free runs agree on their slugs, whatever the lookups return, exactly when every slug that some choice brings is there before or brought by every choice. |
| ImportTheorems.SecondRunImportsNothing | prisma/seeds/categories.seed.ts:31-99 | After a fault-free run, a second run imports nothing and changes no entity, whatever fails in it. |
| ImportTheorems.RetriesAreReadBack | prisma/seeds/categories.seed.ts:111-117 | Whatever kind of job is resumed, exactly what its error rows read back as is run again. |
| ImportTheorems.ReadBackMeans | prisma/seeds/subcategories.seed.ts:121-129 | A raw row reads back exactly when every field the resuming seeder asks for is there and not empty, and the entry it reads has those fields. |
| ImportTheorems.NothingToResume | prisma/seeds/categories.seed.ts:84-110 | A job that ran to its end and is refused for its status has nothing to retry. |
| ParentChoice.ResumptionExactly | prisma/seeds/categories.seed.ts:101-119 | On any table: for every fault pattern, every choice of the unordered lookups and every order of the retries, a run resumed without faults leaves the slugs of one fault-free run, if and only if each eligible entry finds its slug there before or shares it with an entry that can be read back and that no choice blocks. |
| ParentChoice.SecondRunIdleExactly | prisma/seeds/categories.seed.ts:31-99 | On any table: a second run after a fault-free one changes nothing, whatever fails in it and whatever the lookups return, exactly when every slug that some choice brings is there before or brought by every choice. |
| ImportTheorems.ResumeMatchesCleanRun | prisma/seeds/categories.seed.ts:101-119 | For one fault pattern, where no choice matters: a run, resumed without faults in any order, leaves the slugs of one fault-free run exactly when every slug whose row `resume` drops is supplied otherwise. |
| Histories.ReachedResumption | prisma/seeds/categories.seed.ts:101-119 | That equivalence for the actions of the seeders on every reachable database, rollbacks included, with no condition on parents. |
| Histories.ReachedSecondRun | prisma/seeds/categories.seed.ts:31-99 | Likewise a second run after a fault-free one imports nothing. |
| Histories.ReachedRollback | prisma/seeds/categories.seed.ts:125-157 | On every reachable database a run, cut short or not, and its rollback restore the table exactly when every imported row was written to the ledger, its deletion works, and no write took hold that was reported as failed. |
| ImportTheorems.SafeInputResumes | prisma/seeds/categories.seed.ts:111-118 | On input where every entry with an empty name (or category) shares its slug with a readable one, or finds it taken, resumption is faithful whatever fails. |
| ImportTheorems.UnsafeInputLosesSlugs | prisma/seeds/categories.seed.ts:111-118 | On any other input it is not: when every lookup of the first run fails, resuming misses a slug. |
| ImportTheorems.EmptyNameIsLost | prisma/seeds/categories.seed.ts:115 | Concretely, an empty name whose row fails is never imported, while a fault-free run gives it the slug "item". |
| ImportTheorems.ResumeAgainAddsNothing | prisma/seeds/categories.seed.ts:101-119 | Resuming the same job once more leaves the table unchanged. |
| ImportTheorems.HistoryStaysWithin | prisma/seeds/categories.seed.ts:31-119 | No history of jobs, with any faults, creates a slug its entries do not call for. |
| ImportTheorems.HistoryConverges | prisma/seeds/categories.seed.ts:31-119 | After any history of jobs over the entries, one fault-free job over what is not yet settled leaves exactly the slugs the entries call for. |
| ParentChoice.ParentChoiceMatters | prisma/seeds/subcategories.seed.ts:37-52 | Which of several equally named roots the unordered lookup returns is irrelevant to a row exactly when they agree on having such a child, or the slug is taken. |
| ParentChoice.CategoryRunKeepsRootsUnique | prisma/seeds/categories.seed.ts:37-47 | The category seeder keeps root names distinct up to case. |
| ImportTheorems.UniqueRootsAgree | prisma/seeds/subcategories.seed.ts:37-40 | Distinct root names make the unordered parent lookup harmless. |
| PipelineTheorems.ImportedExactly | prisma/seeds/subcategories.seed.ts:31-88 | For every kind, table, fault pattern and choice: a row is imported exactly when it is no error, its name is new under the parent picked, its slug is free before the run, and no earlier row has supplied that slug. |
| PipelineTheorems.FaultFreeImportsExactly | prisma/seeds/subcategories.seed.ts:31-88 | Without faults, where no choice matters: exactly when it is eligible, its slug is free before the run, and no earlier eligible entry shares the slug. |
| PipelineTheorems.OneImportPerSlug | prisma/seeds/subcategories.seed.ts:49-58 | So two entries with the same slug are never both imported by a run, even under different parents. |
| PipelineTheorems.SharedNameImportedOnce | prisma/seeds/subcategories.seed.ts:49-58 | An instance: of two eligible entries with one slug the first is imported and the second recorded as its duplicate. |
| PipelineTheorems.RootsAfterCategoryRun | prisma/seeds/categories.seed.ts:31-69 | After a fault-free category run a root of a given name exists exactly when there was one before, or the slug was free and the first category to claim it has that name. |
| PipelineTheorems.SubcategoryErrorsExactly | prisma/seeds/seed.ts:20-38 | With both seeders run in sequence without faults, a subcategory row is an error exactly when its category had no root before and the category run provided none. |
| PipelineTheorems.SlugClashLosesCategory | prisma/seeds/categories.seed.ts:36-47 | An instance: of a name and that name with an exclamation mark only the first gets a root, and a subcategory of the second is an error. |
| PipelineTheorems.ForeignNamesBecomeRoots | prisma/seeds/categories.seed.ts:101-119 | Resumed by the category seeder, a product or service job has the new names of its failed rows created as root categories, and nothing else. |
| PipelineTheorems.NothingReadBack | prisma/seeds/subcategories.seed.ts:112-130 | Resumed by a seeder that cannot read its rows, a job yields an empty run that reports COMPLETED. |
| RollbackTheorems.ProcessKeepsValid | prisma/seeds/categories.seed.ts:49-69 | Every run keeps ids and slugs unique and references in range. |
| RollbackTheorems.UndoKeepsValid | prisma/seeds/categories.seed.ts:136-144 | So does every rollback, whatever it deletes. |
| RollbackTheorems.UndoRemovesTargets | prisma/seeds/product-masters.seed.ts:157-170 | Deleting one by one, resolving each reference in the table as it then is, equals removing all targets at once, each counted once. |
| RollbackTheorems.RollbackLeavesSurvivors | prisma/seeds/categories.seed.ts:125-149 | After a run with any faults, rollback keeps the rows from before the run exactly as they were and leaves of the created rows only those whose deletion fails or whose write took hold and was reported as failed, for ids and for slugs, in any order. |
| RollbackTheorems.RollbackUndoesRun | prisma/seeds/product-masters.seed.ts:148-175 | Rollback restores the table exactly when no deletion of an imported row fails and no write took hold that was reported as failed. |
| RollbackTheorems.SecondRollbackDoesNothing | prisma/seeds/categories.seed.ts:146-149 | A second rollback deletes nothing, so survivors of failed deletions stay. |
| RollbackTheorems.RollbackInEitherOrder | prisma/seeds/subcategories.seed.ts:134-166 | Two jobs of any kinds on one table can be rolled back in either order: both leave the same table, which is the one before the first exactly when neither run had a write that took hold and was reported as failed. |
| RollbackReach.DuplicateSurvivesExactly | prisma/seeds/categories.seed.ts:42-46 | For every kind, fault pattern and order: the entity a DUPLICATE row names survives the rollback exactly when no imported row of the run created it whose deletion works; unless a write was reported as failed after it took hold, that is when it was there before the run or the deletion of the row that created it fails. |
| RollbackReach.RepeatedNameIsRolledBack | prisma/seeds/categories.seed.ts:36-47 | An instance: a name that occurs twice in one file is recorded as imported and as a duplicate of id 0, and the rollback deletes id 0. |
| RollbackReach.LostWriteStays | prisma/seeds/categories.seed.ts:50-77 | An instance: what a write created that was then reported as failed stays through every rollback. |
| RollbackReach.CutShortRollback | prisma/seeds/categories.seed.ts:80-97 | When writing the ledger is cut short, the job cannot be resumed, and its rollback restores the table exactly when every imported row was written, its deletion works, and no write took hold that was reported as failed; what unwritten rows created stays. |
| RollbackReach.RollbackAgain | prisma/seeds/categories.seed.ts:146-154 | A second rollback: when marking the rows threw in the first, it acts on them again and leaves only what fails both times; when they were marked, it deletes nothing. |
| RollbackReach.RowStaysExactly | prisma/seeds/product-masters.seed.ts:157-170 | Whatever has been written to the table since: a target of a rollback goes, every other row stays, and it stays exactly as it was if and only if its parent is no target. |
| RollbackReach.SparesOthersExactly | prisma/seeds/product-masters.seed.ts:157-170 | Rollback leaves every row outside a set of ids exactly as it is if and only if each ledger row it acts on stands now for one of them and no other row hangs under one it deletes. |
| RollbackReach.IdReferencesSpareOthersExactly | prisma/seeds/categories.seed.ts:133-144 | The category seeders' rollback acts on rows of its own run only, and leaves all others exactly as they are if and only if none hangs under a category it deletes. |
| RollbackReach.ChildBecomesRoot | prisma/seeds/categories.seed.ts:136-138 | An instance: a child that another job put under the deleted category becomes a root. |
| RollbackReach.SlugReferencesSpareOthersExactly | prisma/seeds/product-masters.seed.ts:157-170 | The master seeders' rollback, in tables without parents, leaves all other rows exactly as they are if and only if each recorded slug still in use is borne by a row of the run. |
| RollbackReach.SlugReferenceHitsSuccessor | prisma/seeds/product-masters.seed.ts:162-164 | An instance where it does not: a later row under the same slug is deleted, while an id reference would leave it. |
| Shuffle.Generator.Next | prisma/seed-scripts/master-directory.seed.ts:24-33 | A draw adds the increment modulo 2^32 and scrambles the new state to a value in [0, 1). |
| Shuffle.FirstDraws | prisma/seed-scripts/master-directory.seed.ts:24-33 | The first three states and outputs from the seed 42. |
| Shuffle.DrawMeans | prisma/seed-scripts/master-directory.seed.ts:31 | A draw is the scrambled word as a fraction of 2^32. |
| Shuffle.PeriodIsFull | prisma/seed-scripts/master-directory.seed.ts:27-28 | Two states of a run coincide exactly when the number of draws between them is a multiple of 2^32. |
| Shuffle.EveryStateIsReached | prisma/seed-scripts/master-directory.seed.ts:27-28 | Every 32-bit state is reached within 2^32 draws from any seed. |
| Shuffle.IndexInBounds | prisma/seed-scripts/master-directory.seed.ts:55 | Scaling a draw to a length gives an index in bounds. |
| Shuffle.IndexExactly | prisma/seed-scripts/master-directory.seed.ts:55 | The index is k exactly for draws in the k-th of n equal parts of the unit interval. |
| Shuffle.PickInBounds | prisma/seed-scripts/master-directory.seed.ts:48-50 | `pick` yields an element exactly when the list is nonempty and the shifted index is non-negative or a multiple of the length. |
| Shuffle.Shuffled | prisma/seed-scripts/master-directory.seed.ts:52-59 | The in-place loop on the copy is the shuffle by the drawn choices, takes n - 1 draws, and leaves its argument alone. |
| Shuffle.ChoicesMean | prisma/seed-scripts/master-directory.seed.ts:54-57 | Position i of n is chosen by draw number n - i, scaled to one of i + 1 equal parts. |
| Shuffle.ShuffleKeepsElements | prisma/seed-scripts/master-directory.seed.ts:52-59 | Every choice vector permutes every list. |
| Shuffle.EveryPermutationOnce | prisma/seed-scripts/master-directory.seed.ts:52-59 | On distinct elements an order is a permutation exactly when some choice vector gives it, and then exactly one does. |
| Shuffle.OneToOneExactlyWhenDistinct | prisma/seed-scripts/master-directory.seed.ts:52-59 | Choice vectors map one-to-one to orders exactly when the elements are distinct. |
| Reindex.WithRetry | scripts/reindex-products.js:160-174 | Stops at the first of at most three attempts that works; fails exactly when all three do. |
| Reindex.SearchIndex.EnsureIndex | scripts/reindex-products.js:176-189 | An existing index is kept, or emptied on `--recreate`; a missing one is created; exactly when the script gets past it. |
| Reindex.EnsuresMeans | scripts/reindex-products.js:176-189 | In attempts: the existence check once, dropping and creating one to three times. |
| Reindex.RefreshesMeans | scripts/reindex-products.js:305-308 | Refreshing and counting, in attempts. |
| Reindex.PruneCompletesMeans | scripts/reindex-products.js:313-331 | Pruning completes, in attempts and numbers: one of three scans starts, there are fewer than 1000 documents, and each stale one is deleted within three attempts. |
| Reindex.ReachedMeans | scripts/reindex-products.js:284-290 | The write loop reaches every document exactly when no product count it asks for throws. |
| Reindex.SearchIndex.WriteAll | scripts/reindex-products.js:279-303 | The write loop upserts by id; written + failed equals selected. |
| Reindex.CountFailedMeans | scripts/reindex-products.js:279-303 | The documents counted as failed are those all three of whose attempts fail. |
| Reindex.SearchIndex.ScanAll | scripts/reindex-products.js:316-326 | Because no sort is sent, the scan ends after one request below 1000 documents and never from 1000 on. |
| Reindex.SearchIndex.Prune | scripts/reindex-products.js:313-331 | Pruning completes exactly when the scan and every deletion succeed below 1000 documents, and then keeps exactly the live ids; a live document is never removed. |
| Reindex.Rebuild | scripts/reindex-products.js:255-335 | All indices in phases: the script finishes exactly when nothing in the work on any index stops it, and then each index is the final one; if one cannot be ensured none is written; if a product count throws, the indices before are written, the companies in part and those after not; stopped later, all are written, those before the stop pruned, those after not. |
| Reindex.WriteEach | scripts/reindex-products.js:279-303 | Writes the indices in order and stops at the first document whose product count throws. |
| Reindex.PruneEach | scripts/reindex-products.js:313-331 | Prunes the indices in order and stops at the first whose scan or deletion fails or whose scan never ends. |
| Reindex.FullIndexHangs | scripts/reindex-products.js:316-326 | An instance: from 1000 documents on pruning hangs although there is nothing to remove. |
| Reindex.WrittenAt | scripts/reindex-products.js:279-303 | After the write loop each selected id holds its new document, or what it held before if all attempts failed; other ids are untouched. |
| Reindex.PruningConverges | scripts/reindex-products.js:278-331 | After a completed pruning run nothing outside the selection is left, and the index is the selection exactly when every document that could not be written was up to date. |
| Reindex.RecreatedHoldsSelection | scripts/reindex-products.js:176-189 | An index that was missing or is recreated holds only selected documents afterwards, with or without pruning. |
| Reindex.KeptIndexGrows | scripts/reindex-products.js:176-189 | One that is kept loses nothing without pruning. |
| Reindex.SecondRunChangesNothing | scripts/reindex-products.js:278-331 | After a run without permanent write failures a second run leaves the index unchanged, whatever fails in it. |
| Sitemap.TrailingSlash | apps/web/app/sitemap.ts:32-33 | A normalised URL ends in a slash exactly for the root and for a path that ended in two. |
| Sitemap.NormalizeTwice | apps/web/app/sitemap.ts:32-33 | When normalising twice changes nothing more. |
| Sitemap.SecondSlashStays | apps/web/app/sitemap.ts:32-33 | A path with two trailing slashes keeps one, so it is not identified with the path with one. |
| Sitemap.Dedupe | apps/web/app/sitemap.ts:28-39 | The URLs are the normalised ones in first-seen order, each carried by its first entry. |
| Sitemap.DedupeMeaning | apps/web/app/sitemap.ts:28-39 | They are pairwise distinct, in order of first appearance, and cover every input. |
| Sitemap.CursorRoutes | apps/web/app/sitemap.ts:72-92 | The cursor loop, for any ceiling on requests, collects what the recursive listing says and never exceeds the ceiling. |
| Sitemap.GoesOnExactly | apps/web/app/sitemap.ts:74-87 | The loop goes on exactly when there is a cursor and the page had rows. |
| Sitemap.RouteUrls | apps/web/app/sitemap.ts:79-81 | The URL of a row: by its slug, and for a product without one by its id; a row with neither has none. |
| Sitemap.ProductRoutes | apps/web/app/sitemap.ts:72-92 | The product section, with slug or else id in the URL, makes at most 240 requests. |
| Sitemap.IndustryRoutes | apps/web/app/sitemap.ts:125-145 | So does the industry section. |
| Sitemap.FailureLeavesPrefix | apps/web/app/sitemap.ts:88-91 | A failure at any request leaves a prefix of the fault-free collection. |
| Sitemap.FailureKeepsExactly | apps/web/app/sitemap.ts:72-92 | After k good requests a failure leaves exactly the rows of those k pages. |
| Sitemap.WholeListingCollected | apps/web/app/sitemap.ts:72-92 | A listing that ends within the ceiling is collected whole, in order. |
| Sitemap.CeilingCutsListing | apps/web/app/sitemap.ts:74-87 | Of a longer one exactly the pages up to the ceiling are collected. |
| Sitemap.CompanyRoutes | apps/web/app/sitemap.ts:100-118 | The numbered-page loop collects what the recursive listing says within the ceiling. |
| Sitemap.DirectoryGoesOnExactly | apps/web/app/sitemap.ts:104-113 | It goes on exactly when the page had companies and there are more pages. |
| Sitemap.CompanySection | apps/web/app/sitemap.ts:100-118 | The company section makes at most 240 requests. |
| Sitemap.DirectoryFailureLeavesPrefix | apps/web/app/sitemap.ts:114-117 | A failure leaves a prefix there too. |
| Sitemap.WholeDirectoryCollected | apps/web/app/sitemap.ts:100-118 | A directory of nonempty pages is collected whole, up to the ceiling. |

## Left out

- ImportTheorems.FreeChoiceSlugs: for subcategories it asks that equally named parents agree on having such a child or that the slug is there before; `SlugsAfterRun` does without, `EligibilityDecidesExactly` shows that the condition is needed, and on every table the seeders reach it holds (`Histories.SeededHasNoChoice`).
- ImportTheorems.SecondRunImportsNothing: carries the same condition; `ParentChoice.SecondRunIdleExactly` and `Histories.ReachedSecondRun` do without.
- ImportTheorems.ResumeMatchesCleanRun: carries the same condition; `ParentChoice.ResumptionExactly` and `Histories.ReachedResumption` do without.
- ImportTheorems.SafeInputResumes: carries the same condition; `ParentChoice.ResumptionExactly` does without.
- ImportEngine.Seeder.UndoOne: a failing deletion has no effect; so have a failing ledger batch and a failing update of a job.
- Reindex.Rebuild: document bodies arrive built; a company's body holds its product count, whose query may throw. An attempt that fails has no effect.
- Error messages, progress logs, SEO texts, keywords, units, prices and the category columns of the two master tables: they do not influence what is imported.
- Foreign keys from other tables to the seeded ones.
- Concurrent writers and transactions: the code has no locking.
- Unicode case folding and the non-ASCII part of the transliteration table; the proofs hold for any table whose spellings avoid its own characters.
- Quoted line breaks in the catalogue file, which the reader splits before parsing, and serial numbers beyond the exact range of doubles.
- The rounding of floating-point products in the shuffle: draws and indices are exact.
- The remaining phases of the master directory seed, the other sitemap sections, the index mappings and the body builders: tables and wiring with no further behaviour.
