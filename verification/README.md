# PMP Exam Simulation — a Dafny model of the exam logic

This project models the exam logic of the PMP exam simulator. Exams hold
bilingual single-answer and multiple-answer questions. Candidates take an
exam in a timed session; the app scores it, stores the result and pages
through past results. Administrators import questions from CSV. A script
turns extracted PDF question blocks into an exam file.

The model covers the following, each as pure functions over immutable
datatypes:

- the question, answer and result shapes and their validity rules;
- the three repairs of records written before the `type` tag existed;
- the two scoring paths (results page and submission);
- the exam session's state transitions and the question navigator;
- the CSV reader and the CSV-to-exam conversion;
- the result store's sort and pagination, and the history pager;
- the admin validation schemas;
- the deterministic rules of the PDF converter.

One module per source file:

| module | models |
|---|---|
| `Schema` | `shared/schema.ts`: questions, answers, validity, the tagged-union parse |
| `ExamStore` | `server/storage.ts`: exam listing, lookup, legacy question repair |
| `ResultsPage` | `client/src/pages/ResultsPage.tsx`: answer repair and the scoring memo |
| `ExamSession` | `client/src/pages/ExamInterface.tsx`: init/restore, timer, answer handlers, navigation, counters |
| `Submission` | `client/src/pages/ExamInterface.tsx`: the scoring part of `handleSubmitExam` |
| `Navigator` | `client/src/components/QuestionNavigator.tsx`: cell status and select-then-close |
| `CsvLine`, `CsvParser`, `CsvImport` | `server/csv-parser.ts`: lines and fields, row objects, question and exam construction |
| `ResultsStore` | `server/results-storage.ts`: saving and paginated listing |
| `ExamHistory` | `client/src/components/ExamHistory.tsx`: page count, badge, views, pager |
| `AdminSchema` | `shared/admin-schema.ts`: login and CSV-question validation |
| `PdfConverter` | `scripts/convertPdfToExam.ts`: keyword classifier, block rules, assembly |
| `Text`, `Sequences`, `Grouping`, `Optional` | shared helpers: trimming and ASCII case, sorting, the first-occurrence tally behind both scoring paths, `Option` |

## Modelling decisions

- **File I/O becomes input.** A directory listing becomes a sequence of files. Each file is a name plus optional parsed content; `None` stands for a read or parse error. A directory that cannot be read is `None`.
- **Browser storage and injected values become parameters.** A `sessionStorage` snapshot is a datatype: absent, corrupt, or present. `Date.now()` and `randomUUID()` are plain parameters.
- **Percentages.**
  - The results page computes `Math.round((c / t) * 100)` in double precision. The model rounds the exact ratio 100·c/t, halves up. The two differ where the double product falls just below a half (see "Left out").
  - The submission path keeps its percentages unrounded. They are exact `real`s.
  - A percentage over zero questions is NaN in JavaScript. Here it is `None`.
- **Text.** The schema types question, option, title and domain text as strings, but imported and converted exams store `{en, ar}` objects there. Text is therefore either a plain string or an English/Arabic pair. Case mapping is ASCII only.
- **Validity.** `Schema.WellFormed` holds the schema's numeric and length rules. `Schema.ValidQuestion` adds the string typing of `z.string()`, which rejects an `{en, ar}` object.
- **Sorting.**
  - JavaScript's default `sort()` orders numbers as strings. Both scoring paths only compare two sorted lists for equality. That comparison gives the same answer under any total order, so the model sorts numerically.
  - The toggle handler also sorts its list. For option indices 0 to 9, string order and numeric order agree.
- **Reading rows.**
  - A key missing from a CSV row reads as the empty string. Rows produced by `parseCSV` always carry every header.
  - `parseInt` is modelled on its decimal and `0x` hexadecimal prefixes. NaN is an explicit value.
  - zod's `min(n)` counts UTF-16 code units. The model counts code units too.
- **Behaviour of the code worth noting.**
  - There is no double-submit latch: the timer and the submit button both call the same handler.
  - Multiple selections are arrays, not sets. The two scoring paths therefore disagree on repeated selections (`Submission.RepeatedSelectionDisagrees`). The toggle handler never produces a repeat (`ExamSession.ClicksGiveOddOptions`).
  - The three legacy repairs differ, and each is modelled as written: `ExamStore.NormalizeQuestion`, `ResultsPage.NormalizeAnswer`, `ExamSession.RestoreAnswer`.
  - Questions built by the CSV import and by the PDF converter carry `{en, ar}` texts. They are well formed, but the string-typed question schema rejects every one of them (`CsvImport.CsvToQuestionFacts`, `PdfConverter.AssembledValidIff`). The exam route's `examSchema.parse` therefore fails on imported exams.
- **The stored test record.** Its schema (`ExamTestRecord`) is not part of this model. Its fields follow the record that `handleSubmitExam` posts (`Submission.Submitted`), plus the identifier.
- **The CSV question schema.** `csvQuestionSchema` is defined but no code path uses it. It is still modelled, as a parser over a map of JSON values.

## Model

| member | source | states |
|---|---|---|
| Schema.ShapeQuestion | shared/schema.ts:28-31 | The tagged union picks its variant by the `type` tag: a record has a typed view exactly when it is tagged and carries the answer key of its variant; the view keeps id, options and domain |
| Schema.ParseQuestion | shared/schema.ts:4-31 | A parsed question is valid and has the record's tag. Valid means string texts (a bilingual question, option, explanation or domain is rejected), 4 options, keys in 0..3, at least 2 keys for multiple, and a minimum of at least 2 and a maximum in 2..4 when present. A record parses exactly when its typed view is valid; an untagged record never parses through the union |
| Schema.ParseRoundTrip | shared/schema.ts:4-31 | A question written out as its JSON record parses back to itself exactly when it is valid, and fails to parse otherwise |
| Schema.ParseSingleQuestion | shared/schema.ts:4-12 | The single-answer schema on its own defaults a missing tag to "single". A record parses exactly when it is not tagged multiple and has a key in 0..3, 4 options and string texts |
| ExamStore.NormalizeQuestion | server/storage.ts:73-85 | A tagged question is unchanged; an untagged one gets tag multiple exactly when it has `correctAnswers`, and no other field changes |
| ExamStore.NormalizeQuestionsIdempotent | server/storage.ts:73-85 | Repairing an already repaired question list changes nothing |
| ExamStore.NormalizedLegacyParses | server/storage.ts:79-84 | An untagged question parses after repair exactly when it has 4 options, string texts and the answer key of the variant it is given, within that variant's limits. It becomes multiple exactly when it has `correctAnswers` |
| ExamStore.ListExams | server/storage.ts:29-58 | An unreadable directory lists nothing; otherwise at most one item per file |
| ExamStore.ListedOnlyIfReadable | server/storage.ts:32-51 | Every listed item is the projection (id, title, description, question count, duration) of some readable `.json` file |
| ExamStore.ListedIfReadable | server/storage.ts:36-52 | Every readable `.json` file contributes its item, whatever other files fail |
| ExamStore.GetExamAsWritten | server/storage.ts:61-97 | The lookup as written returns only an exam with the requested id |
| ExamStore.ScanAsWritten | server/storage.ts:65-92 | The scan over the files as written returns only an exam with the requested id |
| ExamStore.ScanAsWrittenFinds | server/storage.ts:62-96 | As written, when no broken `.json` file comes before the first file holding the id, the lookup returns that file's exam with its questions repaired |
| ExamStore.ScanAsWrittenNoneIff | server/storage.ts:62-96 | As written, the lookup returns null exactly when every file holding the id has a broken `.json` file before it, which includes the case that no file holds it |
| ExamStore.GetExamMissesListedExam | server/storage.ts:62-96 | A broken `.json` file ahead of a good one makes the lookup return nothing for an exam the listing shows |
| ExamStore.GetExam | server/storage.ts:65-92 | The corrected lookup returns only an exam with the requested id, every question tagged |
| ExamStore.Scan | server/storage.ts:65-92 | The corrected scan returns only an exam with the requested id, every question tagged |
| ExamStore.ScanFindsFirst | server/storage.ts:65-92 | The corrected lookup returns the exam of the first file in directory order that holds the id, with its questions repaired |
| ExamStore.ScanNoneIff | server/storage.ts:65-95 | The corrected lookup returns null exactly when no readable `.json` file holds the id |
| ExamStore.ListedExamIsFound | server/storage.ts:65-92 | For any readable `.json` file, the corrected lookup of its id succeeds. It returns the repaired content of the first file holding that id, which is at or before the given one |
| ExamStore.ScansAgreeWithoutBrokenFiles | server/storage.ts:62-96 | When no `.json` file is broken, the as-written and corrected lookups agree |
| ResultsPage.NormalizeAnswer | client/src/pages/ResultsPage.tsx:36-60 | A tagged answer is kept; a legacy one becomes multiple exactly when its positional question is tagged multiple or has `correctAnswers`, keeping selections (or []), otherwise single with its selection; the id is kept and the mark defaults to false |
| ResultsPage.NormalizeResultsData | client/src/pages/ResultsPage.tsx:27-80 | The memo fails exactly when a legacy answer has no question at its position; otherwise answers and questions keep their counts and each is repaired per position |
| ResultsPage.NormalizeResultsDataIdempotent | client/src/pages/ResultsPage.tsx:34-74 | Repairing the repaired data again gives the same data |
| ResultsPage.IsCorrect | client/src/pages/ResultsPage.tsx:96-105 | A question and an answer of different variants never score; a scoring multiple answer holds exactly the keys' multiset of selections |
| ResultsPage.SingleCorrectIff | client/src/pages/ResultsPage.tsx:96-97 | A single answer is correct exactly when a selection exists and equals the key |
| ResultsPage.MultipleCorrectIff | client/src/pages/ResultsPage.tsx:98-105 | A multiple answer is correct exactly when its selections and the keys are the same multiset |
| ResultsPage.AllOrNothingExamples | client/src/pages/ResultsPage.tsx:98-105 | Order does not matter; a subset, superset, empty or disjoint selection scores nothing |
| ResultsPage.RoundPercent | client/src/pages/ResultsPage.tsx:148 | The rounded percentage is the integer nearest the exact 100·c/t, halves rounded up, and lies in 0..100 |
| ResultsPage.RoundPassIff | client/src/pages/ResultsPage.tsx:152-153 | The rounded percentage reaches 61 exactly when 200·c ≥ 121·t |
| ResultsPage.RoundingExamples | client/src/pages/ResultsPage.tsx:152-153 | 2/3 rounds to 67, 1/2 to 50, 3/5 to 60 (a fail); 121/200 passes and 120/200 does not |
| ResultsPage.Flags | client/src/pages/ResultsPage.tsx:91-107 | One verdict per question, pairing the i-th question with the i-th answer |
| ResultsPage.Domains | client/src/pages/ResultsPage.tsx:109 | One domain key per question, in order |
| ResultsPage.DomainResults | client/src/pages/ResultsPage.tsx:143-150 | Grouping by value: one entry per tally entry, with its domain, counts, a positive total and the rounded percentage |
| ResultsPage.ResultOf | client/src/pages/ResultsPage.tsx:116-140 | A question result exists exactly when question and answer have the same tag, and then carries the question id, the verdict and the variant |
| ResultsPage.QuestionResults | client/src/pages/ResultsPage.tsx:116-140 | At most one question result per question |
| ResultsPage.MatchingPositions | client/src/pages/ResultsPage.tsx:91-140 | The positions, in increasing order, whose answer has its question's variant, and every such position |
| ResultsPage.QuestionResultsOfMatching | client/src/pages/ResultsPage.tsx:91-140 | For any mix of variants, the results are one entry per matching position, in order, each the entry ResultOf makes of that pair; a mismatched pair adds nothing and shifts nothing |
| ResultsPage.QuestionResultsAligned | client/src/pages/ResultsPage.tsx:116-140 | When every pair has matching tags, there is exactly one result per question, in order, with its id, verdict and variant |
| ResultsPage.Score | client/src/pages/ResultsPage.tsx:82-164 | Total is the question count; correct is the number of correct verdicts; the percentage rounds c/t (none for zero questions); passed exactly when it reaches 61. The question results are those above, and the domain entries are grouped as the page's `Map` groups them |
| ResultsPage.ScoreCorrected | client/src/pages/ResultsPage.tsx:107-113 | The same result with domain entries grouped by value; every other field equals the page's |
| ResultsPage.PassedIff | client/src/pages/ResultsPage.tsx:152-153 | An exam passes exactly when it has questions and 200·correct ≥ 121·total |
| ResultsPage.ScoreDomainsCover | client/src/pages/ResultsPage.tsx:107-113 | Grouped by value, domain entries are distinct, and every question's domain has an entry |
| ResultsPage.ScoreDomainsCounts | client/src/pages/ResultsPage.tsx:109-113 | Grouped by value, each entry's total is the number of questions in that domain, its correct count those answered correctly, its percentage their rounded ratio |
| ResultsPage.ScoreDomainsOrder | client/src/pages/ResultsPage.tsx:143-150 | Grouped by value, entries come in first-occurrence order of their domains |
| ResultsPage.ScoreDomainsSums | client/src/pages/ResultsPage.tsx:107-113 | Under either grouping, domain totals sum to the question count and domain corrects to the correct count |
| ResultsPage.DomainResultsCounts | client/src/pages/ResultsPage.tsx:143-150 | For any keys and verdicts, each entry counts its key's occurrences and correct occurrences |
| ResultsPage.DomainResultsOrder | client/src/pages/ResultsPage.tsx:143-150 | For any keys and verdicts, entries name occurring keys in first-occurrence order |
| ResultsPage.SumsAgree | client/src/pages/ResultsPage.tsx:143-150 | Summing the entries gives the same totals as summing the underlying tally |
| ResultsPage.MapKeysAsWritten | client/src/pages/ResultsPage.tsx:88-113 | Each key stands for its question's domain. Two questions share a key exactly when their domain is a plain string and the strings are equal: a bilingual domain object equals only itself |
| ResultsPage.PageDomainResults | client/src/pages/ResultsPage.tsx:143-150 | One entry per `Map` key, in tally order, labelled with the key's domain, with its counts, a positive total and the rounded percentage |
| ResultsPage.PlainDomainsAgree | client/src/pages/ResultsPage.tsx:88-113 | When no domain is bilingual, the page's result equals the result grouped by value |
| ResultsPage.BilingualDomainsNeverMerge | client/src/pages/ResultsPage.tsx:88-113 | When every domain is bilingual, the page makes one domain entry per question |
| ResultsPage.SharedBilingualDomainSplits | client/src/pages/ResultsPage.tsx:88-113 | Two questions sharing a bilingual domain get two entries on the page and one when grouped by value |
| ExamSession.AnsweredFlags | client/src/pages/ExamInterface.tsx:321-327 | Per answer: answered exactly when a single selection is present or a multiple selection list is non-empty |
| ExamSession.MarkedFlags | client/src/pages/ExamInterface.tsx:328 | Per answer: its mark |
| ExamSession.CountsAfterUpdate | client/src/pages/ExamInterface.tsx:321-328 | Replacing one answer moves each counter exactly by that answer's own change of status |
| ExamSession.AnsweredCount | client/src/pages/ExamInterface.tsx:321-327 | The answered counter is at most the number of answers. It equals that number exactly when every answer is answered, and is 0 exactly when none is |
| ExamSession.MarkedCount | client/src/pages/ExamInterface.tsx:328 | The marked counter is at most the number of answers. It equals that number exactly when every answer is marked, and is 0 exactly when none is |
| ExamSession.FreshAnswer | client/src/pages/ExamInterface.tsx:114-135 | A fresh answer has the question's id and variant, no selection and no mark |
| ExamSession.FreshAnswers | client/src/pages/ExamInterface.tsx:117-134 | One fresh answer per question, in order |
| ExamSession.Fresh | client/src/pages/ExamInterface.tsx:114-135 | A fresh session has one matching answer per question, zero answered and marked, the duration in seconds, index 0 and not paused |
| ExamSession.RestoreAnswer | client/src/pages/ExamInterface.tsx:61-85 | A tagged answer is kept; a legacy one takes its question's variant, drops multiple selections, keeps a single selection, keeps the id and defaults the mark to false |
| ExamSession.Restore | client/src/pages/ExamInterface.tsx:51-140 | No snapshot, a corrupt one, or one with a legacy answer past the last question gives a fresh session; otherwise time, index, pause flag and answers (repaired per position) come from the snapshot |
| ExamSession.Persist | client/src/pages/ExamInterface.tsx:143-153 | Auto-save stores a present snapshot with every answer tagged |
| ExamSession.RestorePersist | client/src/pages/ExamInterface.tsx:143-153 | Restoring what auto-save stored gives back the same session |
| ExamSession.Tick | client/src/pages/ExamInterface.tsx:155-168 | A tick changes only the clock: nothing while paused or at zero, otherwise one second less; it submits exactly when a running clock stands at 1 |
| ExamSession.Countdown | client/src/pages/ExamInterface.tsx:155-168 | Fewer ticks than seconds left subtract that many without submitting; exactly that many reach zero and submit |
| ExamSession.ZeroStays | client/src/pages/ExamInterface.tsx:156 | At zero, any number of ticks changes nothing and never submits |
| ExamSession.PausedStays | client/src/pages/ExamInterface.tsx:156 | While paused, any number of ticks changes nothing and never submits |
| ExamSession.Select | client/src/pages/ExamInterface.tsx:170-181 | Only the current answer changes: a single one gets the selection (and so counts as answered); a multiple one is left alone |
| ExamSession.ToggleList | client/src/pages/ExamInterface.tsx:188-199 | The new list is sorted and is the old multiset with the option removed if present, added otherwise |
| ExamSession.ToggleFlips | client/src/pages/ExamInterface.tsx:189-195 | On a duplicate-free list, toggling flips the option's membership, keeps every other option's and stays duplicate-free |
| ExamSession.ToggleTwice | client/src/pages/ExamInterface.tsx:183-203 | Toggling the same option twice restores a sorted duplicate-free list |
| ExamSession.Toggle | client/src/pages/ExamInterface.tsx:183-203 | Only the current answer changes: a multiple one gets the toggled list; a single one is left alone |
| ExamSession.ClicksGiveOddOptions | client/src/pages/ExamInterface.tsx:183-203 | From no selection, any click sequence gives a sorted duplicate-free list holding exactly the options clicked an odd number of times |
| ExamSession.Mark | client/src/pages/ExamInterface.tsx:205-212 | Only the current answer changes, and only its mark |
| ExamSession.MarkCounts | client/src/pages/ExamInterface.tsx:205-212 | Marking leaves the answered count and moves the marked count by the mark's change |
| ExamSession.SelectCounts | client/src/pages/ExamInterface.tsx:170-181 | Selecting on a single answer adds one answered exactly when it was unanswered and keeps the marked count |
| ExamSession.Previous | client/src/pages/ExamInterface.tsx:214-218 | Only the index changes, down by one above zero, otherwise not at all |
| ExamSession.Next | client/src/pages/ExamInterface.tsx:220-224 | Only the index changes, up by one below the last question, otherwise not at all |
| ExamSession.NavigationStaysInside | client/src/pages/ExamInterface.tsx:214-224 | From an index inside the exam, previous and next stay inside |
| ExamSession.NextPreviousInverse | client/src/pages/ExamInterface.tsx:214-224 | Next then previous, or previous then next, returns to the start when the first move happens |
| ExamSession.PauseFreezes | client/src/pages/ExamInterface.tsx:360 | After pausing, ticks change nothing and never submit, and resuming restores the session |
| ExamSession.TogglePause | client/src/pages/ExamInterface.tsx:360-379 | The pause buttons flip the pause flag and change nothing else |
| ExamSession.Resume | client/src/pages/ExamInterface.tsx:548 | Resuming from the pause modal clears the pause flag and changes nothing else |
| Submission.EnglishText | client/src/pages/ExamInterface.tsx:247 | A plain text is itself; a bilingual one gives its English side |
| Submission.FindIndex | client/src/pages/ExamInterface.tsx:233 | The first answer with the question's id, or none when no answer has it |
| Submission.SubmitCorrect | client/src/pages/ExamInterface.tsx:234-245 | Single: the found answer is single and selects the key. Multiple: the found answer is multiple with as many selections as keys, each a key. A missing or other-variant answer never scores |
| Submission.SubmitFlags | client/src/pages/ExamInterface.tsx:232-245 | One verdict per question, pairing by question id |
| Submission.EnglishTexts | client/src/pages/ExamInterface.tsx:247 | One English domain name per question |
| Submission.TesterName | client/src/pages/ExamInterface.tsx:229 | The stored name when non-empty, otherwise a non-empty default |
| Submission.Percent | client/src/pages/ExamInterface.tsx:265 | The unrounded percentage p satisfies p·t = 100·c and lies in 0..100 |
| Submission.DomainScores | client/src/pages/ExamInterface.tsx:248-266 | One entry per first occurrence of an English domain name, with its counts, a positive total and its unrounded percentage |
| Submission.Submit | client/src/pages/ExamInterface.tsx:226-306 | The posted record carries the exam id, English title, tester name, question count and clock reading; the score counts correct verdicts; the percentage is unrounded (none for zero questions); the domain entries are those above |
| Submission.SumScoresAgree | client/src/pages/ExamInterface.tsx:268 | Summing the domain entries' corrects gives the tally's correct count |
| Submission.SubmitDomains | client/src/pages/ExamInterface.tsx:248-262 | Posted domain entries are distinct, each counting its domain's questions and correct ones |
| Submission.FindAligned | client/src/pages/ExamInterface.tsx:233 | With answers aligned to distinct question ids, the lookup finds each question's own answer |
| Submission.SubmitAgreesWithResultsPage | client/src/pages/ExamInterface.tsx:232-268 | With aligned, duplicate-free answers, the posted score equals the results page's correct count |
| Submission.RepeatedSelectionDisagrees | client/src/pages/ExamInterface.tsx:240-245 | Selections [0, 0] against keys [0, 1] score on submission but not on the results page |
| Navigator.CellAt | client/src/components/QuestionNavigator.tsx:69-104 | A cell is numbered index+1; its status is current, else marked, else answered, else unanswered; the warning icon shows exactly for marked and the check icon exactly for answered |
| Navigator.Grid | client/src/components/QuestionNavigator.tsx:22-104 | Nothing is shown when closed; otherwise one cell per question built from its answer |
| Navigator.GridCurrentUnique | client/src/components/QuestionNavigator.tsx:75-103 | At most one cell is current, one exists exactly when the index is inside, and no cell shows both icons |
| Navigator.GridIconsMatchCounts | client/src/components/QuestionNavigator.tsx:98-103 | Away from the current cell, the warning icon shows exactly for marked answers, and some icon shows exactly for answered or marked ones |
| Navigator.SelectCell | client/src/components/QuestionNavigator.tsx:24-27 | Choosing a cell sets the session index to it, changes nothing else, and closes the navigator |
| Navigator.SelectThenReopen | client/src/components/QuestionNavigator.tsx:24-27 | After choosing a cell, the answers are unchanged and reopening shows that cell as current |
| CsvLine.Split | server/csv-parser.ts:149 | Splitting gives at least one piece and no piece holds the separator |
| CsvLine.SplitJoin | server/csv-parser.ts:149 | Joining the pieces with the separator gives back the text |
| CsvLine.JoinSplit | server/csv-parser.ts:149 | Pieces free of the separator split back from their join |
| CsvLine.SplitLines | server/csv-parser.ts:149 | One line per newline-separated piece, none holding a newline |
| CsvLine.LineEndings | server/csv-parser.ts:149 | Lines joined with "\n" or with "\r\n" read back as the same lines |
| CsvLine.NonBlank | server/csv-parser.ts:149 | The kept lines are exactly the lines that are not all white space |
| CsvLine.NonBlankKeepsAll | server/csv-parser.ts:149 | When no line is blank, all lines are kept in order |
| CsvLine.NonBlankAppend | server/csv-parser.ts:149 | The filter of a concatenation is the concatenation of the filters: order and repeats are kept |
| CsvLine.NonBlankOne | server/csv-parser.ts:149 | One line is kept exactly when it is not all white space |
| CsvLine.NonBlankOfBlank | server/csv-parser.ts:149 | Only blank lines leave nothing |
| CsvLine.NonBlankHead | server/csv-parser.ts:149-173 | The first kept line, which the header is read from, is the first line that is not blank |
| CsvLine.ParseLine | server/csv-parser.ts:153-171 | A line gives at least one field; fields hold no quote and are trimmed |
| CsvLine.ParseLineCount | server/csv-parser.ts:153-171 | The field count is one more than the number of commas outside quotes |
| CsvLine.ScanCounts | server/csv-parser.ts:158-168 | After any prefix, the fields closed so far are the unquoted commas and quoted mode is on exactly after an odd number of quotes |
| CsvLine.QuotedLineRoundTrip | server/csv-parser.ts:153-171 | Fields without quotes or surrounding white space, written quoted and comma-separated, read back unchanged |
| CsvParser.RowUpTo | server/csv-parser.ts:180-182 | The row's keys are exactly the headers assigned so far |
| CsvParser.LastHeaderWins | server/csv-parser.ts:180-182 | A column holds the cell of the last header with its name, "" when the line is short |
| CsvParser.Record | server/csv-parser.ts:176-185 | With distinct headers, each header maps to the cell in its column |
| CsvParser.RowFromRecord | server/csv-parser.ts:176-185 | With distinct headers, assigning cells one by one builds that record |
| CsvParser.Headers | server/csv-parser.ts:173 | One lower-cased column name per field of the first line |
| CsvParser.Rows | server/csv-parser.ts:150-187 | No rows for fewer than two lines, otherwise one row per later line |
| CsvParser.RowKeys | server/csv-parser.ts:176-185 | Every row has exactly the header names as keys, however many cells its line has |
| CsvParser.ParseCSV | server/csv-parser.ts:148-188 | The row count is zero with fewer than two non-blank lines, otherwise one less than their number |
| CsvParser.ParseCSVRoundTrip | server/csv-parser.ts:148-188 | A table with distinct lower-case headers and clean cells, written as CSV, reads back as one record per row |
| CsvImport.ToBilingual | server/csv-parser.ts:4-9 | The English side is the text; the Arabic side is the given one, or "[AR] " plus the text when empty |
| CsvImport.ParseCorrectAnswer | server/csv-parser.ts:11-19 | Any parsed answer is an option index in 0..3 |
| CsvImport.ParseCorrectAnswerIff | server/csv-parser.ts:11-19 | The answer parses to index i exactly when, upper-cased and trimmed, it is the i-th letter of A..D |
| CsvImport.LetterRoundTrip | server/csv-parser.ts:11-19 | Each letter, bare or lower-case with surrounding spaces, parses to its index |
| CsvImport.ParseAnswerList | server/csv-parser.ts:21-36 | Every parsed answer is an option index in 0..3 |
| CsvImport.Tokens | server/csv-parser.ts:26-27 | The tokens are non-empty, contain no separator, and are no more than the characters of the text |
| CsvImport.TokensAroundSeparator | server/csv-parser.ts:26-27 | For any text, a separator splits the tokens into those before it followed by those after it |
| CsvImport.TokensOfWord | server/csv-parser.ts:26-27 | A non-empty text without separators is exactly one token |
| CsvImport.IndicesAppend | server/csv-parser.ts:29-34 | The letter filter of concatenated tokens is the concatenation of the filters |
| CsvImport.IndicesOne | server/csv-parser.ts:29-34 | A token gives its index when it is A, B, C or D, and nothing otherwise |
| CsvImport.LettersAroundSeparator | server/csv-parser.ts:21-36 | For any text, the letters read across a separator are the letters before it followed by those after it, so order and repeats are kept |
| CsvImport.LettersOfWord | server/csv-parser.ts:21-36 | A word between separators gives its index when it is one of the four letters, and nothing otherwise |
| CsvImport.AnswerListRoundTrip | server/csv-parser.ts:21-36 | Any list of indices written as letters separated by ", " parses back to itself, order and repeats kept |
| CsvImport.ParseInt | server/csv-parser.ts:108-109 | `parseInt` gives a number or NaN, never a missing value |
| CsvImport.ParseIntNumeral | server/csv-parser.ts:108-109 | A decimal numeral, possibly with a trailing non-digit, reads as its value, and with a minus sign as its negation |
| CsvImport.CsvToQuestion | server/csv-parser.ts:38-118 | A produced question has the given id |
| CsvImport.CsvToQuestionFacts | server/csv-parser.ts:43-112 | Null exactly for a non-"single" type with fewer than two listed answers. Otherwise: 4 options; single exactly for type "single"; a single key defaulting to 0; the multiple key list as parsed; well formed (for multiple, exactly when its limits are); texts with their fallbacks, as `{en, ar}` pairs the string-typed schema rejects |
| CsvImport.CsvToExam | server/csv-parser.ts:120-146 | The exam has the given id, duration 230, the title as bilingual text and the given description or "Exam with N questions" |
| CsvImport.ImportedQuestionFromRow | server/csv-parser.ts:128-137 | Each imported question comes from the row at its id (1-based), a row with question text, converted with that id |
| CsvImport.ImportedIdsRise | server/csv-parser.ts:128-137 | Imported ids strictly increase |
| CsvImport.ConvertedRowImported | server/csv-parser.ts:128-137 | Every row with question text whose conversion succeeds is in the exam |
| CsvImport.AllSingleRowsKept | server/csv-parser.ts:128-137 | When every row has text and type "single", every row is imported with ids 1..n |
| CsvImport.ImportedQuestionShape | server/csv-parser.ts:52-112 | Every imported question has 4 options; a single key is in 0..3; a multiple key list has at least two entries in 0..3 |
| ResultsStore.SaveResult | server/results-storage.ts:28-40 | The stored record is the payload plus the fresh id |
| ResultsStore.SaveResultInjective | server/results-storage.ts:29-30 | Two saved records are equal exactly when payloads and ids are |
| ResultsStore.ReadAll | server/results-storage.ts:45-59 | At most one record per file |
| ResultsStore.ReadAllMember | server/results-storage.ts:45-59 | A record is read exactly when some readable `.json` file holds it |
| ResultsStore.ReadAllCount | server/results-storage.ts:45-59 | As many records are read as there are readable `.json` files |
| ResultsStore.SortByTime | server/results-storage.ts:62 | The sorted records are newest first and a permutation of the input |
| ResultsStore.SliceIndex | server/results-storage.ts:68 | A slice bound inside the list is kept and one past its end is clamped to the length |
| ResultsStore.Slice | server/results-storage.ts:68 | A slice holds the records from the clamped start up to the clamped end, in order, and is empty when the end is not after the start |
| ResultsStore.Page | server/results-storage.ts:66-68 | A page holds only records of the list and never more of them than the list has |
| ResultsStore.PageWindow | server/results-storage.ts:65-68 | Page p is the window from (p−1)·s to p·s clipped to the list, at most s records |
| ResultsStore.PagePosition | server/results-storage.ts:65-68 | Record i is at position i mod s of page i div s + 1 |
| ResultsStore.PagePastEnd | server/results-storage.ts:65-68 | A page starting at or past the end is empty |
| ResultsStore.GetResults | server/results-storage.ts:71-74 | An unreadable directory gives no records and total 0 |
| ResultsStore.GetResultsFacts | server/results-storage.ts:42-70 | The total counts all readable records whatever the page; a page holds at most s records, newest first, all read from the files |
| ResultsStore.GetResultsPage | server/results-storage.ts:62-68 | The page is the p-th window of the newest-first list |
| ResultsStore.EveryRecordListed | server/results-storage.ts:62-68 | Every readable record appears on some page |
| ExamHistory.TotalPagesIsCeiling | client/src/components/ExamHistory.tsx:33 | The page count is the least number of pages of the page size that holds all records |
| ExamHistory.TotalPages | client/src/components/ExamHistory.tsx:33 | There are never more pages than records, and at least one page when there is a record |
| ExamHistory.BadgeOf | client/src/components/ExamHistory.tsx:46-50 | Default from 70, secondary from 50 below 70, destructive below 50 or for NaN |
| ExamHistory.BadgeMonotone | client/src/components/ExamHistory.tsx:46-50 | A higher percentage never gets a worse badge |
| ExamHistory.ViewOf | client/src/components/ExamHistory.tsx:52-70 | Loading shows first, then the empty message when there are no records, else the table |
| ExamHistory.PagerShown | client/src/components/ExamHistory.tsx:116 | The pager shows exactly with the table and more than one page |
| ExamHistory.PagerOf | client/src/components/ExamHistory.tsx:122-139 | Prev asks for page−1 and is disabled on page 1; next asks for page+1 and is disabled on the last page |
| ExamHistory.PagerStaysInRange | client/src/components/ExamHistory.tsx:122-139 | From a page in range, an enabled button asks for a page in range |
| ExamHistory.PagesMatchStore | client/src/components/ExamHistory.tsx:33 | With the store's total, every page the pager can reach has records and the page after the last is empty |
| AdminSchema.Utf16Length | shared/admin-schema.ts:4-5 | The code-unit length is between the character count and twice it |
| AdminSchema.ParseLogin | shared/admin-schema.ts:3-6 | A parsed login has a username of at least 3 and a password of at least 6 code units, taken from the object; a failure names only the offending keys |
| AdminSchema.LoginRoundTrip | shared/admin-schema.ts:3-6 | A login object parses back to its login exactly when the login is valid, and fails otherwise |
| AdminSchema.LoginIssues | shared/admin-schema.ts:4-5 | A failed parse names the username exactly when it is missing or too short, and likewise the password |
| AdminSchema.AstralUsername | shared/admin-schema.ts:4 | Two astral characters count as four code units and pass the minimum of 3 |
| AdminSchema.TypeField | shared/admin-schema.ts:16 | A missing type defaults to single; a present one is accepted exactly when it is "single" or "multiple" |
| AdminSchema.ParseCsvQuestion | shared/admin-schema.ts:14-28 | A CSV question parses exactly when every field check passes, and a failure names the failing keys |
| AdminSchema.CsvQuestionRoundTrip | shared/admin-schema.ts:14-28 | Every CSV question, written as an object, parses back to itself |
| AdminSchema.CsvDefaults | shared/admin-schema.ts:16-27 | A parsed question without type is single and without domain is in "General" |
| AdminSchema.CsvRequiredKeys | shared/admin-schema.ts:15-20 | A missing id, question or option A-C fails and names that key; a type other than single or multiple fails and names the type |
| PdfConverter.Score | scripts/convertPdfToExam.ts:277-292 | A domain score is at most the number of its keywords |
| PdfConverter.ScoreCountsMatches | scripts/convertPdfToExam.ts:282-292 | A domain score is the number of its keywords that occur in the text |
| PdfConverter.ClassifyDomain | scripts/convertPdfToExam.ts:250-302 | The result is one of the three fixed domain pairs |
| PdfConverter.ClassifyDomainIff | scripts/convertPdfToExam.ts:294-301 | People exactly when its score beats both others, Business likewise, Process otherwise |
| PdfConverter.NoKeywordIsProcess | scripts/convertPdfToExam.ts:294-301 | Text without People or Business keywords is Process |
| PdfConverter.EmptyTextIsProcess | scripts/convertPdfToExam.ts:294-301 | Empty text is Process |
| PdfConverter.KeepValid | scripts/convertPdfToExam.ts:225 | The kept answers are all below 4, no more than the input |
| PdfConverter.KeepValidCounts | scripts/convertPdfToExam.ts:225 | Each index below 4 is kept as often as it occurs, and no other is kept |
| PdfConverter.CapOptions | scripts/convertPdfToExam.ts:224 | The first min(n, 4) options |
| PdfConverter.RefineAsWritten | scripts/convertPdfToExam.ts:211-239 | A kept block changes only options (capped), answers (non-empty) and the multiple flag (flagged or more than one answer) |
| PdfConverter.RefineAsWrittenIff | scripts/convertPdfToExam.ts:211-230 | As written, a block is dropped exactly when it is flagged multiple with fewer than 2 answers or has no answer below 4 after the fallback; the kept answers are the filtered ones |
| PdfConverter.Refine | scripts/convertPdfToExam.ts:211-239 | The corrected rules also guarantee a multiple question keeps at least two answers |
| PdfConverter.RefineAgreesElsewhere | scripts/convertPdfToExam.ts:217-230 | The corrected and as-written rules agree on every block whose answers do not drop below two only through the filter |
| PdfConverter.AssembleOne | scripts/convertPdfToExam.ts:326-350 | An assembled question has the id, variant from the flag, "[AR] " placeholder texts and the classified domain; a multiple one keeps its block's answers when there are two or more and gets `[0, 1]` otherwise, with minimum 2 and maximum the option count; a single one gets the block's first answer, or 0 when there is none |
| PdfConverter.Convert | scripts/convertPdfToExam.ts:212-356 | With the rules as written, at most one question per block, numbered 1..n |
| PdfConverter.ConvertCorrected | scripts/convertPdfToExam.ts:212-356 | With the two-answer check made after the filter, at most one question per block, numbered 1..n |
| PdfConverter.ConvertedAnswersAreReal | scripts/convertPdfToExam.ts:217-230 | Under the corrected rules, each converted question carries the answers its block kept, and a multiple-answer one has at least two |
| PdfConverter.WithFallback | scripts/convertPdfToExam.ts:212-215 | The answers are empty exactly when a multiple-answer block has none; a block with answers keeps them, and a single-answer block without any gets option A |
| PdfConverter.SurvivorsIff | scripts/convertPdfToExam.ts:217-239 | A block is among the survivors exactly when the rules keep some input block as it |
| PdfConverter.Assemble | scripts/convertPdfToExam.ts:315-327 | One question per kept block, with ids 1..n in order |
| PdfConverter.AssembledAnswersAreReal | scripts/convertPdfToExam.ts:344-350 | Under the corrected rules, assembled keys are exactly the block's filtered answers, never the fallback |
| PdfConverter.AssembledValidIff | scripts/convertPdfToExam.ts:326-350 | Under the corrected rules, an assembled question is well formed exactly when the block had at least 4 options. Its texts are `{en, ar}` pairs, so the string-typed schema never accepts it |
| PdfConverter.InventedAnswersAsWritten | scripts/convertPdfToExam.ts:217-230 | A block the extractor can produce (options a-e, flagged multiple, answers [2, 4], each an extracted option) is kept with answer [2] and converted into a question with keys [0, 1]; the corrected conversion skips it |
| Sequences.SortedEqualIffSameMultiset | client/src/pages/ResultsPage.tsx:100-104 | Two lists sort to the same list exactly when they have the same multiset |
| Grouping.TallyCovers | client/src/pages/ResultsPage.tsx:107-113 | The first-occurrence tally has an entry for every key |
| Grouping.TallyOrder | client/src/pages/ResultsPage.tsx:143-150 | Tally entries come in first-occurrence order |

## Left out

- React rendering, hooks, toasts, routing and translation dictionaries. The model keeps the state and the values shown, not the markup.
- File-system reads and writes, `sessionStorage`, `fetch`, `setInterval`, `Date.now()` and `randomUUID()`. They are inputs or parameters, as described above.
- Floating-point rounding in the unrounded submit percentages. They are exact reals.
- Regex and PDF text extraction, the OpenAI client and the answer matching heuristics (scripts/convertPdfToExam.ts lines 34-209). The model starts from the extracted blocks. The translation placeholder (lines 245-248) is the fixed "[AR] " prefix.
- The summary printout and file write of the PDF converter (lines 358-393). They are console output.
- `adminSessionSchema` (shared/admin-schema.ts lines 8-12). It is three plain typed fields and no code validates with it.
- HTTP routes, authentication, admin credential storage, the exam generator scripts and the exam validation script. They are transport, crypto calls or console reports.
- CsvImport.ParseInt: digits beyond the precision of a double are not rounded; the value is the exact integer.
- ResultsStore.SortByTime: stability of the sort is not proved; the contract states only newest-first order and permutation.
- Result files with a non-numeric or missing `timestamp`. Every record has an integer timestamp.
- ExamHistory.TotalPages: requires a page size of at least 1. The component's caller passes a positive constant, and a zero size would give an infinite page count.
- ResultsPage.Score, ResultsPage.Flags and Navigator.Grid: require at least as many answers as questions. With fewer, the page and the navigator read a property of `undefined` and throw.
- ResultsPage.RoundPercent: rounds the exact ratio, halves up. The page rounds the double product `(c / t) * 100`, which can fall just below a half: for 23 of 40 the page shows 57 and the model 58. ResultsPage.DomainResults and ResultsPage.PageDomainResults inherit this. `ResultsPage.PassedIff` states the pass rule on the exact ratio; whether the double arithmetic can move an exact 60.5 below the mark is not modelled.
- Schema.WellFormed: ids, keys and limits are integers. `z.number()` also accepts fractions such as a `correctAnswer` of 1.5, which no question in the model holds.
- The results page's markup. Line 239 of client/src/pages/ResultsPage.tsx passes `domain.domain` to React as a child; for a bilingual domain that is an object, which React refuses with an error. The model stops at the computed results.

## Findings

| source | as written | input that shows it | evidently intended | confidence | as-written member | corrected member |
|---|---|---|---|---|---|---|
| server/storage.ts:62-96 | One `try` wraps the whole loop over files, so the first unreadable `.json` file aborts the lookup and returns null | files `a.json` (broken) then `b.json` with id "b": the listing shows "b" but `getExam("b")` is null | skip a broken file, as `getAllExams` does, and go on to later files | medium, not executed | ExamStore.GetExamMissesListedExam | ExamStore.ListedExamIsFound |
| client/src/pages/ResultsPage.tsx:88-113 | Domain stats go in a `Map` keyed by `question.domain`; bilingual domains are objects, so each question's domain is its own key | two questions whose domains are equal `{en, ar}` objects give two domain entries of one question each; the defect is latent, since GET /api/exams/:id (server/routes.ts:27-46) answers 500 for an exam with `{en, ar}` texts, so no such exam reaches the page | group questions by domain value | low, latent, not executed | ResultsPage.SharedBilingualDomainSplits | ResultsPage.ScoreDomainsCover |
| scripts/convertPdfToExam.ts:217-230 | The "fewer than 2 answers" check runs before answers of 4 and above are filtered out; assembly then replaces a short list with `[0, 1]` | a block with options a-e flagged multiple with answers [2, 4]: it keeps [2] and is written with keys [0, 1] | check the answer count after the filter, so a multiple question keeps only extracted keys | medium, not executed | PdfConverter.InventedAnswersAsWritten | PdfConverter.ConvertedAnswersAreReal |
