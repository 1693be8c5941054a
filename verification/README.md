# School control: grading engine and exam logistics in Dafny

This project models the rule-heavy core of a school "control" application (a
React/TypeScript app that records term scores for grades 1 to 12, decides
pass or second-round retake, ranks students and prepares exam seating). It
covers:

- the level classifier `getLevel` with its default 90 / 80 / 65 / 50 / 0 scale,
  and the Islamic-studies exemption of Christian students (`logic/grading.ts`);
- `calculateStudentStatus`: the per-term status with its precedence
  (whole-term absence, then component absence, then the pass threshold),
  the six-way subject status, the term percentages over non-exempt subjects,
  and the final percentage, decision and level;
- the reports page (`pages/Reports.tsx`): the term-specific status, the
  failure details, the tie-sharing rank and its ordinal label, the
  all / top-ten / failed views and the statistics;
- the control page (`pages/Control.tsx`): the seat-ordered student list of a
  grade, its split into committees, seat numbering, the committee-size clamp
  and the print-request guard;
- the score-entry page (`pages/Grades.tsx`): input sanitising, the grade
  upsert and the absence toggles on the record list keyed by (student,
  subject, term), the over-maximum check, the per-level histogram and the
  per-row display arithmetic.

Records are immutable datatypes (`types.dfy`), JavaScript numbers are
`real`, optional fields are `Option<T>`, and JavaScript's stable
`Array.prototype.sort` with a subtracting comparator is one generic stable
insertion sort by a real key (`sorting.dfy`; a descending sort is an
ascending sort by the negated key). The generic array helpers (`filter`,
`find`, `findIndex`, `filter(...).length`) are in `util.dfy`, and the string
helpers (`includes`, decimal rendering of an integer) in `text.dfy`.

Where the declared types and the engine disagree, the model follows the
engine: `Subject.passPercentage` is declared as a required number in
`types.ts`, but the engine reads it as `passPercentage ?? 50`, so the model
makes it optional and keeps the fallback.

## Model

| member | source | states |
|---|---|---|
| Types.GradesAreTwelveDistinctLabels | types.ts:2-15 | `Grade` has exactly twelve values, every value is listed, and their labels are pairwise distinct |
| Types.FindRecordIndex | pages/Grades.tsx:114 | the lookup returns the first index whose record has the (student, subject, term) key, and -1 exactly when no record has it |
| Util.Filter | pages/Grades.tsx:42-44 | a filtered list keeps only passing elements and its length is the number of passing elements |
| Util.Find | logic/grading.ts:61-64 | a found element is in the list and passes; nothing found means no element passes |
| Util.FindIndex | pages/Reports.tsx:92-95 | the index found is the first passing one; -1 means no element passes |
| Text.ContainsIffOccurs | logic/grading.ts:45 | `name.includes(keyword)` holds exactly when the keyword occurs at some position of the name |
| Text.IntToDecimalRoundTrip | pages/Reports.tsx:22 | the decimal numeral of an integer reads back as that integer |
| Text.IntToDecimalInjective | pages/Reports.tsx:22 | different integers get different numerals |
| Text.NumeralRoundTrip | pages/Reports.tsx:22 | a numeral is canonical (optional `-`, digits, no leading zero, no `-0`) exactly when it is the rendering of the integer it denotes: every canonical numeral is produced, and only canonical ones |
| Sorting.SortPermutes | pages/Control.tsx:59 | sorting keeps exactly the elements of its input, with their multiplicities |
| Sorting.SortSorts | logic/grading.ts:36 | the sorted list is in ascending key order |
| Sorting.SortStable | pages/Reports.tsx:84-88 | elements with equal keys keep their input order |
| Sorting.SortedPrefixKeepsEarliest | pages/Reports.tsx:84-88 | cutting the sorted list after m elements keeps, of each equal-key group, a prefix of that group in input order |
| Sorting.StableSortIsUnique | pages/Reports.tsx:84-88 | any sorted list with the same equal-key groups as the input is the sorted list, so the result does not depend on which stable sort the platform runs |
| Sorting.SortedPrefix | pages/Reports.tsx:106-107 | a prefix of the sorted list is sorted, drawn from the input, and no element left out has a smaller key than an element kept |
| Levels.ActiveScale | logic/grading.ts:34 | the scale in use is the subject's own scale when it has tiers, else the default scale; it is never empty |
| Levels.Percentage | logic/grading.ts:97 | percentage times maximum is 100 times the score for a positive maximum, it lies in 0..100 when 0 <= score <= maximum, and it is 0 for a non-positive maximum |
| Levels.GetLevel | logic/grading.ts:31-40 | the `'---'` sentinel is returned exactly when the maximum is not positive; which tier is chosen otherwise is stated by `Levels.GetLevelPicksHighestReachedTier` |
| Levels.GetLevelNoMaximum | logic/grading.ts:32 | a non-positive maximum gives the `'---'` sentinel whatever the score and scale |
| Levels.GetLevelPicksHighestReachedTier | logic/grading.ts:31-40 | for a positive maximum the level is the reached tier with the largest minimum, the earliest in the scale on a tie, and `'غير محدد'` exactly when every minimum is above the percentage |
| Levels.PickTierIsHighest | logic/grading.ts:36-39 | the descending sort followed by the first reached tier selects the highest reached tier, ties broken by scale order |
| Levels.DefaultScaleIsOrdered | logic/grading.ts:23-29 | the default scale is already in descending order, so sorting it changes nothing |
| Levels.DefaultTierIndex | logic/grading.ts:23-29 | a non-negative percentage is reached by exactly one chosen default tier |
| Levels.DefaultTierIsFound | logic/grading.ts:36-37 | on the default scale the search finds the tier `DefaultTierIndex` names |
| Levels.DefaultScaleClassifies | logic/grading.ts:31-39 | with no custom scale, a non-negative score against a positive maximum always gets a default tier, never a sentinel |
| Levels.PercentLevel | logic/grading.ts:149 | `getLevel(p, 100)` of a non-negative percentage is the name of its default tier; a negative percentage reaches no tier and is `غير محدد` |
| Levels.Tally | pages/Grades.tsx:100-104 | counting a name adds one to exactly the bucket with that name, and nothing for a name outside the five default names |
| Exemption.IsIslamicSubject | logic/grading.ts:43-46 | definition: some keyword is contained in the name; characterised by `Exemption.IslamicIffKeywordOccurs` |
| Exemption.IsExempt | logic/grading.ts:59 | definition: the student is Christian and the subject is Islamic; the engine and the entry page both use it (`ScoreEntry.RowExemptIsEngineExemption`) |
| Exemption.IslamicIffKeywordOccurs | logic/grading.ts:43-46 | a subject is Islamic exactly when one of the four keywords occurs in its name |
| Exemption.ThirdKeywordIsRedundant | logic/grading.ts:44 | the third keyword contains the first, so three keywords decide the same thing as four |
| Grading.EvaluateTerm | logic/grading.ts:70-101 | exempt terms are all zero with level `'معفى'`; otherwise whole-term absence gives `absent`, either component flag gives `fail`, else pass iff score >= max * (passPercentage ?? 50) / 100; the score sums the sat components even under whole-term absence; isAbsent iff any flag; the percentage is the score's share of the maximum (`Levels.Percentage`), 0 for a non-positive maximum |
| Grading.AnalyseSubject | logic/grading.ts:59-124 | the two records are the student's first records for the subject and each term, or 0/0 stand-ins, and are evaluated with the student's exemption; exempt iff the student is exempt; otherwise any of the six flags gives `fail_absent`, else the two term scores against the threshold give `pass` / `fail_t1` / `fail_t2` / `fail_both`; the total is the mean of the two term scores, 0 when exempt |
| Grading.TermPercentage | logic/grading.ts:131-141 | the non-exempt score sum as a percentage of the non-exempt maximum sum, 0 when that sum is not positive |
| Grading.CalculateStudentStatus | logic/grading.ts:48-167 | row k of the subject list and of both term lists is subject k's analysis over the student's own records; each term percentage is that term's non-exempt percentage; the decision is never `راسب`, and is `ناجح` iff no subject fails; the final percentage is the mean of the two term percentages; the final level is that percentage's default-scale level |
| Grading.ReportRowsFollowSubjects | logic/grading.ts:103-106 | row k of the subject list and of both term lists belongs to subject k, and is exempt exactly when the student is exempt from it |
| Grading.ReportUsesFirstRecords | logic/grading.ts:53-64 | the records a report shows for a subject are the first records of the whole grade list with the student's id, the subject's id and each term, or 0/0 stand-ins with no flag |
| Grading.TermRecordIsFirstMatch | logic/grading.ts:61-64 | the record a term uses is the first stored record with that key, or a 0/0 record with no flags |
| Grading.MissingRecordScoresZero | logic/grading.ts:61-64 | a missing record scores 0, is not absent, and passes only when the threshold is not positive |
| Grading.ExemptEntryIsNeutral | logic/grading.ts:131-141 | an exempt entry anywhere in the list leaves the term percentage unchanged |
| Grading.ExemptSubjectIsNeutral | logic/grading.ts:131-149 | adding a subject the student is exempt from changes neither term percentage nor the final percentage, level or decision |
| Grading.NonNegativeScoresGetDefaultTier | logic/grading.ts:143-149 | with no negative raw score the final percentage is non-negative and the final level is one of the five default tier names |
| Grading.HalfMarkIsInclusive | logic/grading.ts:66-90 | with the default 50% pass mark (missing or 50), a term with no absence passes exactly when its score is at least half the maximum, and fails exactly when it is below |
| Reports.GradeReports | pages/Reports.tsx:49-56 | report k is `calculateStudentStatus` of the grade's k-th student, in list order, against the grade's subjects; there is one report per student of the grade |
| Reports.RankText | pages/Reports.tsx:20-23 | ranks 1 to 10 get the ten ordinal words in order; any other rank gets a canonical decimal numeral that denotes the rank |
| Reports.RankTextIsInjective | pages/Reports.tsx:20-23 | different ranks never share a label |
| Reports.FailureOf | pages/Reports.tsx:64-68 | a subject row contributes a failure entry exactly when its status is one of the four failing ones, under the subject's name; `fail_t1`, `fail_t2`, `fail_both` and `fail_absent` get the tags t1, t2, both and absent, one-to-one, and each tag its reason text (`فصل أول`, `فصل ثاني`, `الفصلين`, `غياب`) |
| Reports.FailureDetails | pages/Reports.tsx:64-69 | there is one failure entry per failing subject |
| Reports.FailureDetailsFollowFailedSubjects | pages/Reports.tsx:64-69 | entry k describes the k-th failing subject, in subject order, with its reason and tag |
| Reports.NoFailureDetailsIffPassed | pages/Reports.tsx:64-69 | a report has no failure entry exactly when its decision is `ناجح` |
| Reports.TermSpecificStatus | pages/Reports.tsx:71-79 | a term view is `ناجح` iff no result of that term is `fail` or `absent`; the final view copies the decision |
| Reports.SubjectPassIffTermsPass | logic/grading.ts:108-122 | a subject does not fail exactly when neither term is `fail` or `absent` |
| Reports.FinalPassIffBothTermsPass | pages/Reports.tsx:71-79 | the final decision is `ناجح` exactly when both term views are `ناجح` |
| Reports.TermProcessedResults | pages/Reports.tsx:58-98 | ranking keeps the length and order of the results, changes only rank and rank label, and the label is the rank's text |
| Reports.RankIsOnePlusNumberAbove | pages/Reports.tsx:84-97 | a result's rank is one plus the number of results with a strictly greater selected percentage |
| Reports.RankIsBetweenOneAndCount | pages/Reports.tsx:90-97 | every rank lies between 1 and the number of results |
| Reports.RankOrdersByPercentage | pages/Reports.tsx:90-97 | equal percentages share a rank and a strictly greater percentage gets a strictly smaller rank |
| Reports.SomeoneRanksFirst | pages/Reports.tsx:84-97 | a non-empty list has a result ranked 1 |
| Reports.FilteredResults | pages/Reports.tsx:100-112 | 'all' is unchanged; 'top' holds min(10, passed) results; 'failed' holds exactly the `دور ثاني` results, in list order (the order-preserving filter) |
| Reports.TopTenShowsBestPassed | pages/Reports.tsx:103-107 | the top view holds passed results only, in ascending rank, and no passed result left out ranks before one shown |
| Reports.TopTenKeepsEarliestAmongTies | pages/Reports.tsx:103-107 | among passed results sharing a rank, the ones shown are the earliest in list order; with `StableSortIsUnique` this pins the top view down to one list |
| Reports.StatBucket | pages/Reports.tsx:119-127 | the hard-coded ladder always names a default tier, the one `DefaultTierIndex` gives for a non-negative percentage, and `ضعيف` for a negative one |
| Reports.StatBucketAgreesWithGetLevel | pages/Reports.tsx:121-125 | for a non-negative percentage the ladder agrees with `getLevel(percent, 100)` |
| Reports.StatBucketDisagreesBelowZero | pages/Reports.tsx:121-125 | below zero they disagree: the ladder says `ضعيف` where `getLevel(percent, 100)` says `غير محدد` |
| Reports.BucketCounts | pages/Reports.tsx:118-127 | the five level counts add up to the number of results |
| Reports.BucketCountsByBand | pages/Reports.tsx:118-127 | each level count is the number of results whose percentage falls in that band |
| Reports.PassRate | pages/Reports.tsx:129 | 0 for an empty cohort; otherwise rate times total is 100 times passed, within 0..100 |
| Reports.StatsData | pages/Reports.tsx:114-130 | total is the number of results, passed the number marked `ناجح`, failed the rest; the level counts are the per-band counts of the selected percentage; the pass rate is `Reports.PassRate` of passed over total, hence within 0..100 |
| Reports.StatsCountNonPassedAsFailed | pages/Reports.tsx:115-116 | the failed count is the number of results not marked `ناجح` |
| Control.GradeStudents | pages/Control.tsx:56-61 | the list has one entry per student of the grade and is ascending by seat number (missing read as 0); its contents and tie order are stated by the next three lemmas |
| Control.GradeStudentsAreSortedGradeMembers | pages/Control.tsx:56-61 | the list is a permutation of the grade's students, ascending by seat number with a missing number read as 0 |
| Control.GradeStudentsAreStable | pages/Control.tsx:56-61 | students with equal seat numbers keep their order in the student list |
| Control.GradeStudentsIsTheStableOrder | pages/Control.tsx:59 | any seat-ordered list of the grade's students that keeps equal numbers in list order is this list |
| Control.Committees | pages/Control.tsx:63-69 | the chunks concatenate back to the list, each is non-empty and at most `size`, all but the last have exactly `size`, and there are ceil(n / size) of them |
| Control.ClampCommitteeSize | pages/Control.tsx:147 | the size is at least 1: an entry of 1 or more is kept, anything else (unparsable, 0, negative) becomes 1 |
| Control.AssignSeats | pages/Control.tsx:71-83 | numbering keeps the list's length; what each student gets, and that only the grade's students change and only in their seat number, is stated per index by `Control.AssignSeatsClosedForm` |
| Control.AssignSeatsClosedForm | pages/Control.tsx:71-79 | student k of the grade gets start plus the number of grade students before it; only that student's seat number changes, and students of other grades are untouched |
| Control.AssignSeatsNumbersConsecutively | pages/Control.tsx:71-79 | read in list order, the grade's students hold exactly the numbers start, start + 1, ..., start + count - 1 |
| Control.AssignSeatsIsIdempotent | pages/Control.tsx:71-79 | numbering again from the same start gives the same list |
| Control.HandlePrintRequest | pages/Control.tsx:85-91 | a request is refused, leaving the print type as it was, exactly when the grade has no students and the job is not the minutes sheet |
| Control.PrintRequestsOutcome | pages/Control.tsx:85-91 | over any run of requests, a grade without students ends on the minutes sheet if it was ever asked for and otherwise keeps its print type; a grade with students ends on the last request; asking again for the job just reached changes nothing |
| ScoreEntry.Sanitize | pages/Grades.tsx:110 | the sanitised value holds only digits and dots |
| ScoreEntry.SanitizeKeepsDigitsAndDots | pages/Grades.tsx:110 | the characters that survive are exactly the input's digits and dots (as a set), and sanitising twice changes nothing |
| ScoreEntry.SanitizeKeepsOrder | pages/Grades.tsx:110 | sanitising distributes over concatenation and keeps a single character exactly when it is a digit or a dot, so every kept character survives once, in input order |
| ScoreEntry.EnteredNumber | pages/Grades.tsx:110-111 | an input with no digit or dot reads as 0; otherwise the sanitised text is parsed |
| ScoreEntry.Apply | pages/Grades.tsx:115-141 | editing keeps the key; a score edit changes only that score; a flag edit flips only that flag and keeps the scores |
| ScoreEntry.Fresh | pages/Grades.tsx:118-151 | a new record carries the key; a score edit gives the other score 0 and no flag set; a flag edit gives 0 / 0 with only that flag set |
| ScoreEntry.Upsert | pages/Grades.tsx:113-129 | the first record with the key is edited in place, or one record is appended when none has it; every other record stays where it was, unchanged |
| ScoreEntry.HandleGradeChange | pages/Grades.tsx:109-131 | afterwards the key's record has the edited score, and otherwise reads as before (or as the 0 / 0 stand-in); the list grows only when the key had no record; every other record stays where it was, unchanged |
| ScoreEntry.ToggleFieldAbsent | pages/Grades.tsx:133-154 | afterwards the key's record has the chosen flag flipped and the scores and other flags of before (or of the 0 / 0 stand-in); every other record stays where it was, unchanged |
| ScoreEntry.UpsertReadsBack | pages/Grades.tsx:113-129 | after an edit the lookup of the key finds the edited record, or the fresh one |
| ScoreEntry.UpsertLeavesOtherKeys | pages/Grades.tsx:113-129 | an edit does not change what any other key looks up |
| ScoreEntry.UpsertKeepsTriplesUnique | pages/Grades.tsx:113-129 | a list with at most one record per key keeps that property |
| ScoreEntry.ToggleTwiceRestores | pages/Grades.tsx:133-154 | toggling the same flag twice leaves every existing record reading as before, and a record created by the first toggle reads like no record |
| ScoreEntry.SameMeaningSameEvaluation | logic/grading.ts:70-101 | records that read the same are evaluated the same by the engine |
| ScoreEntry.RowExemptIsEngineExemption | pages/Grades.tsx:273 | a row is exempt on the page exactly when the engine exempts the student from the subject |
| ScoreEntry.HasErrors | pages/Grades.tsx:156-168 | definition: with a subject selected, some non-exempt row of the grade has a record, not absent for the whole term, with a sat component above its maximum; related to the row flags by `ScoreEntry.HasErrorsIffSomeRowFlagged` |
| ScoreEntry.HasErrorsIffSomeRowFlagged | pages/Grades.tsx:156-168 | for non-negative maxima, the error flag is raised exactly when some row of the grade shows an over-maximum mark |
| ScoreEntry.LevelStats | pages/Grades.tsx:80-107 | no subject gives all-zero counts, and the counts never exceed the number of students in the grade |
| ScoreEntry.TallyRows | pages/Grades.tsx:84-104 | the counts never exceed the number of rows |
| ScoreEntry.LevelStatsCountsCountedRows | pages/Grades.tsx:84-104 | the histogram counts exactly the non-exempt rows with a record that is not whole-term absent and whose level is a default tier name |
| ScoreEntry.LevelStatsByLevel | pages/Grades.tsx:84-104 | each bucket counts the counted rows whose level is that tier |
| ScoreEntry.RowLevelIsEngineLevel | pages/Grades.tsx:92-98 | a counted row gets the level the engine gives that term |
| ScoreEntry.DisplayRow | pages/Grades.tsx:272-288 | an exempt row or a row without a record shows 0 / 0; otherwise a component shows its score exactly when neither it nor the whole term is absent, else 0; the total is their sum, the maximum is the subject's, the percentage is the total's share of it, the level is `getLevel` of the total; a component is flagged exactly when the row is not exempt, it was sat and it exceeds its maximum |
| ScoreEntry.DisplayRowVersusEngine | pages/Grades.tsx:280-285 | for a non-exempt row with a record, the row shows the engine's term score and level unless the whole term is absent; under whole-term absence the row shows 0 |

## Left out

- Persistence (`db.ts`: local storage, JSON, backup export and import) is not part of this model; the record lists are parameters.
- The AI analysis call, WhatsApp sharing, QR image URLs and every JSX component are network or presentation.
- The print pipeline of the control page (timers, `window.print`, the `afterprint` listener) and its layouts are timing and DOM; only the refusal guard is modelled.
- The score-entry autosave timer and its save are timing and I/O.
- `parseFloat` is a parameter of `ScoreEntry.EnteredNumber`; the score edits take the parsed number.
- `parseInt` of the committee-size input is left to the caller: `Control.ClampCommitteeSize` takes its outcome as an `Option<int>`, `None` for an unparsable entry. The seat-numbering start value is taken as an already parsed integer.
- IEEE-754 behaviour is not modelled: numbers are exact reals, so there is no NaN, no rounding, and the rank's equality test on percentages is exact.
- `toFixed` display rounding is not modelled; `ScoreEntry.DisplayRow` keeps the exact percentage.
- `retakeCategory` is always `'none'` on the reports page; the model carries that constant.
- `toggleFieldAbsent` flips the flag on the shared record object in place; the model builds a new list with the edited record, which is what every later read sees.
- The `academicYearId` fields of `Student` and `GradeRecord` are not read by the core and are left out.
- Other pages (subjects, students, settings, layout, dashboard, about) are form handling or static UI.
- ScoreEntry.HasErrorsIffSomeRowFlagged: stated for non-negative subject maxima only, because with a negative maximum a row without a record shows an over-maximum mark that `hasErrors` ignores.
- ScoreEntry.DisplayRowVersusEngine: under whole-term absence the row shows 0 while the engine's term score keeps the sat components; the lemma states only the row's side there.
- Control.AssignSeats: its own contract states only the length; the per-student effect is stated per index by `Control.AssignSeatsClosedForm`, which keeps the quantifiers out of the recursive function's contract.
- ScoreEntry.LevelStats: the counts are bounded by the grade's student count, and the exact bucket contents are stated by `ScoreEntry.LevelStatsByLevel` on the row list.
