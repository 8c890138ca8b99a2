# Important Questions — a verified model of the question table

"Important Questions" is a single-page Streamlit app. Students record exam questions they met,
with subject, marks and the years the question appeared. The app keeps one table per session,
`st.session_state.df`. The model covers what the app computes with that table:

- **Seeding** (`Seeding`, `Catalog`). The first run walks a fixed catalog of four subjects with
  eight canonical questions each. Every question gets two or three records. Each record has a
  sample of one to five distinct years from 2018–2023, a status and a mark value. Frequency is
  the number of those years. Records are numbered Q1100, Q1099, … in emission order. The
  pseudo-random draws are an input (`draws`). `DrawsFit` states what `random.randint`,
  `random.sample` and `random.choice` can return.
- **The table and submissions** (`Store`). `QuestionStore` holds the table as a field that its
  methods reassign. The constructor seeds the table and sorts it by Subject, then by Frequency
  descending. `Submit` numbers a new question as `int(max(IDs).replace('Q','')) + 1`, where the
  maximum is taken over the ID strings. It marks the question Pending, puts it in front of the
  table and sorts the whole table again.
- **IDs** (`Ids`). This module covers:
  - Python's `str(int)` and `int(str)`
  - `str.replace('Q', '')`
  - Python's code-point ordering of strings and `max()` over strings
  - the proof that the string maximum is the numeric maximum while every ID has four digits
  - the counterexample once IDs reach five digits
- **Read-only views** (`Analysis`). These are:
  - the subject filter with its sort and its "Total questions" count
  - the Featured and Highly-Repeated counts, and the high-frequency table
  - `predict_appearances`: the first row whose question matches decides, and the result counts
    that row's years within the window of the current year
- **Rows and sort orders** (`Records`). pandas does not fix the order of equal keys. So each
  sort is specified as "sorted by the key, and a permutation of the input". `SortRows` is one
  function that meets that specification.

## Model

| member | source | states |
|---|---|---|
| Ids.Digits | streamlit_app.py:80 | the decimal text of `n`: non-empty, all digits, no leading zero, at least two digits exactly when n >= 10 |
| Ids.IntText | streamlit_app.py:80 | str(n): a '-' for negative n, followed by the decimal digits of abs(n) |
| Ids.IdOf | streamlit_app.py:80 | the ID text f"Q{n}" that lines 80 and 135 write |
| Ids.ParseInt | streamlit_app.py:130 | Python's int() on an optional '-' followed by digits; None stands for the ValueError on anything else |
| Ids.Below | streamlit_app.py:130 | Python's `<` on str, which max() uses: the first differing character decides, and a proper prefix is smaller |
| Ids.NextNumber | streamlit_app.py:130 | int(max(ids).replace('Q', '')) + 1, with None for the error raised by max() on an empty column or by int() on text that is not a number |
| Ids.ParseDigits | streamlit_app.py:130 | parsing digits succeeds exactly on non-empty all-digit text |
| Ids.StripQ | streamlit_app.py:130 | `replace('Q','')` leaves no 'Q' and never lengthens the text |
| Ids.ParseDigitsOfDigits | streamlit_app.py:130 | parsing the digits of `n` gives back `n` |
| Ids.StripQOfQFree | streamlit_app.py:130 | removing 'Q' from text without a 'Q' leaves it unchanged |
| Ids.StripQOfId | streamlit_app.py:130 | removing 'Q' from f"Q{n}" leaves str(n) |
| Ids.ParseIntOfText | streamlit_app.py:130 | int(str(n)) == n for every integer, negative ones included |
| Ids.ParseIntOfDigits | streamlit_app.py:130 | int() of the digits of a non-negative `n` is `n` |
| Ids.ParseIntOfNegative | streamlit_app.py:130 | int() of '-' followed by the digits of `n` is -n |
| Ids.IdRoundTrip | streamlit_app.py:130-135 | reading a number back from its ID the way line 130 does returns the number that line 80 or 135 wrote |
| Ids.IdInjective | streamlit_app.py:135 | two equal IDs come from the same number |
| Ids.DigitsInjective | streamlit_app.py:135 | two equal digit texts come from the same number |
| Ids.BelowIrreflexive | streamlit_app.py:130 | no string is below itself in Python's order |
| Ids.BelowTransitive | streamlit_app.py:130 | Python's string order is transitive |
| Ids.BelowTotal | streamlit_app.py:130 | of two different strings, one is below the other |
| Ids.BelowSnoc | streamlit_app.py:130 | for strings of equal length, appending a character to each orders them by the prefix first, then by that character |
| Ids.SameWidthBelow | streamlit_app.py:130 | digit strings of the same width are ordered exactly as their numbers |
| Ids.SameWidthIdBelow | streamlit_app.py:130 | IDs whose numbers have the same width are ordered exactly as the numbers |
| Ids.MaxText | streamlit_app.py:130 | max() of the ID column is one of the IDs, no ID is above it, and every other ID is below it, so it is the unique greatest ID |
| Ids.Greatest | streamlit_app.py:130 | in Python's total string order, an element that nothing is above is above every other element |
| Ids.MaxBeyond | streamlit_app.py:130 | a string above the running maximum has nothing in the list above it either |
| Ids.NextNumberReorder | streamlit_app.py:130 | the number computed on line 130 depends only on which IDs are present and how often, not on their order |
| Ids.NextNumberOfMax | streamlit_app.py:130 | when the greatest ID is f"Q{n}", the next number is n + 1 |
| Ids.FourDigits | streamlit_app.py:135 | numbers from 1000 to 9999 are written with four digits |
| Ids.FourDigitRange | streamlit_app.py:135 | a number has four digits if and only if it lies in 1000..9999 |
| Ids.AtLeastFiveDigits | streamlit_app.py:135 | numbers from 10000 up have at least five digits |
| Ids.NextNumberSameWidth | streamlit_app.py:130-135 | if all IDs have the same width, the next number is one more than the greatest number in use, the number before it is in use, and its own ID is free |
| Ids.TopNumber | streamlit_app.py:130 | when every ID has the same width, the greatest ID is f"Q{top}" for a number top of that width, and the next number is top + 1 |
| Ids.NumbersUpToTop | streamlit_app.py:130 | when every ID has the same width, no ID in use has a number above the greatest ID's number |
| Ids.WiderIdRepeats | streamlit_app.py:130-135 | for the ID column ["Q9999", "Q10000"], the next ID is Q10000 again, because max() compares strings |
| Ids.NinesStayGreatest | streamlit_app.py:130-135 | for any ID column that holds Q9999 and whose IDs are all f"Q{n}" with n in 1000..10000, max() is "Q9999" and the next number is 10000, so every submission from then on repeats Q10000 |
| Ids.TenThousandBelowNines | streamlit_app.py:130 | "Q10000" is below "Q9999" in Python's string order, and not the other way round |
| Ids.TenThousandId | streamlit_app.py:135 | the ID of 10000 is "Q10000" |
| Ids.WiderIdIsBelow | streamlit_app.py:130 | max(["Q9999", "Q10000"]) is "Q9999" |
| Ids.NinesParse | streamlit_app.py:130 | int("Q9999".replace('Q','')) == 9999 |
| Records.IdListMembers | streamlit_app.py:130 | f"Q{n}" is in the ID column exactly when some row is numbered n |
| Records.IdListAppend | streamlit_app.py:148 | the ID column of two tables stacked together is their two ID columns stacked together |
| Records.IdListPermutation | streamlit_app.py:149 | reordering the rows gives the same ID column values, each as often |
| Records.Precedes | streamlit_app.py:92 | the sort keys: Subject ascending then Frequency descending (lines 92, 149 and 167), or Frequency descending alone (line 164) |
| Records.Sorted | streamlit_app.py:149 | every row may stand before every later row under the key |
| Records.RankIsNameOrder | streamlit_app.py:92 | ordering subjects by rank is ordering their names as Python compares strings |
| Records.Place | streamlit_app.py:149 | placing a row into a sorted table gives a sorted table with exactly one more copy of that row |
| Records.PlaceHead | streamlit_app.py:149 | the head of a sorted table that the new row does not precede may stay in front of the rest |
| Records.SortRows | streamlit_app.py:149 | sort_values returns a table sorted by the key that is a permutation of its input |
| Records.PermutationLength | streamlit_app.py:148-149 | re-sorting the table keeps its length |
| Records.PermutationConsistent | streamlit_app.py:149 | re-sorting keeps every row's Frequency equal to the number of its years |
| Seeding.DrawsFit | streamlit_app.py:75-84 | the draws random can make: 2 or 3 variants per question (line 75), each with 1 to 5 distinct years from range(2018, 2024) (line 78) |
| Seeding.SeedRows | streamlit_app.py:69-88 | the list the nested loop builds from the draws, in emission order |
| Seeding.SeedRecord | streamlit_app.py:79-87 | the seeded row: ID number, question, subject, drawn status and marks, Frequency = the number of drawn years, and those years |
| Seeding.EmitVariants | streamlit_app.py:76-88 | emitting k variants adds exactly k rows |
| Seeding.EmitQuestions | streamlit_app.py:73-88 | emitting j questions adds as many rows as their variants |
| Seeding.EmitBanks | streamlit_app.py:72-88 | emitting s banks adds as many rows as the variants of all their questions |
| Seeding.Seed | streamlit_app.py:69-88 | the nested loop builds exactly the seeded rows; row i is numbered 1100 - i; every row's Frequency equals the number of its years, which are 1 to 5 distinct years in 2018..2023 |
| Seeding.SeedBank | streamlit_app.py:72-88 | the loop over one subject's questions appends that subject's rows, and question_id ends at 1100 minus the row count |
| Seeding.SeedQuestion | streamlit_app.py:76-88 | the loop over one question's variants appends one record per variant, and question_id drops by one per record |
| Seeding.EmitVariantsKeeps | streamlit_app.py:79 | appending variants leaves the earlier rows unchanged |
| Seeding.EmitVariantsAdds | streamlit_app.py:79-88 | the row at position i after the old rows is the next variant's record, numbered 1100 - i |
| Seeding.EmitVariantsNumbered | streamlit_app.py:76-88 | rows numbered 1100 - position, each with a valid year sample, stay so as one question's variants are emitted |
| Seeding.EmitQuestionsNumbered | streamlit_app.py:73-88 | the same holds as a bank's questions are emitted |
| Seeding.EmitBanksNumbered | streamlit_app.py:72-88 | the same holds as banks are emitted |
| Seeding.SeedRowsNumbered | streamlit_app.py:78-88 | seeded row i is numbered 1100 - i, its Frequency equals the number of its years, and those are 1 to 5 distinct years in 2018..2023 |
| Seeding.VariantTotalBounds | streamlit_app.py:75 | j questions with 2 or 3 variants each yield between 2j and 3j records |
| Seeding.DrawTotalBounds | streamlit_app.py:72-76 | the first s banks yield between 2 and 3 records per question |
| Seeding.SeedSize | streamlit_app.py:72-76 | the seeded table holds between 2N and 3N rows for N canonical questions |
| Seeding.OccurrencesSnoc | streamlit_app.py:79 | appending a row adds one occurrence exactly when that row has the subject and question counted |
| Seeding.EmitVariantsOccurrences | streamlit_app.py:76-87 | emitting k variants of a question adds k occurrences of that question under its subject, and none of any other |
| Seeding.OtherQuestionsOccurrences | streamlit_app.py:73-87 | emitting other questions adds no occurrences of the question counted |
| Seeding.EmitQuestionsOccurrences | streamlit_app.py:73-87 | in a bank listing the question once, the bank adds one occurrence per variant drawn for it |
| Seeding.OtherBanksOccurrences | streamlit_app.py:72-87 | emitting another subject's bank adds no occurrences under the subject counted |
| Seeding.SeededOccurrences | streamlit_app.py:72-87 | a question listed once in its subject's only bank occurs once per variant drawn for it |
| Seeding.QuestionYield | streamlit_app.py:72-76 | in a catalog without repeated subjects or questions, every canonical question occurs 2 or 3 times in the seeded table |
| Catalog.CatalogSize | streamlit_app.py:18-62 | the catalog has four subjects and 32 questions |
| Catalog.MathematicsDistinct | streamlit_app.py:22-31 | the Mathematics bank lists no question twice |
| Catalog.PhysicsDistinct | streamlit_app.py:32-41 | the Physics bank lists no question twice |
| Catalog.ChemistryDistinct | streamlit_app.py:42-51 | the Chemistry bank lists no question twice |
| Catalog.BiologyDistinct | streamlit_app.py:52-61 | the Biology bank lists no question twice |
| Catalog.CatalogDistinct | streamlit_app.py:21-62 | no subject has two banks and no bank repeats a question |
| Catalog.AppQuestionYield | streamlit_app.py:72-76 | in the app's own catalog, every canonical question occurs in the seeded table once per variant drawn for it, so 2 or 3 times |
| Store.Submission | streamlit_app.py:132-144 | the submitted record has ID f"Q{n}", status Pending, and Frequency equal to the number of its years |
| Store.QuestionStore.constructor | streamlit_app.py:65-93 | the table holds exactly the seeded rows, sorted by Subject then Frequency descending, and each row's Frequency counts its years |
| Store.QuestionStore.Submit | streamlit_app.py:128-149 | the outcomes are: <br>• when max/int fail, nothing changes; <br>• otherwise the new record is numbered one past the number parsed from the greatest ID and is Pending with Frequency = len(years); <br>• the table becomes the old rows plus that record (one row longer), re-sorted by Subject then Frequency; <br>• while IDs have four digits, the new number is unused and IDs stay unique |
| Store.ReorderedNextNumber | streamlit_app.py:130 | two tables holding the same rows in different orders give a submission the same number, so the order a sort leaves does not matter |
| Store.DistinctIdsUnique | streamlit_app.py:88 | rows with pairwise different numbers hold no record twice and share no ID |
| Store.SeededIds | streamlit_app.py:69-88 | the seeded table is non-empty, starts at Q1100, its numbers lie within 1005..1100, and no number is used twice |
| Store.IdListWidth | streamlit_app.py:130 | in a table of four-digit numbers, every ID has four digits |
| Store.NextAfterTop | streamlit_app.py:130-135 | a table numbered 1000..top, with top in use, numbers its next question top + 1 |
| Store.SeededNextNumber | streamlit_app.py:130-135 | in any order of the seeded rows, the first submission gets Q1101, and all IDs have four digits and are unique |
| Store.ReorderedSeed | streamlit_app.py:130-135 | any reordering of rows numbered 1005..1100 that includes 1100 numbers its next question 1101 |
| Store.ReorderedNumbers | streamlit_app.py:92 | reordering keeps the numbers within 1000..1100 and keeps 1100 present |
| Store.SubmitKeepsIdsUnique | streamlit_app.py:130-149 | while the next number has four digits, it is unused, and the re-sorted table keeps four-digit, unique IDs |
| Store.FreshSubmission | streamlit_app.py:130-135 | a next number of at most 9999 is at least 1000 and is not used by any row |
| Store.NextAmongFourDigits | streamlit_app.py:130-135 | among four-digit IDs, the next ID is unused and the one before it is in use |
| Store.InsertKeepsIds | streamlit_app.py:148-149 | adding a four-digit row with an unused number and re-sorting keeps IDs four digits wide and unique |
| Analysis.Meets | streamlit_app.py:163 | the boolean masks: OfSubject is df.Subject == subject (line 163), IsFeatured is Status == "Featured" (line 214), Frequent is Frequency >= 5 (lines 215 and 221), and Asks is exact, case-sensitive equality of the question text (line 98) |
| Analysis.Select | streamlit_app.py:163 | df[mask] holds each row meeting the mask as often as the table does, and no other row |
| Analysis.SelectSingleton | streamlit_app.py:163 | df[mask] on a single row is that row when it meets the mask, and empty otherwise |
| Analysis.SelectAppend | streamlit_app.py:163 | df[mask] keeps row order: filtering a + b is filtering a, then filtering b |
| Analysis.SelectSplit | streamlit_app.py:163 | every row keeps its place in df[mask]: the selected rows before it, then the row itself if it matches, then the selected rows after it |
| Analysis.SelectSplitEverywhere | streamlit_app.py:221 | the same holds at every position of the table |
| Analysis.SelectSortedByAnyKey | streamlit_app.py:221 | filtering keeps a table sorted by whichever key it was sorted by |
| Analysis.SelectSize | streamlit_app.py:214-215 | len(df[mask]) is the number of positions whose row meets the mask |
| Analysis.MatchingSnoc | streamlit_app.py:214-215 | the positions meeting a mask are those of all rows but the last, plus the last position if that row matches |
| Analysis.SelectSorted | streamlit_app.py:221 | filtering a sorted table keeps it sorted |
| Analysis.SelectedRowFrom | streamlit_app.py:221 | every row of df[mask] is a row of the table |
| Analysis.SortedSnoc | streamlit_app.py:221 | appending a row that every row precedes keeps a table sorted |
| Analysis.SelectHead | streamlit_app.py:98-103 | the first row of df[mask] is the first table row meeting the mask |
| Analysis.SelectNone | streamlit_app.py:98-100 | a mask that no row meets selects nothing |
| Analysis.SubjectView | streamlit_app.py:162-167 | for one subject, the view holds exactly that subject's rows, sorted by Frequency descending; for All Subjects it holds every row, sorted by Subject then Frequency |
| Analysis.SubjectViewSize | streamlit_app.py:169 | the reported total is the number of that subject's rows, or the table length for All Subjects |
| Analysis.FeaturedCount | streamlit_app.py:214 | the Featured metric counts exactly the rows of the view whose status is Featured |
| Analysis.HighFrequencyTable | streamlit_app.py:221 | the table holds exactly the view's rows with Frequency >= 5, as many times as the view does; it is their subsequence in the view's own order, because each view row stands after the qualifying rows before it and before those after it; a view sorted by a key stays sorted |
| Analysis.HighFrequencyCount | streamlit_app.py:215 | the metric counts exactly the rows with Frequency >= 5, and equals the length of the high-frequency table |
| Analysis.Recent | streamlit_app.py:106 | a year counts when current_year - year <= window |
| Analysis.CountRecent | streamlit_app.py:106 | the count is the number of positions whose year is within the window; so it is at most the number of years, equals it exactly when every year is within the window, and is 0 exactly when none is |
| Analysis.RecentPositionsSnoc | streamlit_app.py:106 | the in-window positions are those of all but the last year, plus the last position if that year is within the window |
| Analysis.PredictAppearances | streamlit_app.py:96-106 | 0 when no row has the question; otherwise the count of the first matching row's years within the window, which is at most the number of those years |
| Analysis.PredictFirst | streamlit_app.py:98-103 | the matches are empty when no row asks the question, and otherwise start with the first row that does |
| Analysis.CountRecentMonotone | streamlit_app.py:106 | a wider window never counts fewer years |
| Analysis.PredictMonotone | streamlit_app.py:106 | with the current year fixed, the prediction never decreases as the window grows |
| Analysis.PredictDependsOnOrder | streamlit_app.py:98-103 | when two rows ask the same question, two orders of the same rows can give different predictions |
| Analysis.PredictNewtonExample | streamlit_app.py:96-106 | a first match with years 2019, 2021 and 2023, seen from 2024, predicts 3 for a 5-year window and 1 for a 2-year one |

## Left out

- User interface: page set-up, sidebar, forms, widgets, metrics rendering, `st.success`, the
  footer (streamlit_app.py:6-15, 108-126, 151-159, 209-213, 216-220, 222, 224-233, 235-257). The
  form's values are parameters of `Submit`, and the prediction's question and window are
  parameters of `PredictAppearances`.
- The `st.data_editor` grid (streamlit_app.py:172-207). Its edits are never written back to the
  table, so nothing in the model depends on them.
- `random.seed(42)` and the pseudo-random generator: the draws are an input constrained by
  `DrawsFit`, so every possible draw is covered, not just the one seed 42 produces.
- `datetime.datetime.now()`: the current year is a parameter of the prediction. The unused
  `today` (streamlit_app.py:131) is dropped.
- pandas' order among rows with equal sort keys: sorts are specified as sorted and a permutation.
  `SortRows` is one such sort, so the exact row order among ties is not modelled.
- Marks are the floats 2.5, 5 and 10. No arithmetic is done on them, so they are an enumeration.
- Python's `int()` also accepts a leading '+', surrounding whitespace, '_' between digits and non-ASCII Unicode decimal digits, among other forms.
  The model parses only an optional '-' followed by digits. Every ID the app writes has that form.
- The ID column is kept as the question number. The ID text is always f"Q{n}" (`Record.Id`), and
  `Submit` computes the next number from that text exactly as the source does.
- The column projections of the data editor and the high-frequency table are left out.
  `HighFrequencyTable` keeps whole rows.
- Store.QuestionStore.Submit: unique IDs are promised only while the next number has four
  digits. Past Q9999 the string `max()` no longer finds the largest number, and
  `Ids.WiderIdRepeats` shows Q10000 being issued again. `Ids.NinesStayGreatest` shows that
  "Q9999" stays the string maximum of any such column, so every later submission gets Q10000
  as well. Starting from Q1100 this takes about
  8,900 submissions.
- Seeding.QuestionYield: assumes the catalog has no repeated subject or question. The app's catalog
  meets this (`Catalog.CatalogDistinct`), and `Catalog.AppQuestionYield` applies it there.
- Unchecked exceptions other than the `max()` / `int()` failure on an empty or malformed ID
  column are not modelled.
