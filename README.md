# New Year's resolution dashboard: the aggregation layer in Dafny

The dashboard follows five friends through three resolutions: pull-ups per
day, dad jokes with the reaction each one got, and vocabulary flashcards
solved per day. Each resolution is a table of rows of the form
(student, date, value). A joke row holds a reaction in place of the number.
Around its charts, the dashboard computes:

- **The reaction score.** LMAO is worth 2, LOL 1, and the three other
  reactions 0. The same map appears in all three tabs.
- **The overall comparison.** Each student's average pull-ups per day, sum
  of joke scores (the *laughter score*) and total of flashcards.
- **The joke view of one student.** A warning takes the place of the
  figures when the student told no joke. Otherwise it shows the jokes told,
  the laughter score, and the success rate (the percentage of jokes that
  scored).
- **The race.** Each category becomes a series of (date, student,
  cumulative) points:
  - pull-ups: the rows are sorted by date, then each student's running
    mean is taken;
  - flashcards: each student's running sum, in file order;
  - jokes: a dense grid built by two nested loops, with one entry for every
    sorted distinct date and every distinct student, holding the student's
    score up to and including that date.

  The winner is announced as the student with the highest peak, with that
  peak as the score. The y axis is capped at a fixed ceiling per category.

The model has six modules:

| file | module | contents |
|---|---|---|
| `keys.dfy` | `Keys` | the string order used on dates and names; sorting by a key; `unique()` |
| `tables.dfy` | `Tables` | rows, reactions and their tokens, the score map |
| `aggregates.dfy` | `Aggregates` | per-student sums, counts and means; the joke view |
| `running.dfy` | `Running` | the pull-up running mean and the flashcard running sum |
| `timeline.dfy` | `Timeline` | the joke grid, as a method with nested loops and as the function it is proved against |
| `race.dfy` | `Race` | per-student peaks, `idxmax`, the winner, its score and the ceilings |

The dashboard stores dates as the text of the CSV files, so every
comparison it makes on them is string comparison. The model does the same:
`Keys.Leq` is code-point lexicographic order. A pandas group-by lists its
keys in increasing order and `idxmax` returns the first maximal key. So the
race winner is the student with the largest peak, and on a tie the smallest
name; `Race.IsWinner` states this and `Race.WinnerUnique` shows that it
singles out one student.

The pull-up race announces the best running mean as "average pull-ups per
day". That is not always the student's final average.
`Race.PullupPeakCanExceedAverage` shows a student with 10 and then 2
pull-ups: the announced figure is 10.0, while the average in the overall
comparison is 6.0. The flashcard and joke races behave differently. With
non-negative counts, every peak equals the bar-chart total, so those winners
have the largest total (`Race.VocabWinnerHasTopTotal`,
`Race.JokeWinnerHasTopScore`).

## Model

| member | source | states |
|---|---|---|
| Tables.ParseReaction | re_solution.py:40-46 | a token names a reaction exactly when it is that reaction's token; every other string names none |
| Tables.Score | re_solution.py:40-46 | LMAO scores 2, LOL scores 1, every other reaction 0; one map serves the overall, joke-view and race tabs (lines 175-181, 285-291) |
| Aggregates.SumAbsent | re_solution.py:47 | a student without rows sums to 0; the row count is positive exactly when the student has rows, and never above the table size |
| Aggregates.SumAppend | re_solution.py:47 | a student's sum over two concatenated tables is the sum of the two sums |
| Aggregates.SumNonNegative | re_solution.py:50 | with non-negative values a student's sum is non-negative |
| Aggregates.SumPermutation | re_solution.py:36 | a student's sum and count do not depend on the order of the rows |
| Aggregates.GroupMean | re_solution.py:36 | a group-by mean has exactly the students with rows as keys; each student's row count is positive, and the mean times that count is the student's total |
| Aggregates.LaughterScores | re_solution.py:39-47 | each teller's laughter score in the overall comparison equals the score the joke view sums for that student (line 183) |
| Aggregates.LaughterScoreBounds | re_solution.py:39-47 | a student has a laughter score exactly when the student told a joke; the score lies between 0 and twice the jokes told; without jokes the sum is 0 |
| Aggregates.ScoreAtMostTwice | re_solution.py:47 | when every score is at most 2, a student's total is at most twice the student's row count |
| Aggregates.JokesOf | re_solution.py:169 | the selected rows all belong to the student, are empty exactly when the student told no joke, are drawn from the table, and are as many as the student's rows in the table |
| Aggregates.ScoreBetweenSuccesses | re_solution.py:183-202 | the successes are at most the jokes told, and the score lies between the successes and twice the successes |
| Aggregates.JokeSummary | re_solution.py:169-202 | no summary (the warning) exactly when the student told no joke; otherwise the jokes told are the student's row count, the score is the student's laughter score in the overall comparison, the successes are the student's rows with a score above 0, and the rate times the jokes told is 100 times the successes, so it lies in [0, 100]; successes are at most the jokes, and the score lies between the successes and twice the successes |
| Aggregates.SuccessRate | re_solution.py:202 | the rate lies in [0, 100] and, multiplied by the jokes told, is 100 times the successes |
| Aggregates.JokeViewMatchesTable | re_solution.py:183-202 | the joke view's score equals the student's total of the score column that the bar chart shows (line 47), and its successes equal the student's rows with a score above 0 |
| Running.RunningSumsAt | re_solution.py:276-277 | the running value of row i is the starting value for its student plus the student's sum over rows 0..i |
| Running.CumSumAt | re_solution.py:316 | the cumulative sum of row i is its student's total over rows 0..i |
| Running.DayCountAt | re_solution.py:277 | the day count of row i is the number of its student's rows up to and including i, at least 1 |
| Running.SumAtLastRow | re_solution.py:276-277 | at a student's last row, the sum over the prefix is the student's whole sum |
| Running.MeanSeriesAt | re_solution.py:276-278 | entry i is its student's total over rows 0..i divided by the student's count over rows 0..i |
| Running.MeanSeriesFinal | re_solution.py:274-278 | for any reordering of the table, a student's entry at the student's last row is the student's average pull-ups (line 36) |
| Running.PullupRaceAt | re_solution.py:274-278 | the pull-up race is in date order, a permutation of the table, and a running mean at every row |
| Running.PullupRaceFinal | re_solution.py:274-278 | a student's last pull-up race entry is the student's average pull-ups (line 36), whatever order same-date rows take |
| Running.VocabRaceAt | re_solution.py:315-316 | flashcard race entry i is its student's flashcards over rows 0..i, in file order |
| Running.VocabRaceMonotone | re_solution.py:316 | with non-negative counts a student's later entry is never below an earlier one |
| Running.VocabRaceFinal | re_solution.py:316 | a student's last flashcard race entry is the student's total in the bar chart (line 50) |
| Keys.LeqTotal | re_solution.py:299 | any two strings are comparable |
| Keys.LeqAntisymmetric | re_solution.py:299 | two strings each at most the other are equal |
| Keys.LeqTransitive | re_solution.py:299 | the string order is transitive |
| Keys.SortBy | re_solution.py:275 | the result is sorted by the key and is a permutation of the input |
| Keys.Distinct | re_solution.py:294-295 | the result has no duplicates and holds exactly the elements of the input |
| Keys.DistinctOrder | re_solution.py:294-295 | the distinct elements come in order of first appearance |
| Keys.SortedUniqueExact | re_solution.py:294-299 | sorting the distinct dates gives a strictly increasing list of exactly the input's dates |
| Timeline.BuildGrid | re_solution.py:298-309 | the nested loops produce exactly the date-major grid `Grid` |
| Timeline.BuildJokeRace | re_solution.py:284-311 | the joke race method produces the grid over the scored jokes, sorted distinct dates and distinct students |
| Timeline.GridLength | re_solution.py:298-309 | the grid has one entry per (date, student) pair |
| Timeline.GridAt | re_solution.py:298-309 | entry i*m+j of the grid is student j's score up to and including date i |
| Timeline.TimelineDatesIncreasing | re_solution.py:294-299 | the timeline dates are strictly increasing |
| Timeline.TimelineDatesExact | re_solution.py:294-299 | the timeline dates are exactly the dates on which a joke was told |
| Timeline.TimelineStudentsExact | re_solution.py:295-300 | the timeline students are exactly the joke tellers, each once |
| Timeline.TotalUpToMonotone | re_solution.py:302-308 | with non-negative scores, a student's score up to a date never goes down as the date moves later |
| Timeline.TotalUpToAll | re_solution.py:302-308 | at a date no row is later than, a student's score up to the date is the student's total |
| Timeline.GridMonotone | re_solution.py:298-309 | over sorted dates and non-negative scores, a student's grid entries never go down from date to date |
| Timeline.GridFinal | re_solution.py:298-309 | when no row is after the last date, a student's entry at that date is the student's total |
| Timeline.JokeRaceAt | re_solution.py:294-311 | the joke race has |dates| x |students| entries, date-major, each the student's score up to that date |
| Timeline.JokeRaceMonotone | re_solution.py:294-311 | a student's joke race entry never goes down from one date to a later one |
| Timeline.JokeRaceFinal | re_solution.py:294-311 | at the last date each student's entry is the laughter score of the bar chart (line 47) |
| Race.Peak | re_solution.py:350 | a student's peak is one of the student's values, and none of them is above it |
| Race.GroupKeysExact | re_solution.py:350 | the group-by keys are strictly increasing and are exactly the racers |
| Race.IdxMax | re_solution.py:350 | idxmax returns a position holding the largest value, with only smaller values before it |
| Race.Winner | re_solution.py:350 | there is no winner exactly when the race is empty; otherwise the winner races, no racer peaks higher, and on a tie the winner has the smallest name |
| Race.WinnerUnique | re_solution.py:350 | at most one student satisfies the winner property |
| Race.Top | re_solution.py:351 | the top value is a value of the race, and no value is above it |
| Race.WinnerScoreIsWinnersPeak | re_solution.py:350-351 | the announced score exists exactly when there is a winner, and is the winner's own peak |
| Race.CategoryRace | re_solution.py:272-318 | the pull-up and flashcard races have one point per row; the joke race has one per (date, student) pair |
| Race.CeilingClipsIff | re_solution.py:280-328 | no point rises above the category's fixed ceiling (12, 16 or 300, lines 280, 313 and 318) exactly when the announced score does not |
| Race.VocabularyCeilingCanClip | re_solution.py:318 | a student with 301 flashcards rises above the fixed ceiling of 300 |
| Race.VocabPeakIsTotal | re_solution.py:316 | with non-negative counts a student's flashcard peak is the student's total (line 50) |
| Race.VocabWinnerHasTopTotal | re_solution.py:350 | with non-negative counts the flashcard winner has the largest total in the bar chart, smallest name on a tie |
| Race.GridPeak | re_solution.py:298-309 | in a grid over sorted dates reaching every row, a student's peak is the student's total |
| Race.JokePeakIsLaughterScore | re_solution.py:294-311 | a student's joke race peak is the student's laughter score (line 47) |
| Race.JokeWinnerHasTopScore | re_solution.py:350 | the joke race winner has the largest laughter score in the bar chart, smallest name on a tie |
| Race.PullupPeakCanExceedAverage | re_solution.py:350-354 | the announced pull-up figure can be above the announcing student's average pull-ups per day |

## Left out

- Streamlit pages, tabs, sidebar widgets, metrics, warnings and the raw-data expander are presentation only and are not modelled. The student and category selections become parameters.
- Plotly figures, styling and animation timing are not modelled. The race is the series of points handed to the chart, and the ceiling is the axis range.
- Reading the CSV files and caching them are I/O. The three tables are given as sequences of rows.
- Number formatting (`:.1f`, `:.0f`, `%`) is not modelled. The success rate and the means are exact `real` values, computed from integer sums and counts, not floating-point values.
- Reactions form a closed set of five. An unknown reaction string, which pandas maps to NaN, is not representable; `Tables.ParseReaction` returns `None` for it.
- Dates are not parsed. They are compared as strings, as the dashboard compares them.
- The pie chart of reactions, the list of LMAO jokes and the list of all jokes in the joke view are display only.
- The single-student pull-up and flashcard views (their line charts and their total, average and best-day metrics) are not modelled.
- Keys.SortBy: an insertion sort that is stable, while pandas `sort_values` (line 275) need not be. A student's last running mean does not depend on the order of same-date rows: `Running.MeanSeriesFinal` holds for every reordering of the table. The running means before it do. When one student has two rows on the same date, the order of those two rows decides the student's peak and therefore `winner_score` and possibly the winner (line 350). Rows (Kai, 1, 2) then (Kai, 1, 10) give a peak of 6.0, and the reverse order gives 10.0. The model fixes the file order for such ties, so its pull-up winner is the one a stable sort gives.
- Race.Ceiling: the ceiling does not clip the data only when the data stay below it, which the dashboard does not check. `Race.CeilingClipsIff` states exactly when it holds, and `Race.VocabularyCeilingCanClip` shows a case where it fails.
- Race.Winner, Race.WinnerScore: on an empty race they return `None`. The dashboard has no such case: `idxmax` on an empty series raises an error (line 350), and for the joke race `px.bar` already fails on a frame with no columns (line 321). `None` stands for that error.
- The pull-up race is not claimed to be monotone. A running mean can fall.
