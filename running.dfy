/**
 * Running: the per-student running series of the race view for pull-ups
 * (a running mean over the date-sorted table, re_solution.py lines
 * 274-278) and for flashcards (a running sum in table order, line 316).
 *
 * `groupby('student_name')[col].cumsum()` and
 * `groupby('student_name').cumcount() + 1` both give every row the running
 * sum of one measure over the rows of its student seen so far; that is
 * `RunningSums`.
 */
module Running {
  import opened Tables
  import opened Keys
  import opened Aggregates

  function Get(seen: map<Student, int>, s: Student): int
  {
    if s in seen then seen[s] else 0
  }

  /**
   * One pass over the rows in table order, keeping the running sum of each
   * student met so far (starting from `seen`), and emitting it for every row.
   */
  function RunningSums(rows: seq<CountRow>, m: Measure, seen: map<Student, int>): (r: seq<int>)
    ensures |r| == |rows|
  {
    if rows == [] then []
    else
      var s := rows[0].student;
      var t := Get(seen, s) + Weight(rows[0], m);
      [t] + RunningSums(rows[1..], m, seen[s := t])
  }

  /** The value emitted for row `i` is what was seen before plus the student's sum over rows 0..i. */
  lemma {:induction false} RunningSumsAt(rows: seq<CountRow>, m: Measure, seen: map<Student, int>, i: nat)
    requires i < |rows|
    ensures RunningSums(rows, m, seen)[i] == Get(seen, rows[i].student) + Sum(rows[..i + 1], rows[i].student, m)
  {
    var h := rows[0].student;
    var t := Get(seen, h) + Weight(rows[0], m);
    var s := rows[i].student;
    assert RunningSums(rows, m, seen) == [t] + RunningSums(rows[1..], m, seen[h := t]);
    assert Get(seen[h := t], s) == Get(seen, s) + Share(rows[0], s, m);
    assert Sum(rows[..i + 1], s, m) == Share(rows[0], s, m) + Sum(rows[..i + 1][1..], s, m);
    if i == 0 {
      assert rows[..1][1..] == [];
    } else {
      RunningSumsAt(rows[1..], m, seen[h := t], i - 1);
      assert rows[1..][i - 1] == rows[i];
      assert rows[..i + 1][1..] == rows[1..][..i];
    }
  }

  /** `groupby('student_name')[col].cumsum()`. */
  function CumSum(rows: seq<CountRow>): seq<int>
  {
    RunningSums(rows, Values, map[])
  }

  /** `groupby('student_name').cumcount() + 1`. */
  function DayCount(rows: seq<CountRow>): seq<int>
  {
    RunningSums(rows, Rows, map[])
  }

  /** Row `i`'s cumulative sum is its student's total over rows 0..i. */
  lemma CumSumAt(rows: seq<CountRow>, i: nat)
    requires i < |rows|
    ensures |CumSum(rows)| == |rows|
    ensures CumSum(rows)[i] == Total(rows[..i + 1], rows[i].student)
  {
    RunningSumsAt(rows, Values, map[], i);
  }

  /** Row `i` is its student's k-th row (1-based), where k is its day count. */
  lemma DayCountAt(rows: seq<CountRow>, i: nat)
    requires i < |rows|
    ensures |DayCount(rows)| == |rows|
    ensures DayCount(rows)[i] == Count(rows[..i + 1], rows[i].student) >= 1
  {
    RunningSumsAt(rows, Rows, map[], i);
    assert rows[..i + 1][i] == rows[i];
    SumAbsent(rows[..i + 1], rows[i].student, Rows);
  }

  lemma DayCountPositive(rows: seq<CountRow>)
    ensures |DayCount(rows)| == |rows|
    ensures forall i :: 0 <= i < |rows| ==> DayCount(rows)[i] >= 1
  {
    forall i | 0 <= i < |rows|
      ensures DayCount(rows)[i] >= 1
    {
      DayCountAt(rows, i);
    }
  }

  /** Once a student's last row is passed, the sum over the prefix is the student's total. */
  lemma SumAtLastRow(rows: seq<CountRow>, i: nat, m: Measure)
    requires i < |rows|
    requires forall j :: i < j < |rows| ==> rows[j].student != rows[i].student
    ensures Sum(rows[..i + 1], rows[i].student, m) == Sum(rows, rows[i].student, m)
  {
    assert rows == rows[..i + 1] + rows[i + 1..];
    SumAppend(rows[..i + 1], rows[i + 1..], rows[i].student, m);
    assert rows[i].student !in StudentsOf(rows[i + 1..]);
    SumAbsent(rows[i + 1..], rows[i].student, m);
  }

  // ---------------------------------------------------------------
  // Pull-ups: running mean over the date-sorted table
  // ---------------------------------------------------------------

  function DateKey(r: CountRow): Date
  {
    r.date
  }

  /** `cumulative = cumulative_sum / day_count`, row by row, over a table already in date order. */
  function MeanSeries(sorted: seq<CountRow>): (points: seq<RacePoint>)
    ensures |points| == |sorted|
  {
    var sums := CumSum(sorted);
    var counts := DayCount(sorted);
    DayCountPositive(sorted);
    seq(|sorted|, i requires 0 <= i < |sorted| =>
      RacePoint(sorted[i].date, sorted[i].student, sums[i] as real / counts[i] as real))
  }

  /** The pull-up race: sort by date, then the per-student running mean (lines 274-278). */
  function PullupRace(pullups: seq<CountRow>): seq<RacePoint>
  {
    MeanSeries(SortBy(pullups, DateKey))
  }

  /** Row `i` carries its student's mean over that student's rows up to and including row `i`. */
  lemma MeanSeriesAt(sorted: seq<CountRow>, i: nat)
    requires i < |sorted|
    ensures |MeanSeries(sorted)| == |sorted|
    ensures Count(sorted[..i + 1], sorted[i].student) >= 1
    ensures MeanSeries(sorted)[i] ==
      RacePoint(sorted[i].date, sorted[i].student,
                Total(sorted[..i + 1], sorted[i].student) as real / Count(sorted[..i + 1], sorted[i].student) as real)
  {
    CumSumAt(sorted, i);
    DayCountAt(sorted, i);
  }

  /**
   * At a student's last row, whatever order the sort left same-date rows in,
   * the running mean is the student's overall average of the bar chart.
   */
  lemma MeanSeriesFinal(pullups: seq<CountRow>, sorted: seq<CountRow>, i: nat)
    requires multiset(sorted) == multiset(pullups)
    requires i < |sorted|
    requires forall j :: i < j < |sorted| ==> sorted[j].student != sorted[i].student
    ensures sorted[i].student in AveragePullups(pullups)
    ensures MeanSeries(sorted)[i].cumulative == AveragePullups(pullups)[sorted[i].student]
  {
    var s := sorted[i].student;
    MeanSeriesAt(sorted, i);
    SumAtLastRow(sorted, i, Values);
    SumAtLastRow(sorted, i, Rows);
    SumPermutation(sorted, pullups, s, Values);
    SumPermutation(sorted, pullups, s, Rows);
    assert s in StudentsOf(sorted);
    SumAbsent(sorted, s, Rows);
    SumAbsent(pullups, s, Rows);
  }

  /** The pull-up race is in date order, a permutation of the table, and a running mean at every row. */
  lemma PullupRaceAt(pullups: seq<CountRow>, i: nat)
    requires i < |pullups|
    ensures var sorted := SortBy(pullups, DateKey);
      && multiset(sorted) == multiset(pullups)
      && |PullupRace(pullups)| == |pullups|
      && (forall j :: i < j < |pullups| ==> Leq(PullupRace(pullups)[i].date, PullupRace(pullups)[j].date))
      && Count(sorted[..i + 1], sorted[i].student) >= 1
      && PullupRace(pullups)[i] ==
           RacePoint(sorted[i].date, sorted[i].student,
                     Total(sorted[..i + 1], sorted[i].student) as real / Count(sorted[..i + 1], sorted[i].student) as real)
  {
    var sorted := SortBy(pullups, DateKey);
    assert |sorted| == |multiset(sorted)| == |pullups|;
    MeanSeriesAt(sorted, i);
    forall j | i < j < |pullups|
      ensures Leq(PullupRace(pullups)[i].date, PullupRace(pullups)[j].date)
    {
      MeanSeriesAt(sorted, j);
      assert DateKey(sorted[i]) == sorted[i].date && DateKey(sorted[j]) == sorted[j].date;
    }
  }

  /** A student's last pull-up race entry is that student's average pull-ups per day (lines 278 and 36). */
  lemma PullupRaceFinal(pullups: seq<CountRow>, i: nat)
    requires i < |pullups|
    requires forall j :: i < j < |pullups| ==> PullupRace(pullups)[j].student != PullupRace(pullups)[i].student
    ensures PullupRace(pullups)[i].student in AveragePullups(pullups)
    ensures PullupRace(pullups)[i].cumulative == AveragePullups(pullups)[PullupRace(pullups)[i].student]
  {
    var sorted := SortBy(pullups, DateKey);
    assert |sorted| == |multiset(sorted)| == |pullups|;
    forall j | i <= j < |pullups|
      ensures PullupRace(pullups)[j].student == sorted[j].student
    {
      MeanSeriesAt(sorted, j);
    }
    MeanSeriesFinal(pullups, sorted, i);
  }

  // ---------------------------------------------------------------
  // Flashcards: running sum in table order
  // ---------------------------------------------------------------

  /** The flashcard race: the per-student running sum, rows kept in table order (line 316). */
  function VocabRace(vocab: seq<CountRow>): seq<RacePoint>
  {
    var sums := CumSum(vocab);
    seq(|vocab|, i requires 0 <= i < |vocab| => RacePoint(vocab[i].date, vocab[i].student, sums[i] as real))
  }

  /** Row `i` carries its student's flashcards over rows 0..i. */
  lemma VocabRaceAt(vocab: seq<CountRow>, i: nat)
    requires i < |vocab|
    ensures |VocabRace(vocab)| == |vocab|
    ensures VocabRace(vocab)[i] == RacePoint(vocab[i].date, vocab[i].student, Total(vocab[..i + 1], vocab[i].student) as real)
  {
    CumSumAt(vocab, i);
  }

  /** With non-negative counts a student's running sum never goes down. */
  lemma VocabRaceMonotone(vocab: seq<CountRow>, i: nat, j: nat)
    requires NonNegative(vocab)
    requires i < j < |vocab| && vocab[i].student == vocab[j].student
    ensures VocabRace(vocab)[i].cumulative <= VocabRace(vocab)[j].cumulative
  {
    var s := vocab[i].student;
    VocabRaceAt(vocab, i);
    VocabRaceAt(vocab, j);
    assert vocab[..j + 1] == vocab[..i + 1] + vocab[i + 1..j + 1];
    SumAppend(vocab[..i + 1], vocab[i + 1..j + 1], s, Values);
    SumNonNegative(vocab[i + 1..j + 1], s, Values);
  }

  /** A student's last flashcard race entry is that student's total of the bar chart (lines 316 and 50). */
  lemma VocabRaceFinal(vocab: seq<CountRow>, i: nat)
    requires i < |vocab|
    requires forall j :: i < j < |vocab| ==> vocab[j].student != vocab[i].student
    ensures vocab[i].student in TotalVocab(vocab)
    ensures VocabRace(vocab)[i].cumulative == TotalVocab(vocab)[vocab[i].student] as real
  {
    VocabRaceAt(vocab, i);
    SumAtLastRow(vocab, i, Values);
    assert vocab[i].student in StudentsOf(vocab);
  }
}
