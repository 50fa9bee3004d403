/**
 * Timeline: the dense joke race of re_solution.py lines 284-311.
 *
 * Jokes are sparse (not every student tells one every day), so the race
 * builds one entry for every sorted distinct date and every distinct
 * student, holding the student's laughter score over the jokes told up to
 * and including that date.
 */
module Timeline {
  import opened Tables
  import opened Keys
  import opened Aggregates

  /** The sum of a student's values over the rows dated at or before `d`. */
  function TotalUpTo(rows: seq<CountRow>, s: Student, d: Date): int
  {
    if rows == [] then 0
    else (if rows[0].student == s && Leq(rows[0].date, d) then rows[0].value else 0) + TotalUpTo(rows[1..], s, d)
  }

  /** `sorted(jokes_df['date'].unique())`. */
  function TimelineDates(jokes: seq<JokeRow>): seq<Date>
  {
    SortedUnique(DateColumn(Scored(jokes)))
  }

  /** `jokes_df['student_name'].unique()`, in order of first appearance. */
  function TimelineStudents(jokes: seq<JokeRow>): seq<Student>
  {
    Distinct(StudentColumn(Scored(jokes)))
  }

  /** The entries of one date, one per student in `students` order (the inner loop). */
  function DayFrames(rows: seq<CountRow>, d: Date, students: seq<Student>): (f: seq<RacePoint>)
    ensures |f| == |students|
  {
    if students == [] then []
    else
      var last := students[|students| - 1];
      DayFrames(rows, d, students[..|students| - 1]) + [RacePoint(d, last, TotalUpTo(rows, last, d) as real)]
  }

  /** The whole grid, date-major (the outer loop). */
  function Grid(rows: seq<CountRow>, dates: seq<Date>, students: seq<Student>): seq<RacePoint>
  {
    if dates == [] then []
    else Grid(rows, dates[..|dates| - 1], students) + DayFrames(rows, dates[|dates| - 1], students)
  }

  /** The joke race as a value. */
  function JokeRace(jokes: seq<JokeRow>): seq<RacePoint>
  {
    Grid(Scored(jokes), TimelineDates(jokes), TimelineStudents(jokes))
  }

  /**
   * The two nested loops: for every date, in order, and every student, in
   * order, append the student's score up to and including that date.
   */
  method BuildGrid(scored: seq<CountRow>, dates: seq<Date>, students: seq<Student>) returns (frames: seq<RacePoint>)
    ensures frames == Grid(scored, dates, students)
  {
    frames := [];
    for i := 0 to |dates|
      invariant frames == Grid(scored, dates[..i], students)
    {
      var date := dates[i];
      for j := 0 to |students|
        invariant frames == Grid(scored, dates[..i], students) + DayFrames(scored, date, students[..j])
      {
        var student := students[j];
        DayFramesSnoc(scored, date, students, j);
        frames := frames + [RacePoint(date, student, TotalUpTo(scored, student, date) as real)];
      }
      GridSnoc(scored, dates, students, i);
    }
    assert dates[..|dates|] == dates;
  }

  /** The joke race: score column, sorted distinct dates, distinct students, then the loops. */
  method BuildJokeRace(jokes: seq<JokeRow>) returns (frames: seq<RacePoint>)
    ensures frames == JokeRace(jokes)
  {
    var scored := Scored(jokes);
    var dates := TimelineDates(jokes);
    var students := TimelineStudents(jokes);
    frames := BuildGrid(scored, dates, students);
  }

  lemma DayFramesSnoc(rows: seq<CountRow>, d: Date, students: seq<Student>, j: nat)
    requires j < |students|
    ensures DayFrames(rows, d, students[..j + 1]) ==
      DayFrames(rows, d, students[..j]) + [RacePoint(d, students[j], TotalUpTo(rows, students[j], d) as real)]
  {
    assert students[..j + 1][..j] == students[..j];
  }

  lemma GridSnoc(rows: seq<CountRow>, dates: seq<Date>, students: seq<Student>, i: nat)
    requires i < |dates|
    ensures Grid(rows, dates[..i + 1], students) == Grid(rows, dates[..i], students) + DayFrames(rows, dates[i], students[..|students|])
  {
    assert dates[..i + 1][..i] == dates[..i];
    assert students[..|students|] == students;
  }

  // ---------------------------------------------------------------
  // Shape of the grid
  // ---------------------------------------------------------------

  lemma {:induction false} DayFramesAt(rows: seq<CountRow>, d: Date, students: seq<Student>, j: nat)
    requires j < |students|
    ensures DayFrames(rows, d, students)[j] == RacePoint(d, students[j], TotalUpTo(rows, students[j], d) as real)
  {
    var n := |students| - 1;
    if j < n {
      DayFramesAt(rows, d, students[..n], j);
    }
  }

  /** The position of date `i`, student `j` in a date-major grid with `m` students per date. */
  function Slot(i: nat, j: nat, m: nat): nat
  {
    i * m + j
  }

  /** Multiplying by the same count keeps the order of two numbers. */
  lemma {:induction false} MulMono(a: nat, b: nat, m: nat)
    requires a <= b
    ensures a * m <= b * m
    decreases b - a
  {
    if a < b {
      MulMono(a + 1, b, m);
      assert (a + 1) * m == a * m + m;
    }
  }

  /**
   * The grid has |dates| x |students| entries, date-major: entry
   * Slot(i, j, |students|) is student j's score up to and including date i.
   */
  lemma {:induction false} GridAt(rows: seq<CountRow>, dates: seq<Date>, students: seq<Student>, i: nat, j: nat)
    requires i < |dates| && j < |students|
    ensures |Grid(rows, dates, students)| == |dates| * |students|
    ensures Slot(i, j, |students|) < |dates| * |students|
    ensures Grid(rows, dates, students)[Slot(i, j, |students|)] ==
      RacePoint(dates[i], students[j], TotalUpTo(rows, students[j], dates[i]) as real)
  {
    var n := |dates| - 1;
    var m := |students|;
    GridLength(rows, dates, students);
    GridLength(rows, dates[..n], students);
    MulMono(i + 1, |dates|, m);
    assert (i + 1) * m == i * m + m;
    if i < n {
      MulMono(i + 1, n, m);
      GridAt(rows, dates[..n], students, i, j);
    } else {
      DayFramesAt(rows, dates[n], students, j);
    }
  }

  lemma {:induction false} GridLength(rows: seq<CountRow>, dates: seq<Date>, students: seq<Student>)
    ensures |Grid(rows, dates, students)| == |dates| * |students|
  {
    if dates != [] {
      var n := |dates| - 1;
      GridLength(rows, dates[..n], students);
      assert (n + 1) * |students| == n * |students| + |students|;
    }
  }

  /** The sorted dates are strictly increasing: each date appears once. */
  lemma TimelineDatesIncreasing(jokes: seq<JokeRow>)
    ensures var dates := TimelineDates(jokes);
      forall i, j :: 0 <= i < j < |dates| ==> Leq(dates[i], dates[j]) && dates[i] != dates[j]
  {
    SortedUniqueExact(DateColumn(Scored(jokes)));
  }

  /** The sorted dates are exactly the dates on which some joke was told. */
  lemma TimelineDatesExact(jokes: seq<JokeRow>)
    ensures var dates := TimelineDates(jokes);
      && (forall k :: 0 <= k < |jokes| ==> jokes[k].date in dates)
      && (forall i :: 0 <= i < |dates| ==> exists k :: 0 <= k < |jokes| && jokes[k].date == dates[i])
  {
    var column := DateColumn(Scored(jokes));
    SortedUniqueExact(column);
    DateColumnOf(jokes);
  }

  lemma DateColumnOf(jokes: seq<JokeRow>)
    ensures |DateColumn(Scored(jokes))| == |jokes|
    ensures forall k :: 0 <= k < |jokes| ==> DateColumn(Scored(jokes))[k] == jokes[k].date
  {
  }

  /** The students of the race are exactly the joke tellers, each once. */
  lemma TimelineStudentsExact(jokes: seq<JokeRow>)
    ensures var students := TimelineStudents(jokes);
      && NoDuplicates(students)
      && (forall k :: 0 <= k < |jokes| ==> jokes[k].student in students)
      && (forall i :: 0 <= i < |students| ==> exists k :: 0 <= k < |jokes| && jokes[k].student == students[i])
  {
    var names := StudentColumn(Scored(jokes));
    var students := TimelineStudents(jokes);
    forall k | 0 <= k < |jokes|
      ensures jokes[k].student in students
    {
      assert names[k] == jokes[k].student;
    }
    forall i | 0 <= i < |students|
      ensures exists k :: 0 <= k < |jokes| && jokes[k].student == students[i]
    {
      var k :| 0 <= k < |names| && names[k] == students[i];
      assert jokes[k].student == names[k];
    }
  }

  // ---------------------------------------------------------------
  // Values of the grid
  // ---------------------------------------------------------------

  /** With non-negative values, a student's score up to a date never goes down as the date moves later. */
  lemma {:induction false} TotalUpToMonotone(rows: seq<CountRow>, s: Student, d1: Date, d2: Date)
    requires NonNegative(rows) && Leq(d1, d2)
    ensures TotalUpTo(rows, s, d1) <= TotalUpTo(rows, s, d2)
  {
    if rows != [] {
      assert NonNegative(rows[1..]) by {
        forall i | 0 <= i < |rows| - 1 ensures rows[1..][i].value >= 0 {
          assert rows[1..][i] == rows[i + 1];
        }
      }
      TotalUpToMonotone(rows[1..], s, d1, d2);
      if Leq(rows[0].date, d1) {
        LeqTransitive(rows[0].date, d1, d2);
      }
    }
  }

  /** At a date no row is later than, the score up to that date is the student's whole total. */
  lemma {:induction false} TotalUpToAll(rows: seq<CountRow>, s: Student, d: Date)
    requires forall k :: 0 <= k < |rows| ==> Leq(rows[k].date, d)
    ensures TotalUpTo(rows, s, d) == Total(rows, s)
  {
    if rows != [] {
      assert forall k :: 0 <= k < |rows| - 1 ==> rows[1..][k] == rows[k + 1];
      TotalUpToAll(rows[1..], s, d);
    }
  }

  /** For a fixed student, a grid over dates in order never goes down from one date to a later one. */
  lemma GridMonotone(rows: seq<CountRow>, dates: seq<Date>, students: seq<Student>, i1: nat, i2: nat, j: nat)
    requires NonNegative(rows)
    requires forall a, b :: 0 <= a < b < |dates| ==> Leq(dates[a], dates[b])
    requires i1 <= i2 < |dates| && j < |students|
    ensures var m := |students|;
      Slot(i1, j, m) < |Grid(rows, dates, students)| && Slot(i2, j, m) < |Grid(rows, dates, students)| &&
      Grid(rows, dates, students)[Slot(i1, j, m)].cumulative <= Grid(rows, dates, students)[Slot(i2, j, m)].cumulative
  {
    GridAt(rows, dates, students, i1, j);
    GridAt(rows, dates, students, i2, j);
    if i1 < i2 {
      TotalUpToMonotone(rows, students[j], dates[i1], dates[i2]);
    } else {
      LeqReflexive(dates[i1]);
    }
  }

  /** When every row is dated at or before the last date, a student's grid entry at that date is the student's total. */
  lemma GridFinal(rows: seq<CountRow>, dates: seq<Date>, students: seq<Student>, j: nat)
    requires dates != [] && j < |students|
    requires forall k :: 0 <= k < |rows| ==> Leq(rows[k].date, dates[|dates| - 1])
    ensures Slot(|dates| - 1, j, |students|) < |Grid(rows, dates, students)|
    ensures Grid(rows, dates, students)[Slot(|dates| - 1, j, |students|)].cumulative == Total(rows, students[j]) as real
  {
    GridAt(rows, dates, students, |dates| - 1, j);
    TotalUpToAll(rows, students[j], dates[|dates| - 1]);
  }

  /** The joke race has one entry per (date, student) pair, date-major, each the student's score up to that date. */
  lemma JokeRaceAt(jokes: seq<JokeRow>, i: nat, j: nat)
    requires i < |TimelineDates(jokes)| && j < |TimelineStudents(jokes)|
    ensures var dates, students := TimelineDates(jokes), TimelineStudents(jokes);
      && |JokeRace(jokes)| == |dates| * |students|
      && Slot(i, j, |students|) < |JokeRace(jokes)|
      && JokeRace(jokes)[Slot(i, j, |students|)] ==
           RacePoint(dates[i], students[j], TotalUpTo(Scored(jokes), students[j], dates[i]) as real)
  {
    GridAt(Scored(jokes), TimelineDates(jokes), TimelineStudents(jokes), i, j);
  }

  /** For a fixed student the joke race never goes down from one date to a later one. */
  lemma JokeRaceMonotone(jokes: seq<JokeRow>, i1: nat, i2: nat, j: nat)
    requires i1 <= i2 < |TimelineDates(jokes)| && j < |TimelineStudents(jokes)|
    ensures var m := |TimelineStudents(jokes)|;
      Slot(i1, j, m) < |JokeRace(jokes)| && Slot(i2, j, m) < |JokeRace(jokes)| &&
      JokeRace(jokes)[Slot(i1, j, m)].cumulative <= JokeRace(jokes)[Slot(i2, j, m)].cumulative
  {
    TimelineDatesIncreasing(jokes);
    GridMonotone(Scored(jokes), TimelineDates(jokes), TimelineStudents(jokes), i1, i2, j);
  }

  /** In a sorted list of dates that holds every row's date, the last one is at or after every row's date. */
  lemma LastDateIsLatest(rows: seq<CountRow>, dates: seq<Date>)
    requires dates != []
    requires forall a, b :: 0 <= a < b < |dates| ==> Leq(dates[a], dates[b])
    requires forall k :: 0 <= k < |rows| ==> rows[k].date in dates
    ensures forall k :: 0 <= k < |rows| ==> Leq(rows[k].date, dates[|dates| - 1])
  {
    forall k | 0 <= k < |rows|
      ensures Leq(rows[k].date, dates[|dates| - 1])
    {
      var q :| 0 <= q < |dates| && dates[q] == rows[k].date;
      if q == |dates| - 1 {
        LeqReflexive(dates[q]);
      }
    }
  }

  lemma ScoredDatesInTimeline(jokes: seq<JokeRow>)
    ensures forall k :: 0 <= k < |Scored(jokes)| ==> Scored(jokes)[k].date in TimelineDates(jokes)
  {
    TimelineDatesExact(jokes);
    assert forall k :: 0 <= k < |jokes| ==> Scored(jokes)[k].date == jokes[k].date;
  }

  /** At the last date each student's race entry is that student's laughter score of the bar chart. */
  lemma JokeRaceFinal(jokes: seq<JokeRow>, j: nat)
    requires j < |TimelineStudents(jokes)|
    ensures var dates, students := TimelineDates(jokes), TimelineStudents(jokes);
      && |dates| > 0
      && students[j] in LaughterScores(jokes)
      && Slot(|dates| - 1, j, |students|) < |JokeRace(jokes)|
      && JokeRace(jokes)[Slot(|dates| - 1, j, |students|)].cumulative == LaughterScores(jokes)[students[j]] as real
  {
    var dates, students := TimelineDates(jokes), TimelineStudents(jokes);
    var rows := Scored(jokes);
    TimelineStudentsExact(jokes);
    var k :| 0 <= k < |jokes| && jokes[k].student == students[j];
    ScoredDatesInTimeline(jokes);
    assert rows[k].date in dates && rows[k].student == students[j];
    TimelineDatesIncreasing(jokes);
    LastDateIsLatest(rows, dates);
    GridFinal(rows, dates, students, j);
    assert students[j] in StudentsOf(rows);
  }
}
