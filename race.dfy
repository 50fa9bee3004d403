/**
 * Race: the third tab of re_solution.py (lines 256-358). One category is
 * raced at a time; its series of race points is drawn with a fixed axis
 * ceiling, and the winner is announced as the student with the highest
 * peak, together with that peak.
 *
 * `animation_data.groupby('student_name')['cumulative'].max()` is the peak
 * of every student, listed by the group-by in increasing order of name;
 * `.idxmax()` returns the first name with the largest peak, and `.max()`
 * that largest peak.
 */
module Race {
  import opened Tables
  import opened Keys
  import opened Aggregates
  import opened Running
  import opened Timeline

  /** The students that have at least one race point. */
  function Racers(points: seq<RacePoint>): set<Student>
  {
    set k | 0 <= k < |points| :: points[k].student
  }

  /** A student's largest cumulative value over the whole race. */
  function Peak(points: seq<RacePoint>, s: Student): (p: real)
    requires s in Racers(points)
    ensures exists k :: 0 <= k < |points| && points[k].student == s && points[k].cumulative == p
    ensures forall k :: 0 <= k < |points| && points[k].student == s ==> points[k].cumulative <= p
  {
    var rest := points[1..];
    assert forall k :: 1 <= k < |points| ==> points[k] == rest[k - 1];
    if s !in Racers(rest) then
      points[0].cumulative
    else
      var q := Peak(rest, s);
      if points[0].student == s && points[0].cumulative > q then points[0].cumulative else q
  }

  /** The `student_name` column of the race. */
  function RacerColumn(points: seq<RacePoint>): (c: seq<Student>)
    ensures |c| == |points|
  {
    seq(|points|, k requires 0 <= k < |points| => points[k].student)
  }

  /** The group-by keys: every racer once, in increasing order of name. */
  function GroupKeys(points: seq<RacePoint>): seq<Student>
  {
    SortedUnique(RacerColumn(points))
  }

  lemma GroupKeysExact(points: seq<RacePoint>)
    ensures var keys := GroupKeys(points);
      && (forall i, j :: 0 <= i < j < |keys| ==> Leq(keys[i], keys[j]) && keys[i] != keys[j])
      && (forall i :: 0 <= i < |keys| ==> keys[i] in Racers(points))
      && (forall s :: s in Racers(points) ==> s in keys)
  {
    var column := RacerColumn(points);
    SortedUniqueExact(column);
    assert forall k :: 0 <= k < |points| ==> column[k] == points[k].student;
  }

  /** The peak of every key, in key order: `groupby(...)['cumulative'].max()`. */
  function Peaks(keys: seq<Student>, points: seq<RacePoint>): (v: seq<real>)
    requires forall k :: 0 <= k < |keys| ==> keys[k] in Racers(points)
    ensures |v| == |keys|
    ensures forall k :: 0 <= k < |keys| ==> v[k] == Peak(points, keys[k])
  {
    seq(|keys|, k requires 0 <= k < |keys| => Peak(points, keys[k]))
  }

  /** `idxmax`: the position of the first largest value. */
  function IdxMax(v: seq<real>): (idx: nat)
    requires v != []
    ensures idx < |v|
    ensures forall k :: 0 <= k < |v| ==> v[k] <= v[idx]
    ensures forall k :: 0 <= k < idx ==> v[k] < v[idx]
  {
    if |v| == 1 then 0
    else
      var b := 1 + IdxMax(v[1..]);
      assert forall k :: 1 <= k < |v| ==> v[k] == v[1..][k - 1];
      if v[0] >= v[b] then 0 else b
  }

  /**
   * `w` wins: it races, no racer peaks higher, and among the racers with
   * the same peak it has the smallest name.
   */
  ghost predicate IsWinner(points: seq<RacePoint>, w: Student)
  {
    && w in Racers(points)
    && forall c :: c in Racers(points) ==>
         && Peak(points, c) <= Peak(points, w)
         && (Peak(points, c) == Peak(points, w) ==> Leq(w, c))
  }

  /** `groupby(...).max().idxmax()`; there is no winner of an empty race. */
  function Winner(points: seq<RacePoint>): (r: Option<Student>)
    ensures r.None? <==> points == []
    ensures r.Some? ==> IsWinner(points, r.value)
  {
    if points == [] then None
    else
      var keys := GroupKeys(points);
      GroupKeysExact(points);
      assert points[0].student in Racers(points);
      WinnerFromIdxMax(points, keys);
      Some(keys[IdxMax(Peaks(keys, points))])
  }

  lemma WinnerFromIdxMax(points: seq<RacePoint>, keys: seq<Student>)
    requires keys != []
    requires forall i, j :: 0 <= i < j < |keys| ==> Leq(keys[i], keys[j]) && keys[i] != keys[j]
    requires forall i :: 0 <= i < |keys| ==> keys[i] in Racers(points)
    requires forall s :: s in Racers(points) ==> s in keys
    ensures IsWinner(points, keys[IdxMax(Peaks(keys, points))])
  {
    var idx := IdxMax(Peaks(keys, points));
    var w := keys[idx];
    forall c | c in Racers(points)
      ensures Peak(points, c) <= Peak(points, w)
      ensures Peak(points, c) == Peak(points, w) ==> Leq(w, c)
    {
      var k :| 0 <= k < |keys| && keys[k] == c;
      if k == idx {
        LeqReflexive(w);
      }
    }
  }

  /** The winner is determined by the race alone: there is only one. */
  lemma WinnerUnique(points: seq<RacePoint>, w1: Student, w2: Student)
    requires IsWinner(points, w1) && IsWinner(points, w2)
    ensures w1 == w2
  {
    LeqAntisymmetric(w1, w2);
  }

  /** The largest cumulative value of the whole race. */
  function Top(points: seq<RacePoint>): (t: real)
    requires points != []
    ensures exists k :: 0 <= k < |points| && points[k].cumulative == t
    ensures forall k :: 0 <= k < |points| ==> points[k].cumulative <= t
  {
    if |points| == 1 then points[0].cumulative
    else
      var rest := points[1..];
      assert forall k :: 1 <= k < |points| ==> points[k] == rest[k - 1];
      var q := Top(rest);
      if points[0].cumulative > q then points[0].cumulative else q
  }

  /** `groupby(...).max().max()`; there is no winning score of an empty race. */
  function WinnerScore(points: seq<RacePoint>): Option<real>
  {
    if points == [] then None else Some(Top(points))
  }

  /** The announced score is the announced winner's own peak. */
  lemma WinnerScoreIsWinnersPeak(points: seq<RacePoint>)
    ensures WinnerScore(points).Some? <==> Winner(points).Some?
    ensures Winner(points).Some? ==>
      && Winner(points).value in Racers(points)
      && WinnerScore(points).value == Peak(points, Winner(points).value)
  {
    if points != [] {
      TopIsWinnersPeak(points, Winner(points).value);
    }
  }

  /** The largest value of the race is the peak of any winner. */
  lemma TopIsWinnersPeak(points: seq<RacePoint>, w: Student)
    requires points != [] && IsWinner(points, w)
    ensures Top(points) == Peak(points, w)
  {
    var t := Top(points);
    var k :| 0 <= k < |points| && points[k].cumulative == t;
    var c := points[k].student;
    assert c in Racers(points);
    assert t <= Peak(points, c) <= Peak(points, w);
    var kw :| 0 <= kw < |points| && points[kw].student == w && points[kw].cumulative == Peak(points, w);
    assert points[kw].cumulative <= t;
  }

  // ---------------------------------------------------------------
  // Categories
  // ---------------------------------------------------------------

  datatype Category = PullUps | DadJokes | Vocabulary

  /** The fixed top of the y axis (`max_value`, lines 280, 313 and 318). */
  function Ceiling(c: Category): (m: real)
    ensures m > 0.0
  {
    match c
    case PullUps => 12.0
    case DadJokes => 16.0
    case Vocabulary => 300.0
  }

  /** The race points of a category (lines 272-318). */
  function CategoryRace(c: Category, pullups: seq<CountRow>, jokes: seq<JokeRow>, vocab: seq<CountRow>): (r: seq<RacePoint>)
    ensures c == PullUps ==> |r| == |pullups|
    ensures c == DadJokes ==> |r| == |TimelineDates(jokes)| * |TimelineStudents(jokes)|
    ensures c == Vocabulary ==> |r| == |vocab|
  {
    match c
    case PullUps =>
      assert |SortBy(pullups, DateKey)| == |pullups|;
      PullupRace(pullups)
    case DadJokes =>
      GridLength(Scored(jokes), TimelineDates(jokes), TimelineStudents(jokes));
      JokeRace(jokes)
    case Vocabulary =>
      VocabRace(vocab)
  }

  /** No bar is cut off by the axis exactly when the winning score stays under the ceiling. */
  lemma CeilingClipsIff(points: seq<RacePoint>, c: Category)
    ensures (forall k :: 0 <= k < |points| ==> points[k].cumulative <= Ceiling(c)) <==>
      (WinnerScore(points).None? || WinnerScore(points).value <= Ceiling(c))
  {
    if points != [] {
      var k :| 0 <= k < |points| && points[k].cumulative == Top(points);
    }
  }

  /** The ceiling is not derived from the data: one student with 301 flashcards already rises above it. */
  lemma VocabularyCeilingCanClip()
    ensures var vocab := [CountRow("Kai", "2026-01-05", 301)];
      VocabRace(vocab)[0].cumulative > Ceiling(Vocabulary)
  {
    var vocab := [CountRow("Kai", "2026-01-05", 301)];
    VocabRaceAt(vocab, 0);
    assert vocab[..1] == vocab;
  }

  // ---------------------------------------------------------------
  // Peaks of the flashcard and joke races
  // ---------------------------------------------------------------

  /** The racers of the flashcard race are the students of the table. */
  lemma VocabRacers(vocab: seq<CountRow>)
    ensures Racers(VocabRace(vocab)) == StudentsOf(vocab)
  {
    forall k | 0 <= k < |vocab|
      ensures VocabRace(vocab)[k].student == vocab[k].student
    {
      VocabRaceAt(vocab, k);
    }
  }

  /** With non-negative counts a student's running sum never exceeds the student's total. */
  lemma PrefixAtMostTotal(rows: seq<CountRow>, n: nat, s: Student)
    requires NonNegative(rows) && n <= |rows|
    ensures Total(rows[..n], s) <= Total(rows, s)
  {
    assert rows == rows[..n] + rows[n..];
    SumAppend(rows[..n], rows[n..], s, Values);
    assert NonNegative(rows[n..]) by {
      forall k | 0 <= k < |rows| - n ensures rows[n..][k].value >= 0 {
        assert rows[n..][k] == rows[n + k];
      }
    }
    SumNonNegative(rows[n..], s, Values);
  }

  /** With non-negative counts a student's flashcard peak is the student's total of the bar chart. */
  lemma VocabPeakIsTotal(vocab: seq<CountRow>, s: Student)
    requires NonNegative(vocab) && s in StudentsOf(vocab)
    ensures s in Racers(VocabRace(vocab)) && s in TotalVocab(vocab)
    ensures Peak(VocabRace(vocab), s) == TotalVocab(vocab)[s] as real
  {
    VocabRacers(vocab);
    var points := VocabRace(vocab);
    var i := LastRowOf(vocab, s);
    VocabRaceFinal(vocab, i);
    var kp :| 0 <= kp < |points| && points[kp].student == s && points[kp].cumulative == Peak(points, s);
    VocabRaceAt(vocab, kp);
    PrefixAtMostTotal(vocab, kp + 1, s);
  }

  /** The position of a student's last row. */
  lemma LastRowOf(rows: seq<CountRow>, s: Student) returns (i: nat)
    requires s in StudentsOf(rows)
    ensures i < |rows| && rows[i].student == s
    ensures forall j :: i < j < |rows| ==> rows[j].student != s
    decreases |rows|
  {
    var n := |rows| - 1;
    if rows[n].student == s {
      i := n;
    } else {
      assert s in StudentsOf(rows[..n]) by {
        var k :| 0 <= k < |rows| && rows[k].student == s;
        assert rows[..n][k] == rows[k];
      }
      i := LastRowOf(rows[..n], s);
      assert rows[..n][i] == rows[i];
    }
  }

  /** With non-negative counts the flashcard winner has the largest total of the bar chart, smallest name on a tie. */
  lemma VocabWinnerHasTopTotal(vocab: seq<CountRow>)
    requires NonNegative(vocab) && vocab != []
    ensures Winner(VocabRace(vocab)).Some?
    ensures var w := Winner(VocabRace(vocab)).value;
      && w in TotalVocab(vocab)
      && forall s :: s in TotalVocab(vocab) ==>
           TotalVocab(vocab)[s] <= TotalVocab(vocab)[w] &&
           (TotalVocab(vocab)[s] == TotalVocab(vocab)[w] ==> Leq(w, s))
  {
    VocabRaceAt(vocab, 0);
    var points := VocabRace(vocab);
    VocabRacers(vocab);
    var w := Winner(points).value;
    VocabPeakIsTotal(vocab, w);
    forall s | s in TotalVocab(vocab)
      ensures TotalVocab(vocab)[s] <= TotalVocab(vocab)[w]
      ensures TotalVocab(vocab)[s] == TotalVocab(vocab)[w] ==> Leq(w, s)
    {
      VocabPeakIsTotal(vocab, s);
    }
  }

  /** Every position of a date-major grid with `m` entries per date is some slot. */
  lemma SlotOf(k: nat, n: nat, m: nat) returns (i: nat, j: nat)
    requires k < n * m
    ensures i < n && j < m && k == Slot(i, j, m)
  {
    assert m > 0;
    i, j := k / m, k % m;
    if i >= n {
      MulMono(n, i, m);
    }
  }

  /** The racers of a grid over at least one date are its students. */
  lemma GridRacers(rows: seq<CountRow>, dates: seq<Date>, students: seq<Student>)
    requires dates != []
    ensures forall s :: s in Racers(Grid(rows, dates, students)) <==> s in students
  {
    var points := Grid(rows, dates, students);
    GridLength(rows, dates, students);
    forall s | s in Racers(points)
      ensures s in students
    {
      var p :| 0 <= p < |points| && points[p].student == s;
      var i, j := SlotOf(p, |dates|, |students|);
      GridAt(rows, dates, students, i, j);
    }
    forall j | 0 <= j < |students|
      ensures students[j] in Racers(points)
    {
      GridAt(rows, dates, students, 0, j);
    }
  }

  /**
   * In a grid over sorted dates that reach every row, with non-negative
   * values and each student once, a student's peak is the student's total.
   */
  lemma GridPeak(rows: seq<CountRow>, dates: seq<Date>, students: seq<Student>, j: nat)
    requires NonNegative(rows) && NoDuplicates(students) && j < |students|
    requires dates != [] && forall a, b :: 0 <= a < b < |dates| ==> Leq(dates[a], dates[b])
    requires forall k :: 0 <= k < |rows| ==> Leq(rows[k].date, dates[|dates| - 1])
    ensures students[j] in Racers(Grid(rows, dates, students))
    ensures Peak(Grid(rows, dates, students), students[j]) == Total(rows, students[j]) as real
  {
    var points := Grid(rows, dates, students);
    var last := |dates| - 1;
    GridRacers(rows, dates, students);
    GridFinal(rows, dates, students, j);
    GridAt(rows, dates, students, last, j);
    var s := students[j];
    var p :| 0 <= p < |points| && points[p].student == s && points[p].cumulative == Peak(points, s);
    GridLength(rows, dates, students);
    var i, j' := SlotOf(p, |dates|, |students|);
    GridAt(rows, dates, students, i, j');
    GridMonotone(rows, dates, students, i, last, j);
  }

  /** `GridPeak`, for a student given by name. */
  lemma GridPeakOf(rows: seq<CountRow>, dates: seq<Date>, students: seq<Student>, s: Student)
    requires NonNegative(rows) && NoDuplicates(students) && s in students
    requires dates != [] && forall a, b :: 0 <= a < b < |dates| ==> Leq(dates[a], dates[b])
    requires forall k :: 0 <= k < |rows| ==> Leq(rows[k].date, dates[|dates| - 1])
    ensures s in Racers(Grid(rows, dates, students))
    ensures Peak(Grid(rows, dates, students), s) == Total(rows, s) as real
  {
    var j :| 0 <= j < |students| && students[j] == s;
    GridPeak(rows, dates, students, j);
  }

  /** The joke race is a grid of the kind `GridPeak` speaks about: its dates. */
  lemma JokeRaceDates(jokes: seq<JokeRow>)
    requires Scored(jokes) != []
    ensures var rows, dates := Scored(jokes), TimelineDates(jokes);
      && dates != [] && (forall a, b :: 0 <= a < b < |dates| ==> Leq(dates[a], dates[b]))
      && (forall k :: 0 <= k < |rows| ==> Leq(rows[k].date, dates[|dates| - 1]))
  {
    ScoredDatesInTimeline(jokes);
    TimelineDatesIncreasing(jokes);
    DatesReachAll(Scored(jokes), TimelineDates(jokes));
  }

  /** Increasing dates that hold every row's date, for at least one row, end at or after every row. */
  lemma DatesReachAll(rows: seq<CountRow>, dates: seq<Date>)
    requires rows != []
    requires forall k :: 0 <= k < |rows| ==> rows[k].date in dates
    requires forall a, b :: 0 <= a < b < |dates| ==> Leq(dates[a], dates[b]) && dates[a] != dates[b]
    ensures dates != [] && forall a, b :: 0 <= a < b < |dates| ==> Leq(dates[a], dates[b])
    ensures forall k :: 0 <= k < |rows| ==> Leq(rows[k].date, dates[|dates| - 1])
  {
    assert rows[0].date in dates;
    LastDateIsLatest(rows, dates);
  }

  /** Every joke teller is a student of the timeline, and each appears there once. */
  lemma TellersInTimeline(jokes: seq<JokeRow>)
    ensures NoDuplicates(TimelineStudents(jokes))
    ensures forall s :: s in StudentsOf(Scored(jokes)) ==> s in TimelineStudents(jokes)
  {
    var rows, students := Scored(jokes), TimelineStudents(jokes);
    TimelineStudentsExact(jokes);
    forall s | s in StudentsOf(rows)
      ensures s in students
    {
      var k :| 0 <= k < |rows| && rows[k].student == s;
      assert jokes[k].student == s;
    }
  }

  /** Every student of the timeline told a joke. */
  lemma TimelineStudentsTell(jokes: seq<JokeRow>)
    ensures forall s :: s in TimelineStudents(jokes) ==> s in StudentsOf(Scored(jokes))
  {
    var rows, students := Scored(jokes), TimelineStudents(jokes);
    TimelineStudentsExact(jokes);
    forall s | s in students
      ensures s in StudentsOf(rows)
    {
      var i :| 0 <= i < |students| && students[i] == s;
      var k :| 0 <= k < |jokes| && jokes[k].student == s;
      assert rows[k].student == s;
    }
  }

  /** A student's joke race peak is the student's laughter score of the bar chart. */
  lemma JokePeakIsLaughterScore(jokes: seq<JokeRow>, s: Student)
    requires s in StudentsOf(Scored(jokes))
    ensures s in Racers(JokeRace(jokes)) && s in LaughterScores(jokes)
    ensures Peak(JokeRace(jokes), s) == LaughterScores(jokes)[s] as real
  {
    TellersInTimeline(jokes);
    JokeRaceDates(jokes);
    ScoredNonNegative(jokes);
    GridPeakOf(Scored(jokes), TimelineDates(jokes), TimelineStudents(jokes), s);
  }

  /** The joke race winner has the largest laughter score of the bar chart, smallest name on a tie. */
  lemma JokeWinnerHasTopScore(jokes: seq<JokeRow>)
    requires jokes != []
    ensures Winner(JokeRace(jokes)).Some?
    ensures var w := Winner(JokeRace(jokes)).value;
      && w in LaughterScores(jokes)
      && forall s :: s in LaughterScores(jokes) ==>
           LaughterScores(jokes)[s] <= LaughterScores(jokes)[w] &&
           (LaughterScores(jokes)[s] == LaughterScores(jokes)[w] ==> Leq(w, s))
  {
    var rows, dates, students := Scored(jokes), TimelineDates(jokes), TimelineStudents(jokes);
    var points := JokeRace(jokes);
    TellersInTimeline(jokes);
    TimelineStudentsTell(jokes);
    JokeRaceDates(jokes);
    GridRacers(rows, dates, students);
    assert rows[0].student in StudentsOf(rows);
    assert points != [];
    var w := Winner(points).value;
    JokePeakIsLaughterScore(jokes, w);
    forall s | s in LaughterScores(jokes)
      ensures LaughterScores(jokes)[s] <= LaughterScores(jokes)[w]
      ensures LaughterScores(jokes)[s] == LaughterScores(jokes)[w] ==> Leq(w, s)
    {
      JokePeakIsLaughterScore(jokes, s);
    }
  }

  /** Two days of pull-ups by one student: 10, then 2. */
  function TenThenTwo(): seq<CountRow>
  {
    [CountRow("Kai", "1", 10), CountRow("Kai", "2", 2)]
  }

  lemma TenThenTwoSorted()
    ensures SortBy(TenThenTwo(), DateKey) == TenThenTwo()
  {
    var p := TenThenTwo();
    assert p[1..] == [p[1]];
    assert [p[1]][1..] == [];
    assert SortBy([p[1]], DateKey) == [p[1]];
    assert Leq(DateKey(p[0]), DateKey(p[1]));
  }

  lemma TenThenTwoMeans()
    ensures |MeanSeries(TenThenTwo())| == 2
    ensures MeanSeries(TenThenTwo())[0].cumulative == 10.0
    ensures MeanSeries(TenThenTwo())[1].cumulative == 6.0
  {
    var p := TenThenTwo();
    MeanSeriesAt(p, 0);
    MeanSeriesAt(p, 1);
    assert p[..1] == [p[0]] && p[..2] == p;
    assert Total(p[..1], "Kai") == 10 && Count(p[..1], "Kai") == 1;
    assert Total(p, "Kai") == 12 && Count(p, "Kai") == 2;
  }

  lemma TenThenTwoRace()
    ensures |PullupRace(TenThenTwo())| == 2
    ensures PullupRace(TenThenTwo())[0].student == "Kai"
    ensures PullupRace(TenThenTwo())[0].cumulative == 10.0
    ensures PullupRace(TenThenTwo())[1].cumulative == 6.0
  {
    TenThenTwoSorted();
    TenThenTwoMeans();
    MeanSeriesAt(TenThenTwo(), 0);
  }

  lemma TenThenTwoAverage()
    ensures "Kai" in AveragePullups(TenThenTwo())
    ensures AveragePullups(TenThenTwo())["Kai"] == 6.0
  {
    var pullups := TenThenTwo();
    assert pullups[0].student in StudentsOf(pullups);
    assert Count(pullups, "Kai") == 2 && Total(pullups, "Kai") == 12;
  }

  /**
   * The pull-up winner score is the best running mean, which need not be
   * the student's average: 10 then 2 pull-ups peak at 10.0 against a mean of 6.0.
   */
  lemma PullupPeakCanExceedAverage()
    ensures "Kai" in Racers(PullupRace(TenThenTwo())) && "Kai" in AveragePullups(TenThenTwo())
    ensures Peak(PullupRace(TenThenTwo()), "Kai") == 10.0
    ensures AveragePullups(TenThenTwo())["Kai"] == 6.0
  {
    var points := PullupRace(TenThenTwo());
    TenThenTwoRace();
    TenThenTwoAverage();
    assert points[0].student == "Kai";
  }
}
