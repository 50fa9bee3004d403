/**
 * Aggregates: the per-student reductions of the overall comparison
 * (re_solution.py lines 34-50) and the single-student joke view
 * (lines 168-202).
 *
 * A group-by reduction sums one measure of a student's rows: the numeric
 * column (`sum`), the number of rows (`count`, `cumcount`), or the number
 * of rows whose value is above zero (`(score > 0).sum()`).
 */
module Aggregates {
  import opened Tables

  /** What a row contributes: its value, one, or one when its value is above zero. */
  datatype Measure = Values | Rows | Hits

  function Weight(r: CountRow, m: Measure): int
  {
    match m
    case Values => r.value
    case Rows => 1
    case Hits => if r.value > 0 then 1 else 0
  }

  /** The part of a student's sum that one row contributes. */
  function Share(r: CountRow, s: Student, m: Measure): int
  {
    if r.student == s then Weight(r, m) else 0
  }

  /** The sum of measure `m` over the rows of student `s`. */
  function Sum(rows: seq<CountRow>, s: Student, m: Measure): int
  {
    if rows == [] then 0 else Share(rows[0], s, m) + Sum(rows[1..], s, m)
  }

  /** The sum of a student's values. */
  function Total(rows: seq<CountRow>, s: Student): int
  {
    Sum(rows, s, Values)
  }

  /** The number of a student's rows. */
  function Count(rows: seq<CountRow>, s: Student): nat
  {
    SumNonNegative(rows, s, Rows);
    Sum(rows, s, Rows)
  }

  /** A student without rows sums to zero; a student has rows exactly when the student's count is positive. */
  lemma {:induction false} SumAbsent(rows: seq<CountRow>, s: Student, m: Measure)
    ensures s !in StudentsOf(rows) ==> Sum(rows, s, m) == 0
    ensures m == Rows ==> (Sum(rows, s, m) > 0 <==> s in StudentsOf(rows))
    ensures m == Rows ==> Sum(rows, s, m) <= |rows|
  {
    if rows != [] {
      SumAbsent(rows[1..], s, m);
      if m == Rows {
        SumNonNegative(rows[1..], s, m);
      }
      assert StudentsOf(rows) == {rows[0].student} + StudentsOf(rows[1..]) by {
        assert forall i :: 0 < i < |rows| ==> rows[i] == rows[1..][i - 1];
      }
    }
  }

  /** Sums are additive over concatenated tables. */
  lemma {:induction false} SumAppend(a: seq<CountRow>, b: seq<CountRow>, s: Student, m: Measure)
    ensures Sum(a + b, s, m) == Sum(a, s, m) + Sum(b, s, m)
  {
    if a == [] {
      assert a + b == b;
    } else {
      assert (a + b)[1..] == a[1..] + b;
      SumAppend(a[1..], b, s, m);
    }
  }

  /** A student's sum of a non-negative measure is non-negative. */
  lemma {:induction false} SumNonNegative(rows: seq<CountRow>, s: Student, m: Measure)
    requires m == Values ==> NonNegative(rows)
    ensures Sum(rows, s, m) >= 0
  {
    if rows != [] {
      SumNonNegative(rows[1..], s, m);
    }
  }

  lemma SumRemove(b: seq<CountRow>, k: nat, s: Student, m: Measure)
    requires k < |b|
    ensures Sum(b, s, m) == Share(b[k], s, m) + Sum(b[..k] + b[k + 1..], s, m)
  {
    assert b == b[..k] + ([b[k]] + b[k + 1..]);
    SumAppend(b[..k], [b[k]] + b[k + 1..], s, m);
    SumAppend(b[..k], b[k + 1..], s, m);
  }

  lemma MultisetRemove(a: seq<CountRow>, b: seq<CountRow>, k: nat)
    requires a != [] && k < |b| && b[k] == a[0]
    requires multiset(a) == multiset(b)
    ensures multiset(a[1..]) == multiset(b[..k] + b[k + 1..])
  {
    assert a == [a[0]] + a[1..];
    assert b == b[..k] + [b[k]] + b[k + 1..];
    assert multiset(b) == multiset(b[..k]) + multiset{b[k]} + multiset(b[k + 1..]);
    assert multiset(a) == multiset{a[0]} + multiset(a[1..]);
    assert multiset(b[..k] + b[k + 1..]) == multiset(b[..k]) + multiset(b[k + 1..]);
    assert multiset(a[1..]) == multiset(a) - multiset{a[0]};
  }

  /** A sum does not depend on the order of the rows. */
  lemma {:induction false} SumPermutation(a: seq<CountRow>, b: seq<CountRow>, s: Student, m: Measure)
    requires multiset(a) == multiset(b)
    ensures Sum(a, s, m) == Sum(b, s, m)
    decreases |a|
  {
    if a == [] {
      assert |b| == |multiset(b)| == 0;
    } else {
      assert a[0] in multiset(b);
      var k :| 0 <= k < |b| && b[k] == a[0];
      MultisetRemove(a, b, k);
      SumPermutation(a[1..], b[..k] + b[k + 1..], s, m);
      SumRemove(b, k, s, m);
    }
  }

  /** `groupby('student_name')[...].sum()`: one total per student that has rows. */
  function GroupSum(rows: seq<CountRow>): (g: map<Student, int>)
    ensures g.Keys == StudentsOf(rows)
    ensures forall s :: s in g ==> g[s] == Total(rows, s)
  {
    map s | s in StudentsOf(rows) :: Total(rows, s)
  }

  /** `groupby('student_name')[...].mean()`: one mean per student that has rows. */
  function GroupMean(rows: seq<CountRow>): (g: map<Student, real>)
    ensures g.Keys == StudentsOf(rows)
    ensures forall s :: s in g ==> Count(rows, s) > 0 && g[s] * Count(rows, s) as real == Total(rows, s) as real
  {
    MeanTimesCount(rows);
    map s | s in StudentsOf(rows) :: Total(rows, s) as real / Count(rows, s) as real
  }

  lemma MeanTimesCount(rows: seq<CountRow>)
    ensures forall s :: s in StudentsOf(rows) ==>
      && Count(rows, s) > 0
      && Total(rows, s) as real / Count(rows, s) as real * Count(rows, s) as real == Total(rows, s) as real
  {
    forall s | s in StudentsOf(rows)
      ensures Count(rows, s) > 0
      ensures Total(rows, s) as real / Count(rows, s) as real * Count(rows, s) as real == Total(rows, s) as real
    {
      SumAbsent(rows, s, Rows);
      DivTimes(Total(rows, s), Count(rows, s));
    }
  }

  lemma DivTimes(t: int, n: int)
    requires n > 0
    ensures t as real / n as real * n as real == t as real
  {
  }

  /** Average pull-ups per day, per student (line 36). */
  function AveragePullups(pullups: seq<CountRow>): map<Student, real>
  {
    GroupMean(pullups)
  }

  /**
   * Weighted laughter score per student that told a joke (lines 39-47):
   * the same number the joke view of that student sums (line 183).
   */
  function LaughterScores(jokes: seq<JokeRow>): (r: map<Student, int>)
    ensures forall s :: s in r ==> r[s] == ScoreSum(JokesOf(jokes, s))
  {
    ViewScores(jokes);
    GroupSum(Scored(jokes))
  }

  lemma ViewScores(jokes: seq<JokeRow>)
    ensures forall s :: ScoreSum(JokesOf(jokes, s)) == Total(Scored(jokes), s)
  {
    forall s
      ensures ScoreSum(JokesOf(jokes, s)) == Total(Scored(jokes), s)
    {
      JokeViewMatchesTable(jokes, s);
    }
  }

  /** Total flashcards per student (line 50). */
  function TotalVocab(vocab: seq<CountRow>): map<Student, int>
  {
    GroupSum(vocab)
  }

  /** Only students that told a joke appear in the laughter scores, each with a score between 0 and twice the jokes told. */
  lemma {:induction false} LaughterScoreBounds(jokes: seq<JokeRow>, s: Student)
    ensures s in LaughterScores(jokes) <==> exists i :: 0 <= i < |jokes| && jokes[i].student == s
    ensures s in LaughterScores(jokes) ==> 0 <= LaughterScores(jokes)[s] <= 2 * Count(Scored(jokes), s)
    ensures Total(Scored(jokes), s) == 0 <== (forall i :: 0 <= i < |jokes| ==> jokes[i].student != s)
  {
    var rows := Scored(jokes);
    assert forall i :: 0 <= i < |jokes| ==> rows[i].student == jokes[i].student;
    if s in StudentsOf(rows) {
      var i :| 0 <= i < |rows| && rows[i].student == s;
      assert jokes[i].student == s;
    }
    ScoreAtMostTwice(rows, s);
    SumNonNegative(rows, s, Values);
    SumAbsent(rows, s, Values);
  }

  lemma {:induction false} ScoreAtMostTwice(rows: seq<CountRow>, s: Student)
    requires forall i :: 0 <= i < |rows| ==> 0 <= rows[i].value <= 2
    ensures Total(rows, s) <= 2 * Count(rows, s)
  {
    if rows != [] {
      ScoreAtMostTwice(rows[1..], s);
    }
  }

  // ---------------------------------------------------------------
  // The single-student joke view (lines 168-202)
  // ---------------------------------------------------------------

  /** What the joke view shows for a student that told at least one joke. */
  datatype JokeStats = JokeStats(told: nat, score: nat, successes: nat, successRate: real)

  /** The rows of one student, in table order (line 169). */
  function JokesOf(jokes: seq<JokeRow>, s: Student): (r: seq<JokeRow>)
    ensures forall i :: 0 <= i < |r| ==> r[i].student == s
    ensures |r| == 0 <==> forall i :: 0 <= i < |jokes| ==> jokes[i].student != s
    ensures multiset(r) <= multiset(jokes)
    ensures |r| == Count(Scored(jokes), s)
  {
    if jokes == [] then []
    else
      var rest := JokesOf(jokes[1..], s);
      var r := if jokes[0].student == s then [jokes[0]] + rest else rest;
      SelectStep(jokes, s, rest, r);
      r
  }

  /** One step of the selection: keep the first row when it is the student's. */
  lemma SelectStep(jokes: seq<JokeRow>, s: Student, rest: seq<JokeRow>, r: seq<JokeRow>)
    requires jokes != []
    requires forall i :: 0 <= i < |rest| ==> rest[i].student == s
    requires |rest| == 0 <==> forall i :: 0 <= i < |jokes[1..]| ==> jokes[1..][i].student != s
    requires multiset(rest) <= multiset(jokes[1..])
    requires |rest| == Count(Scored(jokes[1..]), s)
    requires r == if jokes[0].student == s then [jokes[0]] + rest else rest
    ensures forall i :: 0 <= i < |r| ==> r[i].student == s
    ensures |r| == 0 <==> forall i :: 0 <= i < |jokes| ==> jokes[i].student != s
    ensures multiset(r) <= multiset(jokes)
    ensures |r| == Count(Scored(jokes), s)
  {
    assert jokes == [jokes[0]] + jokes[1..];
    ScoredCons(jokes, s, Rows);
  }

  /** The sum of the `score` column of a table of jokes (line 183). */
  function ScoreSum(jokes: seq<JokeRow>): nat
  {
    if jokes == [] then 0 else Score(jokes[0].reaction) + ScoreSum(jokes[1..])
  }

  /** The number of jokes whose score is above zero (line 202). */
  function Successes(jokes: seq<JokeRow>): nat
  {
    if jokes == [] then 0 else (if Score(jokes[0].reaction) > 0 then 1 else 0) + Successes(jokes[1..])
  }

  /** Every success scores 1 or 2 and every other joke 0. */
  lemma {:induction false} ScoreBetweenSuccesses(jokes: seq<JokeRow>)
    ensures Successes(jokes) <= ScoreSum(jokes) <= 2 * Successes(jokes)
    ensures Successes(jokes) <= |jokes|
  {
    if jokes != [] {
      ScoreBetweenSuccesses(jokes[1..]);
    }
  }

  /**
   * The joke view of one student: nothing when the student told no joke
   * (the warning of line 172), otherwise the count, the laughter score and
   * the success rate as a percentage.
   */
  function JokeSummary(jokes: seq<JokeRow>, s: Student): (r: Option<JokeStats>)
    ensures r.None? <==> forall i :: 0 <= i < |jokes| ==> jokes[i].student != s
    ensures r.Some? ==> r.value.told > 0 && r.value.successes <= r.value.told
    ensures r.Some? ==> r.value.successes <= r.value.score <= 2 * r.value.successes
    ensures r.Some? ==> 0.0 <= r.value.successRate <= 100.0
    ensures r.Some? ==> r.value.told == Count(Scored(jokes), s)
    ensures r.Some? ==> r.value.score == Total(Scored(jokes), s)
    ensures r.Some? ==> r.value.successes == Sum(Scored(jokes), s, Hits)
    ensures r.Some? ==> RateIsShare(r.value)
  {
    var mine := JokesOf(jokes, s);
    if |mine| == 0 then None
    else
      JokeViewFacts(jokes, s);
      Some(StatsOf(mine))
  }

  /** The success rate is the share of successes among the jokes told, times 100. */
  predicate RateIsShare(st: JokeStats)
  {
    st.successRate * st.told as real == st.successes as real * 100.0
  }

  /** The count, the score and the success rate of a non-empty table of jokes. */
  function StatsOf(mine: seq<JokeRow>): (r: JokeStats)
    requires mine != []
    ensures r.told == |mine| && r.score == ScoreSum(mine) && r.successes == Successes(mine)
    ensures 0.0 <= r.successRate <= 100.0
    ensures RateIsShare(r)
  {
    ScoreBetweenSuccesses(mine);
    JokeStats(|mine|, ScoreSum(mine), Successes(mine), SuccessRate(Successes(mine), |mine|))
  }

  /** The share of successful jokes as a percentage (line 202). */
  function SuccessRate(successes: nat, told: nat): (rate: real)
    requires 0 < told && successes <= told
    ensures 0.0 <= rate <= 100.0
    ensures rate * told as real == successes as real * 100.0
  {
    var q := successes as real / told as real;
    assert q * told as real == successes as real;
    assert q <= 1.0 by {
      if q > 1.0 {
        assert q * told as real > told as real;
      }
    }
    q * 100.0
  }

  lemma JokeViewFacts(jokes: seq<JokeRow>, s: Student)
    ensures var mine := JokesOf(jokes, s);
      && Successes(mine) <= ScoreSum(mine) <= 2 * Successes(mine)
      && Successes(mine) <= |mine|
      && ScoreSum(mine) == Total(Scored(jokes), s)
      && Successes(mine) == Sum(Scored(jokes), s, Hits)
  {
    ScoreBetweenSuccesses(JokesOf(jokes, s));
    JokeViewMatchesTable(jokes, s);
  }

  /** The first scored row, and the scored rows after it. */
  lemma ScoredCons(jokes: seq<JokeRow>, s: Student, m: Measure)
    requires jokes != []
    ensures Sum(Scored(jokes), s, m) ==
      Share(CountRow(jokes[0].student, jokes[0].date, Score(jokes[0].reaction)), s, m) + Sum(Scored(jokes[1..]), s, m)
  {
    assert Scored(jokes)[1..] == Scored(jokes[1..]);
  }

  /**
   * The score of the joke view is the student's sum of the score column,
   * the one the bar chart shows (lines 183 and 47), and its successes are
   * the student's rows with a score above zero (line 202).
   */
  lemma {:induction false} JokeViewMatchesTable(jokes: seq<JokeRow>, s: Student)
    ensures ScoreSum(JokesOf(jokes, s)) == Total(Scored(jokes), s)
    ensures Successes(JokesOf(jokes, s)) == Sum(Scored(jokes), s, Hits)
  {
    if jokes != [] {
      JokeViewMatchesTable(jokes[1..], s);
      ScoredCons(jokes, s, Values);
      ScoredCons(jokes, s, Hits);
    }
  }
}
