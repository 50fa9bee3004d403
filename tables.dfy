/**
 * Tables: the three loaded tables as sequences of rows, the reaction
 * tokens and the score a reaction earns.
 *
 * The pull-up table (`student_name`, `date`, `pullups`) and the vocabulary
 * table (`student_name`, `date`, `flashcards_solved`) share one row shape,
 * `CountRow`, whose `value` is the table's numeric column. The joke table
 * keeps its reaction and the joke text.
 */
module Tables {

  datatype Option<T> = None | Some(value: T)

  type Student = string
  type Date = string

  datatype CountRow = CountRow(student: Student, date: Date, value: int)

  datatype Reaction = Lmao | Lol | StraightFace | Angry | Disappointed

  datatype JokeRow = JokeRow(student: Student, date: Date, reaction: Reaction, joke: string)

  /** One entry of a race series: a student's cumulative value at a date. */
  datatype RacePoint = RacePoint(date: Date, student: Student, cumulative: real)

  /** The literal reaction token stored in the joke table. */
  function Token(r: Reaction): string
  {
    match r
    case Lmao => "\U{1F602} LMAO"
    case Lol => "\U{1F606} LOL"
    case StraightFace => "\U{1F610} STRAIGHT FACE"
    case Angry => "\U{1F620} ANGRY"
    case Disappointed => "\U{1F61E} DISAPPOINTED"
  }

  /** The reaction a token names; only the five tokens of the score table are known. */
  function ParseReaction(t: string): (r: Option<Reaction>)
    ensures forall x :: r == Some(x) <==> t == Token(x)
  {
    if t == Token(Lmao) then Some(Lmao)
    else if t == Token(Lol) then Some(Lol)
    else if t == Token(StraightFace) then Some(StraightFace)
    else if t == Token(Angry) then Some(Angry)
    else if t == Token(Disappointed) then Some(Disappointed)
    else None
  }

  /** The laughter score of a reaction, the one map used by every view. */
  function Score(r: Reaction): (n: nat)
    ensures n <= 2
    ensures n == 2 <==> r == Lmao
    ensures n == 1 <==> r == Lol
  {
    match r
    case Lmao => 2
    case Lol => 1
    case StraightFace => 0
    case Angry => 0
    case Disappointed => 0
  }

  /** The joke table with its `score` column, as numeric rows. */
  function Scored(jokes: seq<JokeRow>): seq<CountRow>
  {
    seq(|jokes|, i requires 0 <= i < |jokes| =>
      CountRow(jokes[i].student, jokes[i].date, Score(jokes[i].reaction)))
  }

  ghost predicate NonNegative(rows: seq<CountRow>)
  {
    forall i :: 0 <= i < |rows| ==> rows[i].value >= 0
  }

  lemma ScoredNonNegative(jokes: seq<JokeRow>)
    ensures NonNegative(Scored(jokes))
  {
  }

  /** The `student_name` column. */
  function StudentColumn(rows: seq<CountRow>): (c: seq<Student>)
    ensures |c| == |rows|
  {
    seq(|rows|, i requires 0 <= i < |rows| => rows[i].student)
  }

  /** The `date` column. */
  function DateColumn(rows: seq<CountRow>): (c: seq<Date>)
    ensures |c| == |rows|
  {
    seq(|rows|, i requires 0 <= i < |rows| => rows[i].date)
  }

  /** The students that have at least one row: the keys of a group-by on `student_name`. */
  function StudentsOf(rows: seq<CountRow>): set<Student>
  {
    set i | 0 <= i < |rows| :: rows[i].student
  }
}
