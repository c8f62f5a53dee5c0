/**
 * The console quiz: rows of a CSV file become problems (question kept as
 * written, answer trimmed), then the problems are asked in order and the
 * exact matches are counted until the problems run out or the quiz-wide
 * timer fires.
 *
 * The timer race is replaced by its result: `cutoff == Some(k)` says the
 * timer fired while the quiz was waiting for the answer to problem `k`;
 * `None` says it never fired during the quiz. `answers[i]` is the string that
 * reading with `%s` stores for problem `i`: the first word typed, without
 * white space.
 */
module Quiz {
  import opened Wrappers
  import Strings

  /** A question and its expected answer. */
  datatype Problem = Problem(q: string, a: string)

  /** The two ways the quiz ends; both report the score out of every problem. */
  datatype Report =
    | TimesUp(correct: nat, total: nat)
    | Completed(correct: nat, total: nat)

  /** The problem one CSV row stands for. */
  function ProblemOf(line: seq<string>): (p: Problem)
    requires |line| >= 2
    ensures p.q == line[0]
    ensures Strings.Trimmed(p.a)
  {
    Problem(line[0], Strings.TrimSpace(line[1]))
  }

  /** Every row has a question field and an answer field. */
  predicate WellFormed(lines: seq<seq<string>>)
  {
    forall i :: 0 <= i < |lines| ==> |lines[i]| >= 2
  }

  /** The problems the rows stand for, row by row. */
  function ProblemsOf(lines: seq<seq<string>>): (ps: seq<Problem>)
    requires WellFormed(lines)
    ensures |ps| == |lines|
  {
    seq(|lines|, i requires 0 <= i < |lines| => ProblemOf(lines[i]))
  }

  /**
   * `parseLines`: fills a slice of `len(lines)` problems by index. A row with
   * fewer than two fields makes the code index out of range, so the rows
   * must be well formed.
   */
  method ParseLines(lines: seq<seq<string>>) returns (ret: seq<Problem>)
    requires WellFormed(lines)
    ensures ret == ProblemsOf(lines)
    // The next three, for callers, follow from ProblemsOf and ProblemsOfRows.
    ensures |ret| == |lines|
    ensures forall i :: 0 <= i < |lines| ==> ret[i].q == lines[i][0] && ret[i].a == Strings.TrimSpace(lines[i][1])
    ensures forall i :: 0 <= i < |ret| ==> Strings.Trimmed(ret[i].a)
  {
    var buf := new Problem[|lines|](_ => Problem("", ""));
    for i := 0 to |lines|
      invariant forall k :: 0 <= k < i ==> buf[k] == ProblemOf(lines[k])
    {
      buf[i] := ProblemOf(lines[i]);
    }
    ret := buf[..];
    ProblemsOfRows(lines);
  }

  /** Row `i` gives problem `i`: its question verbatim, its answer trimmed. */
  lemma ProblemsOfRows(lines: seq<seq<string>>)
    requires WellFormed(lines)
    ensures forall i :: 0 <= i < |lines| ==>
              ProblemsOf(lines)[i].q == lines[i][0] && ProblemsOf(lines)[i].a == Strings.TrimSpace(lines[i][1])
    ensures forall i :: 0 <= i < |lines| ==> Strings.Trimmed(ProblemsOf(lines)[i].a)
  {
  }

  /** How many problems get an answer: those before the one the timer fired on, or all. */
  function Answered(n: nat, cutoff: Option<nat>): (k: nat)
    ensures k <= n
  {
    if cutoff.Some? && cutoff.value < n then cutoff.value else n
  }

  /** The number of the first `k` problems whose answer equals the stored answer exactly. */
  function Matches(problems: seq<Problem>, answers: seq<string>, k: nat): (c: nat)
    requires k <= |problems| && k <= |answers|
    ensures c <= k
  {
    if k == 0 then 0
    else Matches(problems, answers, k - 1) + (if answers[k - 1] == problems[k - 1].a then 1 else 0)
  }

  /** The indices, below `k`, of the problems answered exactly. */
  ghost function MatchSet(problems: seq<Problem>, answers: seq<string>, k: nat): set<nat>
    requires k <= |problems| && k <= |answers|
  {
    set i: nat | i < k && answers[i] == problems[i].a
  }

  /** `Matches` counts exactly the problems answered exactly. */
  lemma {:induction false} MatchesCountsMatchSet(problems: seq<Problem>, answers: seq<string>, k: nat)
    requires k <= |problems| && k <= |answers|
    ensures Matches(problems, answers, k) == |MatchSet(problems, answers, k)|
  {
    if k > 0 {
      MatchesCountsMatchSet(problems, answers, k - 1);
      var prev := MatchSet(problems, answers, k - 1);
      if answers[k - 1] == problems[k - 1].a {
        assert MatchSet(problems, answers, k) == prev + {k - 1};
      } else {
        assert MatchSet(problems, answers, k) == prev;
      }
    }
  }

  /** The count depends only on the answers to the first `k` problems. */
  lemma {:induction false} MatchesIgnoresLaterAnswers(problems: seq<Problem>, answers: seq<string>, other: seq<string>, k: nat)
    requires k <= |problems| && k <= |answers| && k <= |other|
    requires answers[..k] == other[..k]
    ensures Matches(problems, answers, k) == Matches(problems, other, k)
  {
    if k > 0 {
      assert answers[k - 1] == answers[..k][k - 1] == other[..k][k - 1] == other[k - 1];
      assert answers[..k - 1] == answers[..k][..k - 1];
      assert other[..k - 1] == other[..k][..k - 1];
      MatchesIgnoresLaterAnswers(problems, answers, other, k - 1);
    }
  }

  /** Answering every problem with its stored answer scores every problem. */
  lemma {:induction false} AllExactAnswersScoreAll(problems: seq<Problem>, answers: seq<string>, k: nat)
    requires k <= |problems| && k <= |answers|
    requires forall i :: 0 <= i < k ==> answers[i] == problems[i].a
    ensures Matches(problems, answers, k) == k
  {
    if k > 0 {
      AllExactAnswersScoreAll(problems, answers, k - 1);
    }
  }

  /**
   * The comparison does not trim: a typed string that starts or ends with
   * white space never equals a stored answer, because stored answers are
   * trimmed. (Reading with `%s` already yields a single word without white
   * space, so in the program such a string does not reach the comparison.)
   */
  lemma PaddedAnswerMisses(line: seq<string>, answer: string)
    requires |line| >= 2
    requires |answer| > 0 && (Strings.IsSpace(answer[0]) || Strings.IsSpace(answer[|answer| - 1]))
    ensures answer != ProblemOf(line).a
  {
  }

  /**
   * The scoring loop of `main`: asks the problems in order and adds one for
   * each answer equal to the stored answer. When the timer fires on problem
   * `k` the quiz stops there and reports the count so far out of all the
   * problems.
   */
  method RunQuiz(problems: seq<Problem>, answers: seq<string>, cutoff: Option<nat>) returns (report: Report)
    requires |answers| >= Answered(|problems|, cutoff)
    ensures report.TimesUp? <==> cutoff.Some? && cutoff.value < |problems|
    ensures report.total == |problems|
    ensures report.correct == Matches(problems, answers, Answered(|problems|, cutoff))
    ensures report.correct <= Answered(|problems|, cutoff) <= |problems|
  {
    var correct: nat := 0;
    var i := 0;
    while i < |problems|
      invariant i <= Answered(|problems|, cutoff)
      invariant correct == Matches(problems, answers, i)
    {
      if cutoff == Some(i) {
        return TimesUp(correct, |problems|);
      }
      if answers[i] == problems[i].a {
        correct := correct + 1;
      }
      i := i + 1;
    }
    report := Completed(correct, |problems|);
  }

  /** `main` after the file is read: the rows become problems, then the quiz runs. */
  method Play(lines: seq<seq<string>>, answers: seq<string>, cutoff: Option<nat>) returns (report: Report)
    requires WellFormed(lines)
    requires |answers| >= Answered(|lines|, cutoff)
    ensures report.TimesUp? <==> cutoff.Some? && cutoff.value < |lines|
    ensures report.total == |lines|
    ensures report.correct == Matches(ProblemsOf(lines), answers, Answered(|lines|, cutoff))
  {
    var problems := ParseLines(lines);
    report := RunQuiz(problems, answers, cutoff);
  }

  /** Two rows, both answered in time and correctly: 2 out of 2. */
  lemma ScenarioBothInTime()
    ensures var rows := [["2+2", "4"], ["capital of France", "Paris"]];
            WellFormed(rows) && Matches(ProblemsOf(rows), ["4", "Paris"], Answered(|rows|, None)) == 2
  {
    var rows := [["2+2", "4"], ["capital of France", "Paris"]];
    var ps := ProblemsOf(rows);
    assert ps[0].a == Strings.TrimSpace("4") && ps[1].a == Strings.TrimSpace("Paris");
    Strings.TrimmedStaysPut("4");
    Strings.TrimmedStaysPut("Paris");
    AllExactAnswersScoreAll(ps, ["4", "Paris"], 2);
  }

  /**
   * A row whose answer field carries white space around a trimmed answer
   * stores the bare answer, so typing the bare answer scores.
   */
  lemma PaddedRowMatchesBareAnswer(q: string, a: string, before: string, after: string)
    requires Strings.Trimmed(a) && Strings.AllSpace(before) && Strings.AllSpace(after)
    ensures ProblemOf([q, before + a + after]).a == a
    ensures Matches([ProblemOf([q, before + a + after])], [a], 1) == 1
  {
    var field := before + a + after;
    var i := |before|;
    assert field[..i] == before && field[i..i + |a|] == a && field[i + |a|..] == after;
    Strings.TrimSpaceUnique(field, a, i);
  }

  /** Comparison is case-sensitive: `Answer` does not match `answer`. */
  lemma CaseDiffersNoMatch()
    ensures Matches([Problem("q", "answer")], ["Answer"], 1) == 0
  {
    assert "Answer"[0] != "answer"[0];
  }
}
