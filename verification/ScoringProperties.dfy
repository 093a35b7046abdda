/** What holds of evaluations in general: safety of the short circuits, monotonicity, bounds, and order. */
module ScoringProperties {
  import opened Options
  import opened Scoring

  ghost predicate DistinctIds(questions: seq<Question>) {
    forall i, j :: 0 <= i < j < |questions| ==> questions[i].id != questions[j].id
  }

  /** What the models' validators and foreign keys guarantee. */
  ghost predicate WellFormed(q: Questionnaire, sub: Submission) {
    && 0.0 <= q.minScore <= 100.0
    && DistinctIds(q.mcqs) && DistinctIds(q.ftqs)
    && (forall x :: x in q.mcqs || x in q.ftqs ==> 0.0 <= x.positive)
    && (forall a, x :: a in sub.mc && x in q.mcqs && a.question.id == x.id ==> a.question == x)
    && (forall a, x :: a in sub.ft && x in q.ftqs && a.question.id == x.id ==> a.question == x)
  }

  /** Failing a question is worth no more than passing it. */
  predicate PassingPays(question: Question) {
    question.positive >= -question.negative
  }

  // ---- Short circuits ----

  ghost predicate IsMissed(questions: seq<Question>, applicable: set<nat>, answered: set<nat>, x: Question) {
    x in questions && x.isMandatory && x.id in applicable && x.id !in answered
  }

  ghost predicate SomeMissed(questions: seq<Question>, applicable: set<nat>, answered: set<nat>) {
    exists x :: IsMissed(questions, applicable, answered, x)
  }

  lemma UnansweredExactlyWhen(questions: seq<Question>, applicable: set<nat>, answered: set<nat>)
    ensures Unanswered(questions, applicable, answered) != {} <==> SomeMissed(questions, applicable, answered)
  {
    if x :| IsMissed(questions, applicable, answered, x) {
      assert x.id in Unanswered(questions, applicable, answered);
    }
    if id :| id in Unanswered(questions, applicable, answered) {
      var x :| x in questions && x.isMandatory && x.id in applicable && x.id == id;
      assert IsMissed(questions, applicable, answered, x);
    }
  }

  /** A missed mandatory or a failed fatal question is -100 and REJECTED; a blocked submission never reaches the LLM. */
  lemma FailureIsRejected(q: Questionnaire, sub: Submission, verdicts: seq<Verdict>)
    requires 0.0 <= q.minScore <= 100.0
    ensures Fails(q, sub, verdicts) ==> Outcome(q, sub, verdicts).score == -100.0
    ensures Fails(q, sub, verdicts) ==> Outcome(q, sub, verdicts).proposed == Rejected
    ensures Missing(q, sub) != {} || AnyOf(sub.mc, McFailsIn(McIds(q, sub))) ==>
              Fails(q, sub, verdicts) && !AsksLlm(q, sub)
    ensures Outcome(q, sub, verdicts).status.Final? <==> q.mode == Automatic
    ensures Outcome(q, sub, verdicts).status.Final? ==>
              Outcome(q, sub, verdicts).status.proposal == Outcome(q, sub, verdicts).proposed
  {}

  /** Some mandatory question was shown and not answered, or some fatal choice was shown and wrong. */
  lemma BlockedExactlyWhen(q: Questionnaire, sub: Submission)
    ensures IsBlocked(q, sub) <==>
            || SomeMissed(q.mcqs, McIds(q, sub), set a | a in sub.mc :: a.question.id)
            || SomeMissed(q.ftqs, FtIds(q, sub), set a | a in sub.ft :: a.question.id)
            || SomeMissed(q.fuqs, Applicable(q, sub, q.fuqs), set a | a in sub.fu)
            || (exists a :: a in sub.mc && a.question.id in McIds(q, sub) && a.question.isFatal && !a.isCorrect)
  {
    UnansweredExactlyWhen(q.mcqs, McIds(q, sub), set a | a in sub.mc :: a.question.id);
    UnansweredExactlyWhen(q.ftqs, FtIds(q, sub), set a | a in sub.ft :: a.question.id);
    UnansweredExactlyWhen(q.fuqs, Applicable(q, sub, q.fuqs), set a | a in sub.fu);
    AnyOfIsExists(sub.mc, McFailsIn(McIds(q, sub)));
  }

  lemma PercentReaches(scored: real, max: real, minScore: real)
    requires max > 0.0
    ensures Percent(scored, max) >= minScore <==> scored * 100.0 >= minScore * max
  {
    var ratio := scored / max;
    assert scored == ratio * max;
    assert (ratio * 100.0 - minScore) * max == scored * 100.0 - minScore * max;
  }

  /**
   * A submission is approved exactly when nothing fails it and its points reach the required share of
   * the maximum; with nothing to score it passes.
   */
  lemma ApprovedExactlyWhen(q: Questionnaire, sub: Submission, verdicts: seq<Verdict>)
    requires 0.0 <= q.minScore <= 100.0
    ensures Outcome(q, sub, verdicts).proposed == Approved <==>
            && !Fails(q, sub, verdicts)
            && (Reachable(q, sub) <= 0.0 || Scored(q, sub, verdicts) * 100.0 >= q.minScore * Reachable(q, sub))
  {
    if Reachable(q, sub) > 0.0 {
      PercentReaches(Scored(q, sub, verdicts), Reachable(q, sub), q.minScore);
    }
  }

  // ---- Monotonicity in the verdicts ----

  ghost predicate SameOrPassed(a: Option<bool>, b: Option<bool>) {
    a == b || (a == Some(false) && b == Some(true))
  }

  /** `better` answers for the same questions as `verdicts`, some fails turned into passes. */
  ghost predicate NoWorse(verdicts: seq<Verdict>, better: seq<Verdict>) {
    forall id :: SameOrPassed(VerdictOn(verdicts, id), VerdictOn(better, id))
  }

  lemma {:induction false} PointsGrow(
      answers: seq<FtAnswer>, ids: set<nat>, verdicts: seq<Verdict>, better: seq<Verdict>)
    requires NoWorse(verdicts, better)
    requires forall a :: a in answers && a.question.id in ids ==> PassingPays(a.question)
    ensures Total(answers, FtPointsIn(ids, verdicts)) <= Total(answers, FtPointsIn(ids, better))
    ensures AnyOf(answers, FtFailsIn(ids, better)) ==> AnyOf(answers, FtFailsIn(ids, verdicts))
  {
    if answers != [] {
      var n := |answers| - 1;
      var a := answers[n];
      PointsGrow(answers[..n], ids, verdicts, better);
      assert a in answers && SameOrPassed(VerdictOn(verdicts, a.question.id), VerdictOn(better, a.question.id));
    }
  }

  const PLAIN := Question(1, None, None, 2.0, 0.0, false, false)
  /** Answering it wrong earns three points, answering it right one. */
  const UPSIDE_DOWN := Question(2, None, None, 1.0, -3.0, false, false)

  const UPSIDE_DOWN_ANSWER := FtAnswer(UPSIDE_DOWN, "")
  const TWO_QUESTIONS := Questionnaire([], [PLAIN], [UPSIDE_DOWN], [], 60.0, Automatic)
  const ONE_ANSWER := Submission([], [UPSIDE_DOWN_ANSWER], [])

  lemma BatchOfOne(a: FtAnswer, ids: set<nat>)
    requires a.question.id in ids
    ensures BatchOf([a], ids) == [a]
  {}

  lemma TotalOfOne<A>(a: A, points: A -> real)
    ensures Total([a], points) == points(a)
  {}

  lemma OneAnswerFacts()
    ensures McIds(TWO_QUESTIONS, ONE_ANSWER) == {1} && FtIds(TWO_QUESTIONS, ONE_ANSWER) == {2}
    ensures Missing(TWO_QUESTIONS, ONE_ANSWER) == {} && Batch(TWO_QUESTIONS, ONE_ANSWER) == [UPSIDE_DOWN_ANSWER]
    ensures Reachable(TWO_QUESTIONS, ONE_ANSWER) == 3.0
  {
    var q, sub := TWO_QUESTIONS, ONE_ANSWER;
    assert forall x :: x in q.mcqs <==> x == PLAIN;
    assert forall x :: x in q.ftqs <==> x == UPSIDE_DOWN;
    assert PLAIN in q.mcqs && UPSIDE_DOWN in q.ftqs;
    assert McIds(q, sub) == {1} && FtIds(q, sub) == {2};
    BatchOfOne(UPSIDE_DOWN_ANSWER, {2});
    TotalOfOne(PLAIN, WeightIn({1}));
    TotalOfOne(UPSIDE_DOWN, WeightIn({2}));
  }

  lemma OneAnswerPoints(passing: bool)
    ensures Total(ONE_ANSWER.ft, FtPointsIn({2}, [Verdict(2, passing)])) == if passing then 1.0 else 3.0
    ensures !AnyOf(ONE_ANSWER.ft, FtFailsIn({2}, [Verdict(2, passing)]))
  {}

  /** Where failing pays, a pass can turn an approval into a rejection. */
  lemma PassingCanReject()
    ensures WellFormed(TWO_QUESTIONS, ONE_ANSWER)
    ensures Outcome(TWO_QUESTIONS, ONE_ANSWER, [Verdict(2, false)]).proposed == Approved
    ensures Outcome(TWO_QUESTIONS, ONE_ANSWER, [Verdict(2, true)]).proposed == Rejected
  {
    OneAnswerFacts();
    OneAnswerPoints(false);
    OneAnswerPoints(true);
  }

  // ---- When points are monotone ----

  /** Every answer of the batch judged the same way. */
  function AllJudged(answers: seq<FtAnswer>, passing: bool): seq<Verdict> {
    if answers == [] then []
    else
      var n := |answers| - 1;
      AllJudged(answers[..n], passing) + [Verdict(answers[n].question.id, passing)]
  }

  lemma {:induction false} AllJudgedVerdict(answers: seq<FtAnswer>, passing: bool, id: nat)
    ensures VerdictOn(AllJudged(answers, passing), id) ==
            if exists a :: a in answers && a.question.id == id then Some(passing) else None
  {
    if answers != [] {
      var n := |answers| - 1;
      AllJudgedVerdict(answers[..n], passing, id);
      var before := AllJudged(answers[..n], passing);
      assert (before + [Verdict(answers[n].question.id, passing)])[..|before|] == before;
      assert forall a :: a in answers <==> a in answers[..n] || a == answers[n];
    }
  }

  /** What an answer gains when its question turns from failed to passed. */
  function GainOn(question: Question): FtAnswer -> real {
    (a: FtAnswer) => if a.question.id == question.id then question.positive + question.negative else 0.0
  }

  lemma PassedOneMore(verdicts: seq<Verdict>, passed: nat, id: nat)
    ensures VerdictOn(verdicts + [Verdict(passed, true)], id) ==
            if id == passed then Some(true) else VerdictOn(verdicts, id)
  {}

  /** Passing one question more shifts the points by its two weights, once per answer to it. */
  lemma {:induction false} OnePassShifts(
      answers: seq<FtAnswer>, ids: set<nat>, verdicts: seq<Verdict>, question: Question)
    requires question.id in ids && VerdictOn(verdicts, question.id) == Some(false)
    requires forall a :: a in answers && a.question.id == question.id ==> a.question == question
    ensures Total(answers, FtPointsIn(ids, verdicts + [Verdict(question.id, true)])) ==
            Total(answers, FtPointsIn(ids, verdicts)) + Total(answers, GainOn(question))
  {
    if answers != [] {
      var n := |answers| - 1;
      var a := answers[n];
      assert a in answers;
      OnePassShifts(answers[..n], ids, verdicts, question);
      PassedOneMore(verdicts, question.id, a.question.id);
    }
  }

  lemma {:induction false} GainIsNegative(answers: seq<FtAnswer>, question: Question)
    requires !PassingPays(question)
    ensures Total(answers, GainOn(question)) <= 0.0
    ensures (exists a :: a in answers && a.question == question) ==> Total(answers, GainOn(question)) < 0.0
  {
    if answers != [] {
      var n := |answers| - 1;
      GainIsNegative(answers[..n], question);
      assert forall a :: a in answers <==> a in answers[..n] || a == answers[n];
    }
  }

  ghost predicate PointsAreMonotone(answers: seq<FtAnswer>, ids: set<nat>) {
    forall v, w :: NoWorse(v, w) ==> Total(answers, FtPointsIn(ids, v)) <= Total(answers, FtPointsIn(ids, w))
  }

  /** Points grow with every set of verdicts exactly when passing pays for each question evaluated. */
  lemma PointsAreMonotoneExactlyWhen(answers: seq<FtAnswer>, ids: set<nat>)
    requires forall a, b :: a in answers && b in answers && a.question.id == b.question.id ==> a.question == b.question
    ensures PointsAreMonotone(answers, ids) <==>
            forall a :: a in answers && a.question.id in ids ==> PassingPays(a.question)
  {
    if forall a :: a in answers && a.question.id in ids ==> PassingPays(a.question) {
      forall v, w | NoWorse(v, w)
        ensures Total(answers, FtPointsIn(ids, v)) <= Total(answers, FtPointsIn(ids, w))
      {
        PointsGrow(answers, ids, v, w);
      }
    } else {
      var a :| a in answers && a.question.id in ids && !PassingPays(a.question);
      var v := AllJudged(answers, false);
      var w := v + [Verdict(a.question.id, true)];
      AllJudgedVerdict(answers, false, a.question.id);
      OnePassShifts(answers, ids, v, a.question);
      GainIsNegative(answers, a.question);
      forall id
        ensures SameOrPassed(VerdictOn(v, id), VerdictOn(w, id))
      {
        PassedOneMore(v, a.question.id, id);
      }
      assert NoWorse(v, w);
    }
  }
}
