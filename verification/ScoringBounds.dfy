/** The most a submission can score, and when that is within 100 percent. */
module ScoringBounds {
  import opened Options
  import opened Scoring
  import opened ScoringProperties

  // ---- At most 100 percent ----

  lemma {:induction false} WeightWithout(questions: seq<Question>, ids: set<nat>, id: nat)
    requires forall x :: x in questions ==> x.id != id
    ensures MaxPoints(questions, ids) == MaxPoints(questions, ids - {id})
  {
    if questions != [] {
      assert questions[|questions| - 1] in questions;
      WeightWithout(questions[..|questions| - 1], ids, id);
    }
  }

  lemma {:induction false} WeightRemoved(questions: seq<Question>, ids: set<nat>, x: Question)
    requires DistinctIds(questions) && x in questions && x.id in ids
    ensures MaxPoints(questions, ids) == MaxPoints(questions, ids - {x.id}) + x.positive
  {
    var n := |questions| - 1;
    if questions[n] == x {
      WeightWithout(questions[..n], ids, x.id);
    } else {
      assert x in questions[..n];
      WeightRemoved(questions[..n], ids, x);
    }
  }

  lemma {:induction false} WeightsAreNotNegative(questions: seq<Question>, ids: set<nat>)
    requires forall x :: x in questions ==> 0.0 <= x.positive
    ensures 0.0 <= MaxPoints(questions, ids)
  {
    if questions != [] {
      assert questions[|questions| - 1] in questions;
      WeightsAreNotNegative(questions[..|questions| - 1], ids);
    }
  }

  /** No question of `ids` occurs twice. */
  ghost predicate DistinctIn(questions: seq<Question>, ids: set<nat>) {
    forall i, j :: 0 <= i < j < |questions| && questions[i].id in ids ==> questions[i].id != questions[j].id
  }

  /** Different questions drawn from a questionnaire weigh no more than all of it. */
  lemma {:induction false} SubsetWeighsLess(some: seq<Question>, all: seq<Question>, ids: set<nat>)
    requires DistinctIn(some, ids) && DistinctIds(all) && forall x :: x in all ==> 0.0 <= x.positive
    requires forall x :: x in some && x.id in ids ==> x in all
    ensures MaxPoints(some, ids) <= MaxPoints(all, ids)
  {
    if some == [] {
      WeightsAreNotNegative(all, ids);
    } else {
      var n := |some| - 1;
      var x := some[n];
      assert x in some;
      if x.id in ids {
        WeightRemoved(all, ids, x);
        WeightWithout(some[..n], ids, x.id);
        SubsetWeighsLess(some[..n], all, ids - {x.id});
      } else {
        SubsetWeighsLess(some[..n], all, ids);
      }
    }
  }

  function McQuestions(answers: seq<McAnswer>): (r: seq<Question>)
    ensures |r| == |answers| && forall i :: 0 <= i < |r| ==> r[i] == answers[i].question
  {
    seq(|answers|, i requires 0 <= i < |answers| => answers[i].question)
  }

  function FtQuestions(answers: seq<FtAnswer>): (r: seq<Question>)
    ensures |r| == |answers| && forall i :: 0 <= i < |r| ==> r[i] == answers[i].question
  {
    seq(|answers|, i requires 0 <= i < |answers| => answers[i].question)
  }

  lemma {:induction false} McPointsWithinWeights(answers: seq<McAnswer>, ids: set<nat>)
    requires forall a :: a in answers && a.question.id in ids && !a.isCorrect ==> PassingPays(a.question)
    ensures Total(answers, McPointsIn(ids)) <= MaxPoints(McQuestions(answers), ids)
  {
    if answers != [] {
      var n := |answers| - 1;
      assert answers[n] in answers && McQuestions(answers)[..n] == McQuestions(answers[..n]);
      McPointsWithinWeights(answers[..n], ids);
    }
  }

  lemma {:induction false} FtPointsWithinWeights(answers: seq<FtAnswer>, ids: set<nat>, verdicts: seq<Verdict>)
    requires forall a :: a in answers ==> 0.0 <= a.question.positive
    requires forall a :: a in answers && a.question.id in ids ==> PassingPays(a.question)
    ensures Total(answers, FtPointsIn(ids, verdicts)) <= MaxPoints(FtQuestions(answers), ids)
  {
    if answers != [] {
      var n := |answers| - 1;
      assert answers[n] in answers && FtQuestions(answers)[..n] == FtQuestions(answers[..n]);
      FtPointsWithinWeights(answers[..n], ids, verdicts);
    }
  }

  lemma {:induction false} AllPassedScoresWeights(answers: seq<FtAnswer>, ids: set<nat>, verdicts: seq<Verdict>)
    requires forall a :: a in answers ==> VerdictOn(verdicts, a.question.id) == Some(true)
    ensures Total(answers, FtPointsIn(ids, verdicts)) == MaxPoints(FtQuestions(answers), ids)
  {
    if answers != [] {
      var n := |answers| - 1;
      assert answers[n] in answers && FtQuestions(answers)[..n] == FtQuestions(answers[..n]);
      AllPassedScoresWeights(answers[..n], ids, verdicts);
    }
  }

  ghost predicate NeverAboveWeights(answers: seq<FtAnswer>, ids: set<nat>) {
    forall verdicts :: Total(answers, FtPointsIn(ids, verdicts)) <= MaxPoints(FtQuestions(answers), ids)
  }

  lemma FailingOneScoresMore(answers: seq<FtAnswer>, ids: set<nat>, a: FtAnswer) returns (verdicts: seq<Verdict>)
    requires forall x, y :: x in answers && y in answers && x.question.id == y.question.id ==> x.question == y.question
    requires a in answers && a.question.id in ids && !PassingPays(a.question)
    ensures MaxPoints(FtQuestions(answers), ids) < Total(answers, FtPointsIn(ids, verdicts))
  {
    var id := a.question.id;
    verdicts := AllJudged(answers, true) + [Verdict(id, false)];
    var passed := verdicts + [Verdict(id, true)];
    assert passed[..|passed| - 1] == verdicts && verdicts[..|verdicts| - 1] == AllJudged(answers, true);
    forall x | x in answers ensures VerdictOn(passed, x.question.id) == Some(true) {
      AllJudgedVerdict(answers, true, x.question.id);
    }
    AllPassedScoresWeights(answers, ids, passed);
    OnePassShifts(answers, ids, verdicts, a.question);
    GainIsNegative(answers, a.question);
  }

  /** No verdicts let free-text answers score more than their weights exactly when failing never pays. */
  lemma NeverAboveWeightsExactlyWhen(answers: seq<FtAnswer>, ids: set<nat>)
    requires forall x, y :: x in answers && y in answers && x.question.id == y.question.id ==> x.question == y.question
    requires forall a :: a in answers ==> 0.0 <= a.question.positive
    ensures NeverAboveWeights(answers, ids) <==>
            forall a :: a in answers && a.question.id in ids ==> PassingPays(a.question)
  {
    if a :| a in answers && a.question.id in ids && !PassingPays(a.question) {
      var verdicts := FailingOneScoresMore(answers, ids, a);
    } else {
      forall verdicts ensures Total(answers, FtPointsIn(ids, verdicts)) <= MaxPoints(FtQuestions(answers), ids) {
        FtPointsWithinWeights(answers, ids, verdicts);
      }
    }
  }

  // ---- The most the verdicts can give ----

  /** Answers to the same applicable question carry the same question. */
  ghost predicate OneQuestionPerId(answers: seq<FtAnswer>, ids: set<nat>) {
    forall a, b :: a in answers && b in answers && a.question.id == b.question.id && a.question.id in ids ==>
      a.question == b.question
  }

  /** The verdict that pays best without failing the evaluation; none at all where that pays best. */
  function BestVerdict(question: Question): Option<bool> {
    var failing := if question.isFatal then 0.0 else -question.negative;
    if 0.0 <= question.positive && failing <= question.positive then Some(true)
    else if 0.0 < failing then Some(false)
    else None
  }

  /** What that verdict scores: the most of nothing, a pass and, unless fatal, a fail. */
  function BestPoints(question: Question): (points: real)
    ensures 0.0 <= points && question.positive <= points && (!question.isFatal ==> -question.negative <= points)
    ensures points == 0.0 || points == question.positive || (!question.isFatal && points == -question.negative)
  {
    match BestVerdict(question)
    case None => 0.0
    case Some(passing) => if passing then question.positive else -question.negative
  }

  function BestIn(ids: set<nat>): FtAnswer -> real {
    (a: FtAnswer) => if a.question.id in ids then BestPoints(a.question) else 0.0
  }

  /** The most a submission can score in any evaluation that does not fail it, known before the LLM is asked. */
  function BestScored(q: Questionnaire, sub: Submission): real {
    Total(sub.mc, McPointsIn(McIds(q, sub))) + if AsksLlm(q, sub) then Total(sub.ft, BestIn(FtIds(q, sub))) else 0.0
  }

  lemma {:induction false} NoVerdictsBeatBest(answers: seq<FtAnswer>, ids: set<nat>, verdicts: seq<Verdict>)
    requires !AnyOf(answers, FtFailsIn(ids, verdicts))
    ensures Total(answers, FtPointsIn(ids, verdicts)) <= Total(answers, BestIn(ids))
  {
    if answers != [] {
      NoVerdictsBeatBest(answers[..|answers| - 1], ids, verdicts);
    }
  }

  /** The best verdict on every question answered. */
  function BestVerdicts(answers: seq<FtAnswer>): seq<Verdict> {
    if answers == [] then []
    else
      var n := |answers| - 1;
      var best := BestVerdict(answers[n].question);
      BestVerdicts(answers[..n]) + if best.Some? then [Verdict(answers[n].question.id, best.value)] else []
  }

  lemma {:induction false} BestVerdictsOn(answers: seq<FtAnswer>, question: Question)
    requires forall a :: a in answers && a.question.id == question.id ==> a.question == question
    ensures VerdictOn(BestVerdicts(answers), question.id) ==
            if exists a :: a in answers && a.question == question then BestVerdict(question) else None
  {
    if answers != [] {
      var n := |answers| - 1;
      BestVerdictsOn(answers[..n], question);
      assert forall a :: a in answers <==> a in answers[..n] || a == answers[n];
      var before, best := BestVerdicts(answers[..n]), BestVerdict(answers[n].question);
      if best.Some? {
        assert (before + [Verdict(answers[n].question.id, best.value)])[..|before|] == before;
      } else {
        assert before + [] == before;
      }
    }
  }

  lemma {:induction false} BestIsReachedOn(some: seq<FtAnswer>, all: seq<FtAnswer>, ids: set<nat>)
    requires OneQuestionPerId(all, ids) && forall a :: a in some ==> a in all
    ensures Total(some, FtPointsIn(ids, BestVerdicts(all))) == Total(some, BestIn(ids))
    ensures !AnyOf(some, FtFailsIn(ids, BestVerdicts(all)))
  {
    if some != [] {
      var n := |some| - 1;
      assert some[n] in all;
      BestIsReachedOn(some[..n], all, ids);
      if some[n].question.id in ids {
        BestVerdictsOn(all, some[n].question);
      }
    }
  }

  lemma AtMost100ExactlyWhen(scored: real, max: real)
    ensures Percent(scored, max) <= 100.0 <==> max <= 0.0 || scored <= max
  {
    if max > 0.0 {
      var ratio := scored / max;
      assert scored == ratio * max;
      assert (ratio - 1.0) * max == scored - max;
    }
  }

  ghost predicate StaysWithin100(q: Questionnaire, sub: Submission) {
    forall verdicts :: Score(q, sub, verdicts) <= 100.0
  }

  /**
   * No verdicts lift a submission over 100 exactly when it fails before the LLM is asked, there is nothing
   * to score, or the most it can score is within the maximum.
   */
  lemma StaysWithin100ExactlyWhen(q: Questionnaire, sub: Submission)
    requires OneQuestionPerId(sub.ft, FtIds(q, sub))
    ensures StaysWithin100(q, sub) <==>
            IsBlocked(q, sub) || Reachable(q, sub) <= 0.0 || BestScored(q, sub) <= Reachable(q, sub)
  {
    if IsBlocked(q, sub) || Reachable(q, sub) <= 0.0 || BestScored(q, sub) <= Reachable(q, sub) {
      forall verdicts ensures Score(q, sub, verdicts) <= 100.0 {
        if !Fails(q, sub, verdicts) {
          if AsksLlm(q, sub) {
            NoVerdictsBeatBest(sub.ft, FtIds(q, sub), verdicts);
          }
          AtMost100ExactlyWhen(Scored(q, sub, verdicts), Reachable(q, sub));
        }
      }
    } else {
      var verdicts := BestVerdicts(sub.ft);
      BestIsReachedOn(sub.ft, sub.ft, FtIds(q, sub));
      assert !Fails(q, sub, verdicts) && Scored(q, sub, verdicts) == BestScored(q, sub);
      AtMost100ExactlyWhen(Scored(q, sub, verdicts), Reachable(q, sub));
      assert Score(q, sub, verdicts) > 100.0;
    }
  }

  // ---- One answer a question ----

  /** Among the answers that apply, one to a question; and failing pays only where it is fatal. */
  ghost predicate Sensible(q: Questionnaire, sub: Submission) {
    && DistinctIn(McQuestions(sub.mc), McIds(q, sub)) && DistinctIn(FtQuestions(sub.ft), FtIds(q, sub))
    && (forall a :: a in sub.mc && a.question.id in McIds(q, sub) ==> PassingPays(a.question) || a.question.isFatal)
    && (forall a :: a in sub.ft && a.question.id in FtIds(q, sub) ==> PassingPays(a.question) || a.question.isFatal)
  }

  lemma ApplicableComesFrom(questions: seq<Question>, sections: set<nat>, selected: set<nat>, id: nat)
    requires id in ApplicableIds(questions, sections, selected)
    ensures exists x :: x in questions && x.id == id
  {}

  lemma McScoredWithinMax(q: Questionnaire, sub: Submission)
    requires WellFormed(q, sub) && Sensible(q, sub) && !IsBlocked(q, sub)
    ensures Total(sub.mc, McPointsIn(McIds(q, sub))) <= MaxPoints(q.mcqs, McIds(q, sub))
  {
    var ids := McIds(q, sub);
    AnyOfIsExists(sub.mc, McFailsIn(ids));
    McPointsWithinWeights(sub.mc, ids);
    forall x | x in McQuestions(sub.mc) && x.id in ids
      ensures x in q.mcqs
    {
      var i :| 0 <= i < |sub.mc| && sub.mc[i].question == x;
      assert sub.mc[i] in sub.mc;
      ApplicableComesFrom(q.mcqs, ApplicableSections(q, Selected(sub)), Selected(sub), x.id);
    }
    SubsetWeighsLess(McQuestions(sub.mc), q.mcqs, ids);
  }

  lemma {:induction false} BestWithinWeights(answers: seq<FtAnswer>, ids: set<nat>)
    requires forall a :: a in answers && a.question.id in ids ==>
               0.0 <= a.question.positive && (PassingPays(a.question) || a.question.isFatal)
    ensures Total(answers, BestIn(ids)) <= MaxPoints(FtQuestions(answers), ids)
  {
    if answers != [] {
      var n := |answers| - 1;
      assert answers[n] in answers && FtQuestions(answers)[..n] == FtQuestions(answers[..n]);
      BestWithinWeights(answers[..n], ids);
    }
  }

  lemma FtBestWithinMax(q: Questionnaire, sub: Submission)
    requires WellFormed(q, sub) && Sensible(q, sub)
    ensures Total(sub.ft, BestIn(FtIds(q, sub))) <= MaxPoints(q.ftqs, FtIds(q, sub))
    ensures OneQuestionPerId(sub.ft, FtIds(q, sub))
  {
    var ids := FtIds(q, sub);
    forall a | a in sub.ft && a.question.id in ids
      ensures a.question in q.ftqs
    {
      ApplicableComesFrom(q.ftqs, ApplicableSections(q, Selected(sub)), Selected(sub), a.question.id);
    }
    BestWithinWeights(sub.ft, ids);
    assert forall x :: x in FtQuestions(sub.ft) ==> exists a :: a in sub.ft && a.question == x by {
      forall x | x in FtQuestions(sub.ft) ensures exists a :: a in sub.ft && a.question == x {
        var i :| 0 <= i < |sub.ft| && sub.ft[i].question == x;
        assert sub.ft[i] in sub.ft;
      }
    }
    SubsetWeighsLess(FtQuestions(sub.ft), q.ftqs, ids);
  }

  /** With one answer row a question and failing paying only where it is fatal, no score exceeds 100. */
  lemma ScoreIsAtMost100(q: Questionnaire, sub: Submission, verdicts: seq<Verdict>)
    requires WellFormed(q, sub) && Sensible(q, sub)
    ensures Score(q, sub, verdicts) <= 100.0
    ensures Fails(q, sub, verdicts) || BestScored(q, sub) <= Reachable(q, sub)
  {
    FtBestWithinMax(q, sub);
    if !IsBlocked(q, sub) {
      McScoredWithinMax(q, sub);
      WeightsAreNotNegative(q.ftqs, FtIds(q, sub));
    }
    StaysWithin100ExactlyWhen(q, sub);
  }

  // ---- Two answers to a question ----

  const CHOICE := Question(1, None, None, 2.0, 0.0, false, false)
  const ONE_CHOICE := Questionnaire([], [CHOICE], [], [], 60.0, Automatic)
  const BOTH := Submission([McAnswer(CHOICE, 10, true), McAnswer(CHOICE, 11, true)], [], [])

  lemma TwoAnswersFacts()
    ensures WellFormed(ONE_CHOICE, BOTH) && !IsBlocked(ONE_CHOICE, BOTH)
    ensures Reachable(ONE_CHOICE, BOTH) == 2.0 && BestScored(ONE_CHOICE, BOTH) == 4.0
    ensures Scored(ONE_CHOICE, BOTH, []) == 4.0 && !Fails(ONE_CHOICE, BOTH, [])
  {
    var a, b := McAnswer(CHOICE, 10, true), McAnswer(CHOICE, 11, true);
    assert forall x :: x in ONE_CHOICE.mcqs <==> x == CHOICE;
    assert forall x :: x in BOTH.mc <==> x == a || x == b;
    assert McIds(ONE_CHOICE, BOTH) == {1} by {
      assert CHOICE in ONE_CHOICE.mcqs;
    }
    assert Missing(ONE_CHOICE, BOTH) == {};
    AnyOfIsExists(BOTH.mc, McFailsIn({1}));
    TotalOfOne(a, McPointsIn({1}));
    assert BOTH.mc[..1] == [a] && Total(BOTH.mc, McPointsIn({1})) == Total([a], McPointsIn({1})) + McPointsIn({1})(b);
    TotalOfOne(CHOICE, WeightIn({1}));
  }

  /** With two correct options chosen on one question the most to score is over the maximum: the score is 200. */
  lemma TwoAnswersCanScore200()
    ensures WellFormed(ONE_CHOICE, BOTH) && !StaysWithin100(ONE_CHOICE, BOTH)
    ensures Score(ONE_CHOICE, BOTH, []) == 200.0
  {
    TwoAnswersFacts();
    StaysWithin100ExactlyWhen(ONE_CHOICE, BOTH);
    assert 4.0 / 2.0 * 100.0 == 200.0;
  }
}
