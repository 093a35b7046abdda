/** When turning failed free-text verdicts into passes can cost an approval. */
module ScoringApproval {
  import opened Options
  import opened Scoring
  import opened ScoringBounds
  import opened ScoringProperties

  /** No applicable free-text question pays for failing it, unless failing it is fatal. */
  ghost predicate FailingPaysOnlyFatally(q: Questionnaire, sub: Submission) {
    forall a :: a in sub.ft && a.question.id in FtIds(q, sub) ==> PassingPays(a.question) || a.question.isFatal
  }

  ghost predicate ApprovalSurvives(q: Questionnaire, sub: Submission) {
    forall verdicts, better ::
      NoWorse(verdicts, better) && Outcome(q, sub, verdicts).proposed == Approved ==>
        Outcome(q, sub, better).proposed == Approved
  }

  lemma {:induction false} FailsLess(
      answers: seq<FtAnswer>, ids: set<nat>, verdicts: seq<Verdict>, better: seq<Verdict>)
    requires NoWorse(verdicts, better)
    ensures AnyOf(answers, FtFailsIn(ids, better)) ==> AnyOf(answers, FtFailsIn(ids, verdicts))
  {
    if answers != [] {
      var n := |answers| - 1;
      FailsLess(answers[..n], ids, verdicts, better);
      var id := answers[n].question.id;
      assert SameOrPassed(VerdictOn(verdicts, id), VerdictOn(better, id));
    }
  }

  /** Where nothing fatal is failed, only questions that are not fatal change. */
  lemma {:induction false} PointsGrowUnlessFailed(
      answers: seq<FtAnswer>, ids: set<nat>, verdicts: seq<Verdict>, better: seq<Verdict>)
    requires NoWorse(verdicts, better) && !AnyOf(answers, FtFailsIn(ids, verdicts))
    requires forall a :: a in answers && a.question.id in ids ==> PassingPays(a.question) || a.question.isFatal
    ensures Total(answers, FtPointsIn(ids, verdicts)) <= Total(answers, FtPointsIn(ids, better))
  {
    if answers != [] {
      var n := |answers| - 1;
      var a := answers[n];
      PointsGrowUnlessFailed(answers[..n], ids, verdicts, better);
      assert a in answers && SameOrPassed(VerdictOn(verdicts, a.question.id), VerdictOn(better, a.question.id));
    }
  }

  lemma PercentGrows(a: real, b: real, max: real)
    requires max > 0.0
    ensures a <= b <==> Percent(a, max) <= Percent(b, max)
  {
    var x, y := a / max, b / max;
    assert a == x * max && b == y * max;
    assert (y - x) * max == b - a;
  }

  lemma PointsGrowUnlessFailedOrNotAsked(
      q: Questionnaire, sub: Submission, verdicts: seq<Verdict>, better: seq<Verdict>)
    requires NoWorse(verdicts, better) && FailingPaysOnlyFatally(q, sub) && !Fails(q, sub, verdicts)
    ensures Scored(q, sub, verdicts) <= Scored(q, sub, better)
  {
    if AsksLlm(q, sub) {
      PointsGrowUnlessFailed(sub.ft, FtIds(q, sub), verdicts, better);
    }
  }

  /** Turning failed free-text verdicts into passes never turns an approval into a rejection. */
  lemma ApprovalIsMonotone(q: Questionnaire, sub: Submission, verdicts: seq<Verdict>, better: seq<Verdict>)
    requires 0.0 <= q.minScore && NoWorse(verdicts, better) && FailingPaysOnlyFatally(q, sub)
    ensures Score(q, sub, verdicts) <= Score(q, sub, better) || Outcome(q, sub, verdicts).proposed == Rejected
    ensures Outcome(q, sub, verdicts).proposed == Approved ==> Outcome(q, sub, better).proposed == Approved
  {
    FailsLess(sub.ft, FtIds(q, sub), verdicts, better);
    if !Fails(q, sub, verdicts) {
      PointsGrowUnlessFailedOrNotAsked(q, sub, verdicts, better);
      if Reachable(q, sub) > 0.0 {
        PercentGrows(Scored(q, sub, verdicts), Scored(q, sub, better), Reachable(q, sub));
      }
    }
  }

  /** The submission is the same, whatever the threshold. */
  function At(q: Questionnaire, threshold: real): Questionnaire {
    q.(minScore := threshold)
  }

  /** The threshold decides about nothing but the proposal. */
  lemma SameAtEveryThreshold(q: Questionnaire, sub: Submission, threshold: real)
    ensures FtIds(At(q, threshold), sub) == FtIds(q, sub) && AsksLlm(At(q, threshold), sub) == AsksLlm(q, sub)
    ensures Reachable(At(q, threshold), sub) == Reachable(q, sub)
    ensures BestScored(At(q, threshold), sub) == BestScored(q, sub)
    ensures forall verdicts :: Score(At(q, threshold), sub, verdicts) == Score(q, sub, verdicts)
  {}

  /** Nothing the LLM says matters, or all it can say is too little for any threshold. */
  predicate VerdictsAreIdle(q: Questionnaire, sub: Submission) {
    !AsksLlm(q, sub) || Reachable(q, sub) <= 0.0 || BestScored(q, sub) < 0.0
  }

  lemma IdleVerdictsDecideNothing(q: Questionnaire, sub: Submission, verdicts: seq<Verdict>, better: seq<Verdict>)
    requires 0.0 <= q.minScore && NoWorse(verdicts, better) && VerdictsAreIdle(q, sub)
    requires Outcome(q, sub, verdicts).proposed == Approved
    ensures Outcome(q, sub, better).proposed == Approved
  {
    FailsLess(sub.ft, FtIds(q, sub), verdicts, better);
    if AsksLlm(q, sub) && Reachable(q, sub) > 0.0 {
      NoVerdictsBeatBest(sub.ft, FtIds(q, sub), verdicts);
      PercentGrows(0.0, Scored(q, sub, verdicts), Reachable(q, sub));
      assert false;
    }
  }

  /** A threshold at the best score, from which one pass falls away. */
  lemma OnePassTooMany(q: Questionnaire, sub: Submission, a: FtAnswer)
    requires OneQuestionPerId(sub.ft, FtIds(q, sub))
    requires AsksLlm(q, sub) && Reachable(q, sub) > 0.0 && BestScored(q, sub) >= 0.0
    requires a in sub.ft && a.question.id in FtIds(q, sub) && 0.0 <= a.question.positive
    requires !PassingPays(a.question) && !a.question.isFatal
    ensures 0.0 <= Percent(BestScored(q, sub), Reachable(q, sub))
    ensures !ApprovalSurvives(At(q, Percent(BestScored(q, sub), Reachable(q, sub))), sub)
    ensures Score(q, sub, BestVerdicts(sub.ft)) == Percent(BestScored(q, sub), Reachable(q, sub))
  {
    var ids, best := FtIds(q, sub), BestVerdicts(sub.ft);
    var better := best + [Verdict(a.question.id, true)];
    BestIsReachedOn(sub.ft, sub.ft, ids);
    BestVerdictsOn(sub.ft, a.question);
    OnePassShifts(sub.ft, ids, best, a.question);
    GainIsNegative(sub.ft, a.question);
    forall id ensures SameOrPassed(VerdictOn(best, id), VerdictOn(better, id)) {
      PassedOneMore(best, a.question.id, id);
    }
    assert NoWorse(best, better);
    FailsLess(sub.ft, ids, best, better);
    PercentGrows(0.0, BestScored(q, sub), Reachable(q, sub));
    PercentGrows(BestScored(q, sub), Scored(q, sub, better), Reachable(q, sub));
    var threshold := Percent(BestScored(q, sub), Reachable(q, sub));
    SameAtEveryThreshold(q, sub, threshold);
    assert Outcome(At(q, threshold), sub, best).proposed == Approved;
    assert Outcome(At(q, threshold), sub, better).proposed == Rejected;
  }

  ghost predicate PositiveWeights(q: Questionnaire, sub: Submission) {
    forall a :: a in sub.ft && a.question.id in FtIds(q, sub) ==> 0.0 <= a.question.positive
  }

  ghost predicate SurvivesUpTo(q: Questionnaire, sub: Submission, limit: real) {
    forall threshold :: 0.0 <= threshold <= limit ==> ApprovalSurvives(At(q, threshold), sub)
  }

  ghost predicate SurvivesAnyThreshold(q: Questionnaire, sub: Submission) {
    forall threshold :: 0.0 <= threshold ==> ApprovalSurvives(At(q, threshold), sub)
  }

  lemma SurvivesAt(q: Questionnaire, sub: Submission, threshold: real)
    requires 0.0 <= threshold && (VerdictsAreIdle(q, sub) || FailingPaysOnlyFatally(q, sub))
    ensures ApprovalSurvives(At(q, threshold), sub)
  {
    SameAtEveryThreshold(q, sub, threshold);
    var p := At(q, threshold);
    forall verdicts, better | NoWorse(verdicts, better) && Outcome(p, sub, verdicts).proposed == Approved
      ensures Outcome(p, sub, better).proposed == Approved
    {
      if VerdictsAreIdle(q, sub) {
        IdleVerdictsDecideNothing(p, sub, verdicts, better);
      } else {
        ApprovalIsMonotone(p, sub, verdicts, better);
      }
    }
  }

  /**
   * At every threshold a questionnaire may have, no pass costs an approval, exactly when the verdicts decide
   * nothing or failing pays only where it is fatal; for submissions that cannot score more than 100.
   */
  lemma ApprovalSurvivesExactlyWhen(q: Questionnaire, sub: Submission)
    requires OneQuestionPerId(sub.ft, FtIds(q, sub)) && PositiveWeights(q, sub) && StaysWithin100(q, sub)
    ensures SurvivesUpTo(q, sub, 100.0) <==> VerdictsAreIdle(q, sub) || FailingPaysOnlyFatally(q, sub)
  {
    if VerdictsAreIdle(q, sub) || FailingPaysOnlyFatally(q, sub) {
      forall threshold | 0.0 <= threshold <= 100.0 ensures ApprovalSurvives(At(q, threshold), sub) {
        SurvivesAt(q, sub, threshold);
      }
    } else {
      var a :| a in sub.ft && a.question.id in FtIds(q, sub) && !PassingPays(a.question) && !a.question.isFatal;
      OnePassTooMany(q, sub, a);
      assert Score(q, sub, BestVerdicts(sub.ft)) <= 100.0;
    }
  }

  /** Over thresholds of any height, the same holds of every submission. */
  lemma ApprovalSurvivesAnyThresholdExactlyWhen(q: Questionnaire, sub: Submission)
    requires OneQuestionPerId(sub.ft, FtIds(q, sub)) && PositiveWeights(q, sub)
    ensures SurvivesAnyThreshold(q, sub) <==> VerdictsAreIdle(q, sub) || FailingPaysOnlyFatally(q, sub)
  {
    if VerdictsAreIdle(q, sub) || FailingPaysOnlyFatally(q, sub) {
      forall threshold | 0.0 <= threshold ensures ApprovalSurvives(At(q, threshold), sub) {
        SurvivesAt(q, sub, threshold);
      }
    } else {
      var a :| a in sub.ft && a.question.id in FtIds(q, sub) && !PassingPays(a.question) && !a.question.isFatal;
      OnePassTooMany(q, sub, a);
    }
  }
}
