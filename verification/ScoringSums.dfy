/** What the scores are made of, answer by answer. */
module ScoringSums {
  import opened Options
  import opened Scoring
  import opened ScoringProperties

  /** The sum of `worth` over the items that count. */
  ghost function SumWhere<A>(items: seq<A>, counts: A -> bool, worth: A -> real): real {
    if items == [] then 0.0
    else
      var n := |items| - 1;
      SumWhere(items[..n], counts, worth) + if counts(items[n]) then worth(items[n]) else 0.0
  }

  // ---- Choices ----

  ghost function Picked(ids: set<nat>, correct: bool): McAnswer -> bool {
    (a: McAnswer) => a.question.id in ids && a.isCorrect == correct
  }

  ghost function McWeight(positive: bool): McAnswer -> real {
    (a: McAnswer) => if positive then a.question.positive else a.question.negative
  }

  /** Positive weights of the right answers, less negative weights of the wrong ones, inapplicable ones aside. */
  lemma {:induction false} McScoreIs(answers: seq<McAnswer>, ids: set<nat>)
    ensures Total(answers, McPointsIn(ids)) ==
            SumWhere(answers, Picked(ids, true), McWeight(true))
            - SumWhere(answers, Picked(ids, false), McWeight(false))
  {
    if answers != [] {
      McScoreIs(answers[..|answers| - 1], ids);
    }
  }

  // ---- Verdicts ----

  ghost predicate NoLater(verdicts: seq<Verdict>, id: nat, i: int) {
    forall j :: i < j < |verdicts| && 0 <= j ==> verdicts[j].question != id
  }

  /** The LLM's last word on the question. */
  ghost predicate IsLastWord(verdicts: seq<Verdict>, id: nat, passing: bool) {
    exists i :: 0 <= i < |verdicts| && verdicts[i] == Verdict(id, passing) && NoLater(verdicts, id, i)
  }

  lemma {:induction false} LastWordCounts(verdicts: seq<Verdict>, id: nat, passing: bool)
    ensures VerdictOn(verdicts, id) == Some(passing) <==> IsLastWord(verdicts, id, passing)
  {
    if verdicts != [] {
      var n := |verdicts| - 1;
      LastWordCounts(verdicts[..n], id, passing);
      if verdicts[n].question == id {
        assert NoLater(verdicts, id, n);
      } else {
        assert forall i :: 0 <= i < n ==> (NoLater(verdicts, id, i) <==> NoLater(verdicts[..n], id, i));
        if i :| 0 <= i < n && verdicts[..n][i] == Verdict(id, passing) && NoLater(verdicts[..n], id, i) {
          assert verdicts[i] == Verdict(id, passing);
        }
        if i :| 0 <= i < |verdicts| && verdicts[i] == Verdict(id, passing) && NoLater(verdicts, id, i) {
          assert verdicts[..n][i] == Verdict(id, passing);
        }
      }
    }
  }

  ghost function Judged(ids: set<nat>, verdicts: seq<Verdict>, passing: bool): FtAnswer -> bool {
    (a: FtAnswer) => a.question.id in ids && IsLastWord(verdicts, a.question.id, passing)
  }

  ghost function FtWeight(positive: bool): FtAnswer -> real {
    (a: FtAnswer) => if positive then a.question.positive else a.question.negative
  }

  /** The same of free-text answers, by the LLM's last word; answers it is silent about score nothing. */
  lemma {:induction false} FtScoreIs(answers: seq<FtAnswer>, ids: set<nat>, verdicts: seq<Verdict>)
    ensures Total(answers, FtPointsIn(ids, verdicts)) ==
            SumWhere(answers, Judged(ids, verdicts, true), FtWeight(true))
            - SumWhere(answers, Judged(ids, verdicts, false), FtWeight(false))
  {
    if answers != [] {
      var n := |answers| - 1;
      FtScoreIs(answers[..n], ids, verdicts);
      LastWordCounts(verdicts, answers[n].question.id, true);
      LastWordCounts(verdicts, answers[n].question.id, false);
    }
  }

  // ---- The maximum ----

  lemma {:induction false} WeightsAre(questions: seq<Question>, ids: set<nat>)
    ensures MaxPoints(questions, ids) ==
            SumWhere(questions, (x: Question) => x.id in ids, (x: Question) => x.positive)
  {
    if questions != [] {
      WeightsAre(questions[..|questions| - 1], ids);
    }
  }

  ghost predicate AnswersFreeText(q: Questionnaire, sub: Submission) {
    exists a :: a in sub.ft && a.question.id in FtIds(q, sub)
  }

  lemma BatchExactlyWhen(q: Questionnaire, sub: Submission)
    ensures Batch(q, sub) != [] <==> AnswersFreeText(q, sub)
  {
    BatchMembers(sub.ft, FtIds(q, sub));
    if Batch(q, sub) != [] {
      assert Batch(q, sub)[0] in Batch(q, sub);
    }
  }

  /** The batch holds the applicable answers in the order they were given. */
  lemma {:induction false} BatchKeepsOrder(before: seq<FtAnswer>, a: FtAnswer, after: seq<FtAnswer>, ids: set<nat>)
    ensures BatchOf(before + [a] + after, ids) ==
            BatchOf(before, ids) + (if a.question.id in ids then [a] else []) + BatchOf(after, ids)
  {
    if after == [] {
      assert before + [a] + after == before + [a];
      assert (before + [a])[..|before|] == before;
    } else {
      var n := |after| - 1;
      var all := before + [a] + after;
      assert all[..|all| - 1] == before + [a] + after[..n] && all[|all| - 1] == after[n];
      BatchKeepsOrder(before, a, after[..n], ids);
    }
  }

  /** Weights of all applicable questions; of free-text ones only if one of them is answered. */
  lemma MaximumIs(q: Questionnaire, sub: Submission)
    ensures Reachable(q, sub) ==
            SumWhere(q.mcqs, (x: Question) => x.id in McIds(q, sub), (x: Question) => x.positive)
            + if AnswersFreeText(q, sub)
              then SumWhere(q.ftqs, (x: Question) => x.id in FtIds(q, sub), (x: Question) => x.positive) else 0.0
  {
    WeightsAre(q.mcqs, McIds(q, sub));
    WeightsAre(q.ftqs, FtIds(q, sub));
    BatchExactlyWhen(q, sub);
  }

  // ---- Failing ----

  /** The LLM is asked exactly when an applicable free-text answer is given and nothing has failed the submission. */
  lemma AsksExactlyWhen(q: Questionnaire, sub: Submission)
    ensures AsksLlm(q, sub) <==> AnswersFreeText(q, sub) && !IsBlocked(q, sub)
  {
    BatchExactlyWhen(q, sub);
  }

  ghost predicate FailsFatally(q: Questionnaire, sub: Submission, verdicts: seq<Verdict>) {
    exists a :: a in sub.ft && a.question.isFatal && a.question.id in FtIds(q, sub) &&
      IsLastWord(verdicts, a.question.id, false)
  }

  /** A submission fails before the LLM is asked, or by its last word on a fatal question. */
  lemma FailsExactlyWhen(q: Questionnaire, sub: Submission, verdicts: seq<Verdict>)
    ensures Fails(q, sub, verdicts) <==> IsBlocked(q, sub) || FailsFatally(q, sub, verdicts)
  {
    var ids := FtIds(q, sub);
    AnyOfIsExists(sub.ft, FtFailsIn(ids, verdicts));
    AsksExactlyWhen(q, sub);
    forall a | a in sub.ft
      ensures FtFailsIn(ids, verdicts)(a) <==>
              a.question.isFatal && a.question.id in ids && IsLastWord(verdicts, a.question.id, false)
    {
      LastWordCounts(verdicts, a.question.id, false);
    }
  }

  /** The points of a submission that does not fail. */
  ghost function PointsOf(q: Questionnaire, sub: Submission, verdicts: seq<Verdict>): real {
    var mcIds, ftIds := McIds(q, sub), FtIds(q, sub);
    SumWhere(sub.mc, Picked(mcIds, true), McWeight(true)) - SumWhere(sub.mc, Picked(mcIds, false), McWeight(false))
    + if !AnswersFreeText(q, sub) then 0.0
      else SumWhere(sub.ft, Judged(ftIds, verdicts, true), FtWeight(true))
           - SumWhere(sub.ft, Judged(ftIds, verdicts, false), FtWeight(false))
  }

  lemma PointsAre(q: Questionnaire, sub: Submission, verdicts: seq<Verdict>)
    requires !IsBlocked(q, sub)
    ensures Scored(q, sub, verdicts) == PointsOf(q, sub, verdicts)
  {
    McScoreIs(sub.mc, McIds(q, sub));
    FtScoreIs(sub.ft, FtIds(q, sub), verdicts);
    AsksExactlyWhen(q, sub);
  }

  lemma PercentOfMaximum(scored: real, max: real)
    requires max > 0.0
    ensures Percent(scored, max) * max == 100.0 * scored
  {
    var ratio := scored / max;
    assert ratio * max == scored;
    assert (ratio * 100.0) * max == 100.0 * (ratio * max);
  }

  /** The score is -100 where the submission fails, and else the share of the maximum, or 100 if that is nothing. */
  lemma ScoreIs(q: Questionnaire, sub: Submission, verdicts: seq<Verdict>)
    ensures Fails(q, sub, verdicts) ==> Score(q, sub, verdicts) == -100.0
    ensures !Fails(q, sub, verdicts) && Reachable(q, sub) <= 0.0 ==> Score(q, sub, verdicts) == 100.0
    ensures !Fails(q, sub, verdicts) && Reachable(q, sub) > 0.0 ==>
              Score(q, sub, verdicts) * Reachable(q, sub) == 100.0 * PointsOf(q, sub, verdicts)
  {
    if !Fails(q, sub, verdicts) && Reachable(q, sub) > 0.0 {
      PointsAre(q, sub, verdicts);
      PercentOfMaximum(Scored(q, sub, verdicts), Reachable(q, sub));
    }
  }
}
