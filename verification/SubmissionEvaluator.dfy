/** `SubmissionEvaluator`: the evaluation, field by field and loop by loop. */
module SubmissionEvaluator {
  import opened Options
  import opened Scoring
  import opened ScoringApplicability

  /** Summing over the batch is summing over all free-text answers, inapplicable ones counting nothing. */
  lemma {:induction false} BatchTotal(answers: seq<FtAnswer>, ids: set<nat>, verdicts: seq<Verdict>)
    ensures Total(BatchOf(answers, ids), FtPointsIn(ids, verdicts)) == Total(answers, FtPointsIn(ids, verdicts))
  {
    if answers != [] {
      var n := |answers| - 1;
      BatchTotal(answers[..n], ids, verdicts);
      var batch := BatchOf(answers[..n], ids);
      assert (batch + [answers[n]])[..|batch|] == batch && batch + [] == batch;
    }
  }

  lemma {:induction false} BatchFails(answers: seq<FtAnswer>, ids: set<nat>, verdicts: seq<Verdict>)
    ensures AnyOf(BatchOf(answers, ids), FtFailsIn(ids, verdicts)) == AnyOf(answers, FtFailsIn(ids, verdicts))
  {
    if answers != [] {
      var n := |answers| - 1;
      BatchFails(answers[..n], ids, verdicts);
      var batch := BatchOf(answers[..n], ids);
      assert (batch + [answers[n]])[..|batch|] == batch && batch + [] == batch;
    }
  }

  lemma FieldsMakeOutcome(
      q: Questionnaire, sub: Submission, verdicts: seq<Verdict>, failed: bool, scored: real, max: real)
    requires failed <==> Fails(q, sub, verdicts)
    requires !failed ==> scored == Scored(q, sub, verdicts) && max == Reachable(q, sub)
    ensures Outcome(q, sub, verdicts) == Conclude(if failed then -100.0 else Percent(scored, max), q.minScore, q.mode)
  {}

  class Evaluator {
    const questionnaire: Questionnaire
    const submission: Submission

    var mcPointsScored: real
    var maxMcPoints: real
    var ftPointsScored: real
    var maxFtPoints: real
    var llmResponse: Option<seq<Verdict>>
    var fatalError: bool
    var missingMandatory: set<nat>

    var selectedOptionIds: set<nat>
    var applicableSectionIds: set<nat>
    var applicableMcqIds: set<nat>
    var applicableFtqIds: set<nat>
    var applicableFuqIds: set<nat>

    /** Every batch handed to the LLM so far. */
    var requests: seq<seq<FtAnswer>>

    ghost predicate KnowsApplicable()
      reads this
    {
      && selectedOptionIds == Selected(submission)
      && applicableSectionIds == ApplicableSections(questionnaire, selectedOptionIds)
      && applicableMcqIds == McIds(questionnaire, submission)
      && applicableFtqIds == FtIds(questionnaire, submission)
      && applicableFuqIds == Applicable(questionnaire, submission, questionnaire.fuqs)
    }

    /** The three sets, told from the answers alone. */
    ghost predicate HoldsWhatIsShown()
      reads this
    {
      && (forall id :: id in applicableMcqIds <==> SomeShown(questionnaire, submission, questionnaire.mcqs, id))
      && (forall id :: id in applicableFtqIds <==> SomeShown(questionnaire, submission, questionnaire.ftqs, id))
      && (forall id :: id in applicableFuqIds <==> SomeShown(questionnaire, submission, questionnaire.fuqs, id))
    }

    lemma KnownIsShown()
      requires KnowsApplicable()
      ensures HoldsWhatIsShown()
    {
      ShownIds(questionnaire, submission, questionnaire.mcqs);
      ShownIds(questionnaire, submission, questionnaire.ftqs);
      ShownIds(questionnaire, submission, questionnaire.fuqs);
    }

    ghost predicate IsFresh()
      reads this
    {
      && mcPointsScored == maxMcPoints == ftPointsScored == maxFtPoints == 0.0
      && llmResponse == None && !fatalError && missingMandatory == {} && requests == []
    }

    predicate IsQuestionApplicable(question: Question)
      reads this
      ensures IsQuestionApplicable(question) <==> IsApplicable(question, applicableSectionIds, selectedOptionIds)
    {
      if question.section.Some? && question.section.value !in applicableSectionIds then false
      else if question.dependsOn.Some? && question.dependsOn.value !in selectedOptionIds then false
      else true
    }

    method ApplicableAmong(questions: seq<Question>) returns (ids: set<nat>)
      ensures ids == ApplicableIds(questions, applicableSectionIds, selectedOptionIds)
    {
      ids := {};
      for i := 0 to |questions|
        invariant ids == ApplicableIds(questions[..i], applicableSectionIds, selectedOptionIds)
      {
        assert questions[..i + 1] == questions[..i] + [questions[i]];
        if IsQuestionApplicable(questions[i]) {
          ids := ids + {questions[i].id};
        }
      }
      assert questions[..|questions|] == questions;
    }

    method ComputeApplicableQuestions()
      requires IsFresh()
      requires applicableSectionIds == {}
      modifies this
      ensures KnowsApplicable() && HoldsWhatIsShown() && IsFresh()
    {
      selectedOptionIds := set a | a in submission.mc :: a.option;
      for i := 0 to |questionnaire.sections|
        invariant IsFresh() && selectedOptionIds == Selected(submission)
        invariant applicableSectionIds ==
                  set s | s in questionnaire.sections[..i] && Shown(s.dependsOn, selectedOptionIds) :: s.id
      {
        var section := questionnaire.sections[i];
        assert questionnaire.sections[..i + 1] == questionnaire.sections[..i] + [section];
        if section.dependsOn == None || section.dependsOn.value in selectedOptionIds {
          applicableSectionIds := applicableSectionIds + {section.id};
        }
      }
      assert questionnaire.sections[..|questionnaire.sections|] == questionnaire.sections;
      applicableMcqIds := ApplicableAmong(questionnaire.mcqs);
      applicableFtqIds := ApplicableAmong(questionnaire.ftqs);
      applicableFuqIds := ApplicableAmong(questionnaire.fuqs);
      KnownIsShown();
    }

    constructor (q: Questionnaire, sub: Submission)
      ensures questionnaire == q && submission == sub && IsFresh()
      ensures KnowsApplicable() && HoldsWhatIsShown()
    {
      questionnaire, submission := q, sub;
      mcPointsScored, maxMcPoints, ftPointsScored, maxFtPoints := 0.0, 0.0, 0.0, 0.0;
      llmResponse, fatalError, missingMandatory, requests := None, false, {}, [];
      selectedOptionIds, applicableSectionIds := {}, {};
      applicableMcqIds, applicableFtqIds, applicableFuqIds := {}, {}, {};
      new;
      ComputeApplicableQuestions();
    }

    method CheckForMissingMandatoryAnswers()
      requires KnowsApplicable() && IsFresh()
      modifies this`missingMandatory
      ensures missingMandatory == Missing(questionnaire, submission)
    {
      var mcq := Unanswered(questionnaire.mcqs, applicableMcqIds, set a | a in submission.mc :: a.question.id);
      var ftq := Unanswered(questionnaire.ftqs, applicableFtqIds, set a | a in submission.ft :: a.question.id);
      var fuq := Unanswered(questionnaire.fuqs, applicableFuqIds, set a | a in submission.fu);
      if mcq != {} || ftq != {} || fuq != {} {
        missingMandatory := mcq + ftq + fuq;
      }
    }

    method Fatalize(question: Question)
      modifies this`fatalError
      ensures fatalError == (old(fatalError) || question.isFatal)
    {
      if question.isFatal {
        fatalError := true;
      }
    }

    method SumWeights(questions: seq<Question>, ids: set<nat>) returns (sum: real)
      ensures sum == MaxPoints(questions, ids)
    {
      sum := 0.0;
      for i := 0 to |questions|
        invariant sum == Total(questions[..i], WeightIn(ids))
      {
        assert questions[..i + 1][..i] == questions[..i];
        if questions[i].id in ids {
          sum := sum + questions[i].positive;
        }
      }
      assert questions[..|questions|] == questions;
    }

    method EvaluateMcAnswers()
      requires KnowsApplicable() && mcPointsScored == 0.0 && !fatalError
      modifies this`maxMcPoints, this`mcPointsScored, this`fatalError
      ensures maxMcPoints == MaxPoints(questionnaire.mcqs, applicableMcqIds)
      ensures missingMandatory != {} ==> mcPointsScored == 0.0 && !fatalError
      ensures missingMandatory == {} ==>
                && mcPointsScored == Total(submission.mc, McPointsIn(applicableMcqIds))
                && fatalError == AnyOf(submission.mc, McFailsIn(applicableMcqIds))
    {
      maxMcPoints := SumWeights(questionnaire.mcqs, applicableMcqIds);
      if missingMandatory != {} {
        return;
      }
      for i := 0 to |submission.mc|
        invariant maxMcPoints == MaxPoints(questionnaire.mcqs, applicableMcqIds)
        invariant mcPointsScored == Total(submission.mc[..i], McPointsIn(applicableMcqIds))
        invariant fatalError == AnyOf(submission.mc[..i], McFailsIn(applicableMcqIds))
      {
        var answer := submission.mc[i];
        PrefixStep(submission.mc, i, McPointsIn(applicableMcqIds), McFailsIn(applicableMcqIds));
        if answer.question.id in applicableMcqIds {
          if answer.isCorrect {
            mcPointsScored := mcPointsScored + answer.question.positive;
          } else {
            mcPointsScored := mcPointsScored - answer.question.negative;
            Fatalize(answer.question);
          }
        }
      }
      assert submission.mc[..|submission.mc|] == submission.mc;
    }

    method AnswersToEvaluate() returns (answers: seq<FtAnswer>)
      ensures answers == BatchOf(submission.ft, applicableFtqIds)
    {
      answers := [];
      for i := 0 to |submission.ft|
        invariant answers == BatchOf(submission.ft[..i], applicableFtqIds)
      {
        assert submission.ft[..i + 1][..i] == submission.ft[..i];
        if submission.ft[i].question.id in applicableFtqIds {
          answers := answers + [submission.ft[i]];
        }
      }
      assert submission.ft[..|submission.ft|] == submission.ft;
    }

    method ScoreFtAnswers(answers: seq<FtAnswer>, verdicts: seq<Verdict>)
      requires forall a :: a in answers ==> a.question.id in applicableFtqIds
      modifies this`ftPointsScored, this`fatalError
      ensures ftPointsScored == old(ftPointsScored) + Total(answers, FtPointsIn(applicableFtqIds, verdicts))
      ensures fatalError == (old(fatalError) || AnyOf(answers, FtFailsIn(applicableFtqIds, verdicts)))
    {
      ghost var points, fails := FtPointsIn(applicableFtqIds, verdicts), FtFailsIn(applicableFtqIds, verdicts);
      for i := 0 to |answers|
        invariant ftPointsScored == old(ftPointsScored) + Total(answers[..i], points)
        invariant fatalError == (old(fatalError) || AnyOf(answers[..i], fails))
      {
        var answer := answers[i];
        PrefixStep(answers, i, points, fails);
        var result := VerdictOn(verdicts, answer.question.id);
        if result.Some? {
          if result.value {
            ftPointsScored := ftPointsScored + answer.question.positive;
          } else {
            ftPointsScored := ftPointsScored - answer.question.negative;
            Fatalize(answer.question);
          }
        }
      }
      assert answers[..|answers|] == answers;
    }

    /** The LLM is an oracle: any function from a batch to a list of verdicts. */
    method EvaluateFtAnswersInBatch(llm: seq<FtAnswer> -> seq<Verdict>)
      requires KnowsApplicable() && ftPointsScored == maxFtPoints == 0.0 && requests == []
      modifies this`maxFtPoints, this`llmResponse, this`ftPointsScored, this`fatalError, this`requests
      ensures var batch := Batch(questionnaire, submission);
              var asks := batch != [] && missingMandatory == {} && !old(fatalError);
              && maxFtPoints == (if batch == [] then 0.0 else MaxPoints(questionnaire.ftqs, applicableFtqIds))
              && requests == (if asks then [batch] else [])
              && ftPointsScored ==
                 (if asks then Total(submission.ft, FtPointsIn(applicableFtqIds, llm(batch))) else 0.0)
              && fatalError ==
                 (old(fatalError) || (asks && AnyOf(submission.ft, FtFailsIn(applicableFtqIds, llm(batch)))))
    {
      var answers := AnswersToEvaluate();
      BatchMembers(submission.ft, applicableFtqIds);
      if answers == [] {
        return;
      }
      maxFtPoints := SumWeights(questionnaire.ftqs, applicableFtqIds);
      if missingMandatory != {} || fatalError {
        return;
      }
      requests := requests + [answers];
      var verdicts := llm(answers);
      llmResponse := Some(verdicts);
      ScoreFtAnswers(answers, verdicts);
      BatchTotal(submission.ft, applicableFtqIds, verdicts);
      BatchFails(submission.ft, applicableFtqIds, verdicts);
    }

    method CreateOrUpdateEvaluation() returns (evaluation: Evaluation)
      ensures var failed := fatalError || missingMandatory != {};
              var scored, max := mcPointsScored + ftPointsScored, maxMcPoints + maxFtPoints;
              var score := if failed then -100.0 else Percent(scored, max);
              evaluation == Conclude(score, questionnaire.minScore, questionnaire.mode)
    {
      var totalPointsScored := mcPointsScored + ftPointsScored;
      var totalMaxPoints := maxMcPoints + maxFtPoints;
      var scorePercent;
      if fatalError || missingMandatory != {} {
        scorePercent := -100.0;
      } else {
        scorePercent := if totalMaxPoints > 0.0 then totalPointsScored / totalMaxPoints * 100.0 else 100.0;
      }
      var passed := scorePercent >= questionnaire.minScore;
      var proposedStatus := if passed then Approved else Rejected;
      if questionnaire.mode == Automatic {
        evaluation := Evaluation(scorePercent, proposedStatus, Final(proposedStatus));
      } else {
        evaluation := Evaluation(scorePercent, proposedStatus, PendingReview);
      }
    }

    method Evaluate(llm: seq<FtAnswer> -> seq<Verdict>) returns (evaluation: Evaluation)
      requires KnowsApplicable() && IsFresh()
      modifies this
      ensures evaluation == Outcome(questionnaire, submission, llm(Batch(questionnaire, submission)))
      ensures requests == if AsksLlm(questionnaire, submission) then [Batch(questionnaire, submission)] else []
      ensures missingMandatory == Missing(questionnaire, submission)
    {
      CheckForMissingMandatoryAnswers();
      EvaluateMcAnswers();
      EvaluateFtAnswersInBatch(llm);
      ghost var failed := fatalError || missingMandatory != {};
      FieldsMakeOutcome(questionnaire, submission, llm(Batch(questionnaire, submission)),
        failed, mcPointsScored + ftPointsScored, maxMcPoints + maxFtPoints);
      evaluation := CreateOrUpdateEvaluation();
    }
  }
}
