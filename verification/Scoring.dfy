/** Questionnaires, submissions, and what an evaluation of one by the other amounts to. */
module Scoring {
  import opened Options

  datatype Question = Question(
    id: nat,
    section: Option<nat>,
    dependsOn: Option<nat>,
    positive: real,
    negative: real,
    isFatal: bool,
    isMandatory: bool
  )

  datatype Section = Section(id: nat, dependsOn: Option<nat>)

  datatype Mode = Automatic | Manual | Hybrid

  datatype Questionnaire = Questionnaire(
    sections: seq<Section>,
    mcqs: seq<Question>,
    ftqs: seq<Question>,
    fuqs: seq<Question>,
    minScore: real,
    mode: Mode
  )

  datatype McAnswer = McAnswer(question: Question, option: nat, isCorrect: bool)
  datatype FtAnswer = FtAnswer(question: Question, text: string)

  /** The answer rows of a submission; file uploads only by the question they answer. */
  datatype Submission = Submission(mc: seq<McAnswer>, ft: seq<FtAnswer>, fu: seq<nat>)

  /** One entry of the LLM's response. */
  datatype Verdict = Verdict(question: nat, isPassing: bool)

  datatype Proposal = Approved | Rejected
  datatype Status = Final(proposal: Proposal) | PendingReview
  datatype Evaluation = Evaluation(score: real, proposed: Proposal, status: Status)

  // ---- Applicability ----

  function Selected(sub: Submission): set<nat> {
    set a | a in sub.mc :: a.option
  }

  predicate Shown(dependsOn: Option<nat>, selected: set<nat>) {
    dependsOn == None || dependsOn.value in selected
  }

  function ApplicableSections(q: Questionnaire, selected: set<nat>): set<nat> {
    set s | s in q.sections && Shown(s.dependsOn, selected) :: s.id
  }

  predicate IsApplicable(question: Question, sections: set<nat>, selected: set<nat>) {
    (question.section == None || question.section.value in sections) && Shown(question.dependsOn, selected)
  }

  function ApplicableIds(questions: seq<Question>, sections: set<nat>, selected: set<nat>): set<nat> {
    set x | x in questions && IsApplicable(x, sections, selected) :: x.id
  }

  function Applicable(q: Questionnaire, sub: Submission, questions: seq<Question>): set<nat> {
    ApplicableIds(questions, ApplicableSections(q, Selected(sub)), Selected(sub))
  }

  // ---- Mandatory questions ----

  function Unanswered(questions: seq<Question>, applicable: set<nat>, answered: set<nat>): set<nat> {
    (set x | x in questions && x.isMandatory && x.id in applicable :: x.id) - answered
  }

  function Missing(q: Questionnaire, sub: Submission): set<nat> {
    Unanswered(q.mcqs, Applicable(q, sub, q.mcqs), set a | a in sub.mc :: a.question.id)
    + Unanswered(q.ftqs, Applicable(q, sub, q.ftqs), set a | a in sub.ft :: a.question.id)
    + Unanswered(q.fuqs, Applicable(q, sub, q.fuqs), set a | a in sub.fu)
  }

  // ---- Sums ----

  function Total<A>(items: seq<A>, points: A -> real): real {
    if items == [] then 0.0 else Total(items[..|items| - 1], points) + points(items[|items| - 1])
  }

  predicate AnyOf<A>(items: seq<A>, holds: A -> bool) {
    items != [] && (AnyOf(items[..|items| - 1], holds) || holds(items[|items| - 1]))
  }

  lemma PrefixStep<A>(items: seq<A>, i: nat, points: A -> real, holds: A -> bool)
    requires i < |items|
    ensures Total(items[..i + 1], points) == Total(items[..i], points) + points(items[i])
    ensures AnyOf(items[..i + 1], holds) <==> AnyOf(items[..i], holds) || holds(items[i])
  {
    assert items[..i + 1][..i] == items[..i];
  }

  lemma {:induction false} AnyOfIsExists<A>(items: seq<A>, holds: A -> bool)
    ensures AnyOf(items, holds) <==> exists a :: a in items && holds(a)
  {
    if items != [] {
      var n := |items| - 1;
      AnyOfIsExists(items[..n], holds);
      assert forall a :: a in items <==> a in items[..n] || a == items[n];
    }
  }

  /** The weight of a question, if it is one of `ids`. */
  function WeightIn(ids: set<nat>): Question -> real {
    (x: Question) => if x.id in ids then x.positive else 0.0
  }

  function MaxPoints(questions: seq<Question>, ids: set<nat>): real {
    Total(questions, WeightIn(ids))
  }

  /** What an answer to one of `ids` scores. */
  function McPointsIn(ids: set<nat>): McAnswer -> real {
    (a: McAnswer) =>
      if a.question.id !in ids then 0.0
      else if a.isCorrect then a.question.positive else -a.question.negative
  }

  /** Whether an answer to one of `ids` fails a fatal question. */
  function McFailsIn(ids: set<nat>): McAnswer -> bool {
    (a: McAnswer) => a.question.id in ids && !a.isCorrect && a.question.isFatal
  }

  /** Of several results for one question the last counts. */
  function VerdictOn(verdicts: seq<Verdict>, id: nat): Option<bool> {
    if verdicts == [] then None
    else
      var v := verdicts[|verdicts| - 1];
      if v.question == id then Some(v.isPassing) else VerdictOn(verdicts[..|verdicts| - 1], id)
  }

  function FtPointsIn(ids: set<nat>, verdicts: seq<Verdict>): FtAnswer -> real {
    (a: FtAnswer) =>
      if a.question.id !in ids then 0.0
      else match VerdictOn(verdicts, a.question.id)
        case None => 0.0
        case Some(passing) => if passing then a.question.positive else -a.question.negative
  }

  function FtFailsIn(ids: set<nat>, verdicts: seq<Verdict>): FtAnswer -> bool {
    (a: FtAnswer) =>
      a.question.id in ids && a.question.isFatal && VerdictOn(verdicts, a.question.id) == Some(false)
  }

  // ---- The evaluation as a whole ----

  function FtIds(q: Questionnaire, sub: Submission): set<nat> {
    Applicable(q, sub, q.ftqs)
  }

  function McIds(q: Questionnaire, sub: Submission): set<nat> {
    Applicable(q, sub, q.mcqs)
  }

  /** The free-text answers worth evaluating. */
  function BatchOf(answers: seq<FtAnswer>, ids: set<nat>): seq<FtAnswer> {
    if answers == [] then []
    else
      var n := |answers| - 1;
      BatchOf(answers[..n], ids) + if answers[n].question.id in ids then [answers[n]] else []
  }

  lemma {:induction false} BatchMembers(answers: seq<FtAnswer>, ids: set<nat>)
    ensures forall a :: a in BatchOf(answers, ids) <==> a in answers && a.question.id in ids
  {
    if answers != [] {
      var n := |answers| - 1;
      BatchMembers(answers[..n], ids);
      assert answers == answers[..n] + [answers[n]];
    }
  }

  function Batch(q: Questionnaire, sub: Submission): seq<FtAnswer> {
    BatchOf(sub.ft, FtIds(q, sub))
  }

  /** A mandatory question was missed or a fatal multiple-choice question failed. */
  predicate IsBlocked(q: Questionnaire, sub: Submission) {
    Missing(q, sub) != {} || AnyOf(sub.mc, McFailsIn(McIds(q, sub)))
  }

  predicate AsksLlm(q: Questionnaire, sub: Submission) {
    Batch(q, sub) != [] && !IsBlocked(q, sub)
  }

  predicate Fails(q: Questionnaire, sub: Submission, verdicts: seq<Verdict>) {
    IsBlocked(q, sub) || (AsksLlm(q, sub) && AnyOf(sub.ft, FtFailsIn(FtIds(q, sub), verdicts)))
  }

  function Scored(q: Questionnaire, sub: Submission, verdicts: seq<Verdict>): real {
    Total(sub.mc, McPointsIn(McIds(q, sub)))
    + if AsksLlm(q, sub) then Total(sub.ft, FtPointsIn(FtIds(q, sub), verdicts)) else 0.0
  }

  function Reachable(q: Questionnaire, sub: Submission): real {
    MaxPoints(q.mcqs, McIds(q, sub)) + if Batch(q, sub) == [] then 0.0 else MaxPoints(q.ftqs, FtIds(q, sub))
  }

  function Percent(scored: real, max: real): real {
    if max > 0.0 then scored / max * 100.0 else 100.0
  }

  function Score(q: Questionnaire, sub: Submission, verdicts: seq<Verdict>): real {
    if Fails(q, sub, verdicts) then -100.0 else Percent(Scored(q, sub, verdicts), Reachable(q, sub))
  }

  function Conclude(score: real, minScore: real, mode: Mode): Evaluation {
    var proposed := if score >= minScore then Approved else Rejected;
    Evaluation(score, proposed, if mode == Automatic then Final(proposed) else PendingReview)
  }

  function Outcome(q: Questionnaire, sub: Submission, verdicts: seq<Verdict>): Evaluation {
    Conclude(Score(q, sub, verdicts), q.minScore, q.mode)
  }
}
