/** Which questions a submission has to answer, told from its answers alone. */
module ScoringApplicability {
  import opened Options
  import opened Scoring

  /** Nothing has to be chosen, or some answer chose it. */
  ghost predicate IsChosen(sub: Submission, option: Option<nat>) {
    option == None || exists a :: a in sub.mc && a.option == option.value
  }

  ghost predicate ShowsSection(q: Questionnaire, sub: Submission, id: nat) {
    exists s :: s in q.sections && s.id == id && IsChosen(sub, s.dependsOn)
  }

  /** The question's own condition is met, and that of its section if it has one. */
  ghost predicate IsShown(q: Questionnaire, sub: Submission, x: Question) {
    IsChosen(sub, x.dependsOn) && (x.section == None || ShowsSection(q, sub, x.section.value))
  }

  ghost predicate SomeShown(q: Questionnaire, sub: Submission, questions: seq<Question>, id: nat) {
    exists x :: x in questions && x.id == id && IsShown(q, sub, x)
  }

  lemma ChosenExactlyWhen(sub: Submission, option: Option<nat>)
    ensures Shown(option, Selected(sub)) <==> IsChosen(sub, option)
  {}

  lemma SectionExactlyWhen(q: Questionnaire, sub: Submission, id: nat)
    ensures id in ApplicableSections(q, Selected(sub)) <==> ShowsSection(q, sub, id)
  {
    if s :| s in q.sections && s.id == id && IsChosen(sub, s.dependsOn) {
      ChosenExactlyWhen(sub, s.dependsOn);
    }
    if id in ApplicableSections(q, Selected(sub)) {
      var s :| s in q.sections && s.id == id && Shown(s.dependsOn, Selected(sub));
      ChosenExactlyWhen(sub, s.dependsOn);
    }
  }

  /** A question applies exactly when it is shown. */
  lemma ApplicableExactlyWhen(q: Questionnaire, sub: Submission, questions: seq<Question>, id: nat)
    ensures id in Applicable(q, sub, questions) <==> SomeShown(q, sub, questions, id)
  {
    var sections, selected := ApplicableSections(q, Selected(sub)), Selected(sub);
    forall x
      ensures IsApplicable(x, sections, selected) <==> IsShown(q, sub, x)
    {
      ChosenExactlyWhen(sub, x.dependsOn);
      if x.section.Some? {
        SectionExactlyWhen(q, sub, x.section.value);
      }
    }
  }

  lemma ShownIds(q: Questionnaire, sub: Submission, questions: seq<Question>)
    ensures forall id :: id in Applicable(q, sub, questions) <==> SomeShown(q, sub, questions, id)
  {
    forall id
      ensures id in Applicable(q, sub, questions) <==> SomeShown(q, sub, questions, id)
    {
      ApplicableExactlyWhen(q, sub, questions, id);
    }
  }

  // ---- Missed answers ----

  ghost predicate IsMandatory(questions: seq<Question>, id: nat) {
    exists x :: x in questions && x.id == id && x.isMandatory
  }

  /** A mandatory question is missing exactly when it is shown and no answer of its kind is to it. */
  lemma MissingExactlyWhen(q: Questionnaire, sub: Submission, id: nat)
    ensures id in Missing(q, sub) <==>
            || (IsMandatory(q.mcqs, id) && SomeShown(q, sub, q.mcqs, id) &&
                !exists a :: a in sub.mc && a.question.id == id)
            || (IsMandatory(q.ftqs, id) && SomeShown(q, sub, q.ftqs, id) &&
                !exists a :: a in sub.ft && a.question.id == id)
            || (IsMandatory(q.fuqs, id) && SomeShown(q, sub, q.fuqs, id) && id !in sub.fu)
  {
    ApplicableExactlyWhen(q, sub, q.mcqs, id);
    ApplicableExactlyWhen(q, sub, q.ftqs, id);
    ApplicableExactlyWhen(q, sub, q.fuqs, id);
  }

  // ---- One more choice ----

  /** The question, or its section, was waiting for the option. */
  ghost predicate WaitsFor(q: Questionnaire, x: Question, option: nat) {
    x.dependsOn == Some(option) ||
    exists s :: s in q.sections && x.section == Some(s.id) && s.dependsOn == Some(option)
  }

  lemma OneMoreOption(sub: Submission, a: McAnswer, option: Option<nat>)
    ensures IsChosen(sub.(mc := sub.mc + [a]), option) <==> IsChosen(sub, option) || option == Some(a.option)
  {
    var more := sub.mc + [a];
    assert more[|sub.mc|] == a;
    assert forall b :: b in more <==> b in sub.mc || b == a;
    if option.Some? {
      if b :| b in sub.mc && b.option == option.value {
        assert b in more;
      }
    }
  }

  /** One more choice hides nothing, and shows only what was waiting for it. */
  lemma OneMoreChoice(q: Questionnaire, sub: Submission, a: McAnswer, x: Question)
    ensures var more := sub.(mc := sub.mc + [a]);
            && (IsShown(q, sub, x) ==> IsShown(q, more, x))
            && (!IsShown(q, sub, x) && IsShown(q, more, x) ==> WaitsFor(q, x, a.option))
  {
    var more := sub.(mc := sub.mc + [a]);
    forall option
      ensures IsChosen(more, option) <==> IsChosen(sub, option) || option == Some(a.option)
    {
      OneMoreOption(sub, a, option);
    }
  }
}
