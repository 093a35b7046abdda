/** Scores depend neither on the order of answers nor on answers that do not apply. */
module ScoringOrder {
  import opened Options
  import opened Scoring
  import opened ScoringProperties

  // ---- Order ----

  lemma {:induction false} TotalConcat<A>(a: seq<A>, b: seq<A>, points: A -> real)
    ensures Total(a + b, points) == Total(a, points) + Total(b, points)
  {
    if b == [] {
      assert a + b == a;
    } else {
      var n := |b| - 1;
      assert (a + b)[..|a| + n] == a + b[..n];
      TotalConcat(a, b[..n], points);
    }
  }

  lemma RemoveAt<A>(s: seq<A>, i: nat)
    requires i < |s|
    ensures multiset(s[..i] + s[i + 1..]) == multiset(s) - multiset{s[i]}
    ensures s == s[..i] + [s[i]] + s[i + 1..]
  {
    assert s == s[..i] + [s[i]] + s[i + 1..];
    assert multiset(s[..i] + [s[i]] + s[i + 1..]) == multiset(s[..i]) + multiset{s[i]} + multiset(s[i + 1..]);
  }

  lemma TotalWithout<A>(s: seq<A>, i: nat, points: A -> real)
    requires i < |s|
    ensures Total(s, points) == Total(s[..i] + s[i + 1..], points) + points(s[i])
  {
    RemoveAt(s, i);
    TotalConcat(s[..i] + [s[i]], s[i + 1..], points);
    TotalConcat(s[..i], [s[i]], points);
    TotalConcat(s[..i], s[i + 1..], points);
    TotalOfOne(s[i], points);
  }

  lemma FindLast<A>(a: seq<A>, b: seq<A>) returns (i: nat)
    requires a != [] && multiset(a) == multiset(b)
    ensures i < |b| && b[i] == a[|a| - 1]
    ensures multiset(a[..|a| - 1]) == multiset(b[..i] + b[i + 1..])
  {
    var n := |a| - 1;
    assert a[n] in multiset(a);
    i :| 0 <= i < |b| && b[i] == a[n];
    RemoveAt(a, n);
    RemoveAt(b, i);
    assert a[..n] + a[n + 1..] == a[..n];
  }

  lemma {:induction false} TotalIgnoresOrder<A>(a: seq<A>, b: seq<A>, points: A -> real)
    requires multiset(a) == multiset(b)
    ensures Total(a, points) == Total(b, points)
    decreases |a|
  {
    if a == [] {
      assert |b| == |multiset(b)| == 0;
    } else {
      var i := FindLast(a, b);
      TotalIgnoresOrder(a[..|a| - 1], b[..i] + b[i + 1..], points);
      TotalWithout(b, i, points);
    }
  }

  lemma SameMembers<A>(a: seq<A>, b: seq<A>)
    requires multiset(a) == multiset(b)
    ensures forall x :: x in a <==> x in b
  {
    assert forall x :: x in a <==> x in multiset(a);
    assert forall x :: x in b <==> x in multiset(b);
  }

  lemma AnyOfIgnoresOrder<A>(a: seq<A>, b: seq<A>, holds: A -> bool)
    requires forall x :: x in a <==> x in b
    ensures AnyOf(a, holds) <==> AnyOf(b, holds)
  {
    AnyOfIsExists(a, holds);
    AnyOfIsExists(b, holds);
  }

  lemma SameSelected(sub: Submission, other: Submission)
    requires forall a :: a in sub.mc <==> a in other.mc
    ensures Selected(sub) == Selected(other)
  {}

  lemma SameBatch(a: seq<FtAnswer>, b: seq<FtAnswer>, ids: set<nat>)
    requires forall x :: x in a <==> x in b
    ensures forall x :: x in BatchOf(a, ids) <==> x in BatchOf(b, ids)
    ensures BatchOf(a, ids) == [] <==> BatchOf(b, ids) == []
  {
    BatchMembers(a, ids);
    BatchMembers(b, ids);
    if BatchOf(a, ids) != [] {
      assert BatchOf(a, ids)[0] in BatchOf(b, ids);
    }
    if BatchOf(b, ids) != [] {
      assert BatchOf(b, ids)[0] in BatchOf(a, ids);
    }
  }

  lemma SameMissing(q: Questionnaire, sub: Submission, other: Submission)
    requires Selected(sub) == Selected(other)
    requires (forall a :: a in sub.mc <==> a in other.mc) && (forall a :: a in sub.ft <==> a in other.ft)
    requires forall a :: a in sub.fu <==> a in other.fu
    ensures Missing(q, sub) == Missing(q, other)
  {}

  /** For the same verdicts, score, proposal and status depend on the multisets of answers only. */
  lemma OutcomeIgnoresOrder(q: Questionnaire, sub: Submission, other: Submission, verdicts: seq<Verdict>)
    requires multiset(sub.mc) == multiset(other.mc) && multiset(sub.ft) == multiset(other.ft)
    requires multiset(sub.fu) == multiset(other.fu)
    ensures Outcome(q, sub, verdicts) == Outcome(q, other, verdicts)
    ensures Missing(q, sub) == Missing(q, other) && (AsksLlm(q, sub) <==> AsksLlm(q, other))
    ensures forall a :: a in Batch(q, sub) <==> a in Batch(q, other)
  {
    SameMembers(sub.mc, other.mc);
    SameMembers(sub.ft, other.ft);
    SameMembers(sub.fu, other.fu);
    SameSelected(sub, other);
    var mcIds, ftIds := McIds(q, sub), FtIds(q, sub);
    TotalIgnoresOrder(sub.mc, other.mc, McPointsIn(mcIds));
    TotalIgnoresOrder(sub.ft, other.ft, FtPointsIn(ftIds, verdicts));
    AnyOfIgnoresOrder(sub.mc, other.mc, McFailsIn(mcIds));
    AnyOfIgnoresOrder(sub.ft, other.ft, FtFailsIn(ftIds, verdicts));
    SameBatch(sub.ft, other.ft, ftIds);
    SameMissing(q, sub, other);
  }

  // ---- Irrelevant answers ----

  lemma MoreAnsweredElsewhere(questions: seq<Question>, applicable: set<nat>, answered: set<nat>, id: nat)
    requires id !in applicable
    ensures Unanswered(questions, applicable, answered + {id}) == Unanswered(questions, applicable, answered)
  {}

  lemma AppendStep<A>(items: seq<A>, x: A, points: A -> real, holds: A -> bool)
    ensures Total(items + [x], points) == Total(items, points) + points(x)
    ensures AnyOf(items + [x], holds) <==> AnyOf(items, holds) || holds(x)
  {}

  lemma SameOutcome(q: Questionnaire, sub: Submission, more: Submission, verdicts: seq<Verdict>)
    requires Fails(q, more, verdicts) == Fails(q, sub, verdicts)
    requires Scored(q, more, verdicts) == Scored(q, sub, verdicts) && Reachable(q, more) == Reachable(q, sub)
    ensures Outcome(q, more, verdicts) == Outcome(q, sub, verdicts)
  {}

  /** A free-text answer to an inapplicable question changes neither the LLM's batch nor the outcome. */
  lemma InapplicableFtAnswerIsIgnored(q: Questionnaire, sub: Submission, a: FtAnswer, verdicts: seq<Verdict>)
    requires a.question.id !in FtIds(q, sub)
    ensures var more := sub.(ft := sub.ft + [a]);
            Batch(q, more) == Batch(q, sub) && Outcome(q, more, verdicts) == Outcome(q, sub, verdicts)
  {}

  ghost predicate NothingDependsOn(q: Questionnaire, option: nat) {
    && (forall s :: s in q.sections ==> s.dependsOn != Some(option))
    && (forall x :: x in q.mcqs || x in q.ftqs || x in q.fuqs ==> x.dependsOn != Some(option))
  }

  lemma SameApplicable(q: Questionnaire, questions: seq<Question>, sub: Submission, more: Submission, option: nat)
    requires NothingDependsOn(q, option) && Selected(more) == Selected(sub) + {option}
    requires forall x :: x in questions ==> x.dependsOn != Some(option)
    ensures Applicable(q, more, questions) == Applicable(q, sub, questions)
  {}

  lemma McAppended(sub: Submission, a: McAnswer)
    ensures Selected(sub.(mc := sub.mc + [a])) == Selected(sub) + {a.option}
    ensures (set x | x in sub.mc + [a] :: x.question.id) == (set x | x in sub.mc :: x.question.id) + {a.question.id}
  {}

  /** Nor does a choice on an inapplicable question, if nothing depends on the option chosen. */
  lemma InapplicableMcAnswerIsIgnored(q: Questionnaire, sub: Submission, a: McAnswer, verdicts: seq<Verdict>)
    requires a.question.id !in McIds(q, sub) && NothingDependsOn(q, a.option)
    ensures var more := sub.(mc := sub.mc + [a]);
            Batch(q, more) == Batch(q, sub) && Outcome(q, more, verdicts) == Outcome(q, sub, verdicts)
  {
    var more := sub.(mc := sub.mc + [a]);
    var ids := McIds(q, sub);
    McAppended(sub, a);
    SameApplicable(q, q.mcqs, sub, more, a.option);
    SameApplicable(q, q.ftqs, sub, more, a.option);
    SameApplicable(q, q.fuqs, sub, more, a.option);
    assert Missing(q, more) == Missing(q, sub) by {
      MoreAnsweredElsewhere(q.mcqs, ids, set x | x in sub.mc :: x.question.id, a.question.id);
    }
    AppendStep(sub.mc, a, McPointsIn(ids), McFailsIn(ids));
    SameOutcome(q, sub, more, verdicts);
  }
}
