/** How saving a subscription moves the organization member behind it. One user, one organization. */
module MemberSync {
  import opened Options

  datatype SubStatus = Pending | Active | Paused | PastDue | Cancelled | Expired
  datatype MemberStatus = MemberActive | MemberPaused | MemberCancelled | MemberBanned
  datatype PaymentStatus = PaymentPending | Succeeded | Failed | Refunded

  datatype Plan = Plan(tier: nat, online: bool)
  datatype Sub = Sub(status: SubStatus, plan: Plan, createdAt: int, periodStart: Option<int>)
  datatype Payment = Payment(sub: nat, status: PaymentStatus, periodEnd: int)
  datatype Membership = Membership(status: MemberStatus, tier: Option<nat>)

  datatype World = World(subs: map<nat, Sub>, payments: seq<Payment>, member: Option<Membership>)

  predicate IsTerminal(status: SubStatus) {
    status == Cancelled || status == Expired
  }

  /** `_SUBSCRIPTION_TO_MEMBER_STATUS` */
  function Implied(status: SubStatus): MemberStatus {
    match status
    case Pending => MemberActive
    case Active => MemberActive
    case PastDue => MemberActive
    case Paused => MemberPaused
    case Expired => MemberCancelled
    case Cancelled => MemberCancelled
  }

  predicate HasPaidCurrentPeriod(payments: seq<Payment>, id: nat, sub: Sub) {
    sub.periodStart.Some? &&
    exists p :: p in payments && p.sub == id && p.status == Succeeded && sub.periodStart.value <= p.periodEnd
  }

  /** An ONLINE subscription no money has been collected for yet. */
  predicate IsGated(payments: seq<Payment>, id: nat, sub: Sub) {
    sub.plan.online && (sub.status == Pending || (sub.status == PastDue && !HasPaidCurrentPeriod(payments, id, sub)))
  }

  predicate NewerOwnsMember(subs: map<nat, Sub>, sub: Sub) {
    exists j :: j in subs && sub.createdAt < subs[j].createdAt && !IsTerminal(subs[j].status)
  }

  /** The status a save aims at, given the status committed before it. */
  function Target(member: Membership, sub: Sub, before: Option<SubStatus>): MemberStatus {
    if member.status == MemberPaused && Implied(sub.status) == MemberActive && before != Some(Paused)
    then MemberPaused else Implied(sub.status)
  }

  /** The member once `sub`, already stored, has been synced. */
  function Synced(w: World, id: nat, sub: Sub, before: Option<SubStatus>): Option<Membership> {
    if IsGated(w.payments, id, sub) || NewerOwnsMember(w.subs, sub)
       || w.member == None || w.member.value.status == MemberBanned
    then w.member
    else Some(Membership(Target(w.member.value, sub, before), Some(sub.plan.tier)))
  }

  function CommittedStatus(w: World, id: nat): Option<SubStatus> {
    if id in w.subs then Some(w.subs[id].status) else None
  }

  /** Saving row `id` as `sub`: pre_save capture, write, post_save sync. */
  function Save(w: World, id: nat, sub: Sub): World {
    var written := w.(subs := w.subs[id := sub]);
    written.(member := Synced(written, id, sub, CommittedStatus(w, id)))
  }

  // ---- The handlers ----

  datatype MemberField = StatusField | TierField | UpdatedAtField

  class Member {
    var status: MemberStatus
    var tier: Option<nat>

    ghost function View(): Membership
      reads this
    {
      Membership(status, tier)
    }
  }

  class Database {
    var subs: map<nat, Sub>
    var payments: seq<Payment>
    var member: Member?

    ghost function View(): World
      reads this, member
    {
      World(subs, payments, if member == null then None else Some(member.View()))
    }

    method SyncMember(id: nat, instance: Sub, oldStatus: Option<SubStatus>) returns (updateFields: seq<MemberField>)
      modifies member
      ensures View() == old(View()).(member := Synced(old(View()), id, instance, oldStatus))
      ensures StatusField in updateFields <==> member != null && member.status != old(member.status)
      ensures TierField in updateFields <==> member != null && member.tier != old(member.tier)
      ensures UpdatedAtField in updateFields <==> StatusField in updateFields || TierField in updateFields
      ensures updateFields == [] <==> View().member == old(View()).member
    {
      updateFields := [];
      var targetStatus := Implied(instance.status);
      if instance.plan.online
         && (instance.status == Pending
             || (instance.status == PastDue && !HasPaidCurrentPeriod(payments, id, instance))) {
        return;
      }
      if NewerOwnsMember(subs, instance) {
        return;
      }
      if member == null {
        return;
      }
      if member.status == MemberBanned {
        return;
      }
      if member.status == MemberPaused && targetStatus == MemberActive && oldStatus != Some(Paused) {
        targetStatus := member.status;
      }
      var targetTier := Some(instance.plan.tier);
      if member.status != targetStatus {
        member.status := targetStatus;
        updateFields := updateFields + [StatusField];
      }
      if member.tier != targetTier {
        member.tier := targetTier;
        updateFields := updateFields + [TierField];
      }
      if updateFields != [] {
        updateFields := updateFields + [UpdatedAtField];
      }
    }

    /** Stores a subscription with its two signal handlers around the write. */
    method SaveSubscription(id: nat, instance: Sub) returns (updateFields: seq<MemberField>)
      modifies this`subs, member
      ensures member == old(member) && View() == Save(old(View()), id, instance)
      ensures updateFields == [] <==> View().member == old(View()).member
    {
      var oldStatus := if id in subs then Some(subs[id].status) else None;
      subs := subs[id := instance];
      updateFields := SyncMember(id, instance, oldStatus);
    }
  }

  // ---- Runs ----

  datatype Action =
    | SaveSub(id: nat, sub: Sub)
    | RecordPayment(payment: Payment)
    | EditMember(member: Option<Membership>)   // creation, a ban, staff edits: saved directly

  function Do(w: World, a: Action): World {
    match a
    case SaveSub(id, sub) => Save(w, id, sub)
    case RecordPayment(p) => w.(payments := w.payments + [p])
    case EditMember(m) => w.(member := m)
  }

  /** The worlds a list of actions leads through, first to last. */
  function After(w: World, actions: seq<Action>): World {
    if actions == [] then w else Do(After(w, actions[..|actions| - 1]), actions[|actions| - 1])
  }

  predicate NoEdits(actions: seq<Action>) {
    forall i :: 0 <= i < |actions| ==> !actions[i].EditMember?
  }

  /** A banned member keeps status and tier through any run of saves; nor is a member ever created. */
  lemma {:induction false} BannedStaysBanned(w: World, actions: seq<Action>)
    requires NoEdits(actions) && (w.member == None || w.member.value.status == MemberBanned)
    ensures After(w, actions).member == w.member
  {
    if actions != [] {
      BannedStaysBanned(w, actions[..|actions| - 1]);
    }
  }

  /** A save of `sub` gets past every early return of the handler. */
  predicate InCharge(w: World, id: nat, sub: Sub) {
    && w.member.Some? && w.member.value.status != MemberBanned
    && !IsGated(w.payments, id, sub) && !NewerOwnsMember(w.subs[id := sub], sub)
  }

  /**
   * A save is in charge when there is a member, not banned, no later row is still alive, and an ONLINE row
   * is neither awaiting its first payment nor past due on a period no payment reaches.
   */
  lemma InChargeExactlyWhen(w: World, id: nat, sub: Sub)
    ensures InCharge(w, id, sub) <==>
            && w.member.Some? && w.member.value.status != MemberBanned
            && (sub.plan.online && sub.status == PastDue ==>
                  exists p :: p in w.payments && p.sub == id && p.status == Succeeded &&
                    sub.periodStart.Some? && sub.periodStart.value <= p.periodEnd)
            && !(sub.plan.online && sub.status == Pending)
            && (forall j :: j in w.subs && j != id && sub.createdAt < w.subs[j].createdAt ==>
                  w.subs[j].status in {Cancelled, Expired})
  {
    var subs := w.subs[id := sub];
    assert forall j :: j in w.subs && j != id ==> j in subs && subs[j] == w.subs[j];
  }

  /** What a save makes of the member: tier and status where it is in charge, and nothing where it is not. */
  lemma MemberEndsAs(w: World, id: nat, sub: Sub)
    ensures var t := Save(w, id, sub);
            && t.subs == w.subs[id := sub] && t.payments == w.payments
            && (!InCharge(w, id, sub) ==> t.member == w.member)
    ensures InCharge(w, id, sub) ==>
              var was, now := w.member.value, Save(w, id, sub).member;
              var lifts := was.status != MemberPaused || (id in w.subs && w.subs[id].status == Paused);
              && now.Some? && now.value.tier == Some(sub.plan.tier)
              && (now.value.status == MemberCancelled <==> sub.status in {Cancelled, Expired})
              && (now.value.status == MemberActive <==> sub.status in {Pending, Active, PastDue} && lifts)
              && (now.value.status == MemberPaused <==>
                  sub.status == Paused || (sub.status in {Pending, Active, PastDue} && !lifts))
  {}

  /** A save lifts a pause exactly when it moves its own row out of PAUSED and is in charge of the member. */
  lemma PauseLiftedExactlyWhen(w: World, id: nat, sub: Sub)
    requires w.member.Some? && w.member.value.status == MemberPaused
    ensures Save(w, id, sub).member.Some?
    ensures Save(w, id, sub).member.value.status == MemberActive <==>
            && id in w.subs && w.subs[id].status == Paused && sub.status in {Pending, Active, PastDue}
            && !IsGated(w.payments, id, sub) && !NewerOwnsMember(w.subs[id := sub], sub)
  {}

  /** The `i`-th action saves a row that is neither coming out of PAUSED nor ending. */
  predicate LeavesPauseAlone(w: World, actions: seq<Action>, i: nat)
    requires i < |actions|
  {
    actions[i].SaveSub? ==>
      CommittedStatus(After(w, actions[..i]), actions[i].id) != Some(Paused) && !IsTerminal(actions[i].sub.status)
  }

  /** A staff pause outlives any run of webhook echoes, renewals and plan changes on rows that were not paused. */
  lemma {:induction false} PauseSurvives(w: World, actions: seq<Action>)
    requires w.member.Some? && w.member.value.status == MemberPaused && NoEdits(actions)
    requires forall i :: 0 <= i < |actions| ==> LeavesPauseAlone(w, actions, i)
    ensures After(w, actions).member.Some? && After(w, actions).member.value.status == MemberPaused
  {
    if actions != [] {
      var n := |actions| - 1;
      forall i | 0 <= i < n
        ensures LeavesPauseAlone(w, actions[..n], i)
      {
        assert LeavesPauseAlone(w, actions, i) && actions[..n][..i] == actions[..i];
      }
      PauseSurvives(w, actions[..n]);
      assert LeavesPauseAlone(w, actions, n);
    }
  }

  /** The `i`-th action is a save of an ONLINE row nobody has paid for when it is made. */
  predicate IsUnpaidSave(w: World, actions: seq<Action>, i: nat)
    requires i < |actions|
  {
    && actions[i].SaveSub?
    && IsGated(After(w, actions[..i]).payments, actions[i].id, actions[i].sub)
  }

  /** However often unpaid ONLINE rows are saved, the member gains nothing. */
  lemma {:induction false} UnpaidRunsChangeNothing(w: World, actions: seq<Action>)
    requires forall i :: 0 <= i < |actions| ==> IsUnpaidSave(w, actions, i)
    ensures After(w, actions).member == w.member
  {
    if actions != [] {
      var n := |actions| - 1;
      forall i | 0 <= i < n
        ensures IsUnpaidSave(w, actions[..n], i)
      {
        assert IsUnpaidSave(w, actions, i) && actions[..n][..i] == actions[..i];
      }
      UnpaidRunsChangeNothing(w, actions[..n]);
      assert IsUnpaidSave(w, actions, n);
    }
  }

  // ---- The effective subscription ----

  predicate Agrees(m: Membership, sub: Sub) {
    m.tier == Some(sub.plan.tier) &&
    (m.status == Implied(sub.status) || (m.status == MemberPaused && Implied(sub.status) == MemberActive))
  }

  /** After a save in charge of the member, the member agrees with it; saving the same row again writes nothing. */
  lemma SaveMakesMemberAgree(w: World, id: nat, sub: Sub)
    ensures var t := Save(w, id, sub);
            && Save(t, id, sub) == t
            && (w.member.Some? <==> t.member.Some?)
            && (InCharge(w, id, sub) ==> Agrees(t.member.value, sub))
  {
    assert w.subs[id := sub][id := sub] == w.subs[id := sub];
  }

  /** Row `e` is non-terminal, and every save among the actions is of a row created before it. */
  predicate OnlyOlderSaved(e: Sub, actions: seq<Action>) {
    forall i :: 0 <= i < |actions| && actions[i].SaveSub? ==> actions[i].sub.createdAt < e.createdAt
  }

  /**
   * The newest non-terminal subscription owns the member: saves of older rows, whatever they say
   * and however many, leave the member as it is.
   */
  lemma {:induction false} OlderRowsNeverClobber(w: World, id: nat, actions: seq<Action>)
    requires id in w.subs && !IsTerminal(w.subs[id].status)
    requires NoEdits(actions) && OnlyOlderSaved(w.subs[id], actions)
    requires forall i :: 0 <= i < |actions| && actions[i].SaveSub? ==> actions[i].id != id
    ensures After(w, actions).member == w.member
    ensures id in After(w, actions).subs && After(w, actions).subs[id] == w.subs[id]
  {
    if actions != [] {
      var n := |actions| - 1;
      OlderRowsNeverClobber(w, id, actions[..n]);
      var s, t := After(w, actions[..n]), After(w, actions);
      if actions[n].SaveSub? {
        assert t.subs[id] == s.subs[id] == w.subs[id];
        assert NewerOwnsMember(s.subs[actions[n].id := actions[n].sub], actions[n].sub);
      }
    }
  }

  /**
   * From a save in charge of the member on, the member agrees with that subscription until a newer row
   * or the row itself is saved.
   */
  lemma NewestSubscriptionGoverns(w: World, id: nat, sub: Sub, actions: seq<Action>)
    requires InCharge(w, id, sub) && !IsTerminal(sub.status)
    requires NoEdits(actions) && OnlyOlderSaved(sub, actions)
    requires forall i :: 0 <= i < |actions| && actions[i].SaveSub? ==> actions[i].id != id
    ensures var t := After(Save(w, id, sub), actions);
            t.member.Some? && Agrees(t.member.value, sub)
  {
    SaveMakesMemberAgree(w, id, sub);
    OlderRowsNeverClobber(Save(w, id, sub), id, actions);
  }

  /** Row `e` is the one non-terminal row. */
  predicate IsEffective(subs: map<nat, Sub>, e: nat) {
    e in subs && !IsTerminal(subs[e].status) && forall j :: j in subs && j != e ==> IsTerminal(subs[j].status)
  }

  /**
   * Saving a terminal row leaves the member of the effective subscription alone exactly when that
   * subscription is the newer of the two, there is no member, or the member is banned or as the save would have it.
   */
  lemma TerminalSaveIsHarmlessExactlyWhen(w: World, e: nat, id: nat, sub: Sub)
    requires IsEffective(w.subs, e) && id != e && IsTerminal(sub.status)
    ensures Save(w, id, sub).member == w.member <==>
            || sub.createdAt < w.subs[e].createdAt
            || w.member == None || w.member.value.status == MemberBanned
            || w.member.value == Membership(MemberCancelled, Some(sub.plan.tier))
  {
    var subs := w.subs[id := sub];
    assert subs[e] == w.subs[e];
    if NewerOwnsMember(subs, sub) {
      var j :| j in subs && sub.createdAt < subs[j].createdAt && !IsTerminal(subs[j].status);
      assert j == e;
    }
  }

  /** So re-saving a cancelled row cancels a member whose older subscription has been revived. */
  lemma RevivedSubscriptionIsClobbered()
    ensures var plan := Plan(7, false);
            var w := World(map[1 := Sub(Active, plan, 100, None), 2 := Sub(Cancelled, plan, 200, None)], [],
                           Some(Membership(MemberActive, Some(7))));
            Save(w, 2, w.subs[2]).member == Some(Membership(MemberCancelled, Some(7)))
  {}
}
