/** How far a decision or proposal published late reaches back into a pinned round. */
module LateDecisions {
  import opened Prelude
  import opened Ordering
  import opened Membership
  import opened MembershipTheorems

  // ---- which acts it ratifies

  /** A round's proposal that pins the act's subject and admits its action for the outcome. */
  predicate Authorises(p: Activity, outcome: Option<string>, a: Activity) {
    && p.content.Proposal? && a.content.MembershipAct?
    && p.content.governanceSubject == a.content.subject
    && p.content.actionPolicy.Some?
    && Admissible(p.content.actionPolicy.value, outcome) == a.content.action
  }

  /** The late decision is the one the act is bound to, and its round's proposal is on record. */
  predicate CompletesAsDecision(pool: seq<Activity>, x: Activity, a: Activity) {
    && x.content.DecisionRecord? && a.content.MembershipAct?
    && a.content.actsOn == Some(x.digest)
    && DecisionByDigest(a.content.actsOn, pool).None?
    && FindProposal(x.content.decided, pool).Some?
    && Authorises(FindProposal(x.content.decided, pool).value, x.content.outcome, a)
  }

  /** The late proposal is that of the round the act's decision on record decided. */
  predicate CompletesAsProposal(pool: seq<Activity>, x: Activity, a: Activity) {
    && x.content.Proposal? && a.content.MembershipAct?
    && var d := DecisionByDigest(a.content.actsOn, pool);
       && d.Some? && d.value.content.DecisionRecord?
       && d.value.content.decided == x.content.round
       && FindProposal(x.content.round, pool).None?
       && Authorises(x, d.value.content.outcome, a)
  }

  /** Read off the record before the late activity counts: it completes this act of the hub. */
  predicate Completes(hub: string, pool: seq<Activity>, x: Activity, a: Activity) {
    && a.content.MembershipAct? && a.content.hub == Some(hub) && a.actor != hub
    && (CompletesAsDecision(pool, x, a) || CompletesAsProposal(pool, x, a))
  }

  /** An act counts with the late activity exactly when it counted before or is completed by it. */
  lemma CompletesExactly(hub: string, pool: seq<Activity>, x: Activity, a: Activity)
    requires Deciding(x)
    ensures Ratified(hub, a, pool + [x]) <==> Ratified(hub, a, pool) || Completes(hub, pool, x, a)
    ensures !(Ratified(hub, a, pool) && Completes(hub, pool, x, a))
  {
    if a.content.MembershipAct? {
      var d := DecisionByDigest(a.content.actsOn, pool);
      DecisionByDigestConcat(a.content.actsOn, pool, [x]);
      DecisionFound(a.content.actsOn, pool);
      DecisionFound(a.content.actsOn, [x]);
      var e := if d.Some? then d else DecisionByDigest(a.content.actsOn, [x]);
      if e.Some? {
        FindProposalConcat(e.value.content.decided, pool, [x]);
        ProposalFound(e.value.content.decided, [x]);
        ProposalFound(e.value.content.decided, pool);
      }
    }
  }

  /** The trail of an instant changes exactly when the late activity completes an act dated within it. */
  lemma LateDecisionReachesBack(hub: string, pool: seq<Activity>, x: Activity, at: int)
    requires Deciding(x) && x.published > at
    ensures Trail(hub, pool + [x], at) == Trail(hub, pool, at) <==>
              forall a :: a in pool && a.published <= at ==> !Completes(hub, pool, x, a)
  {
    if forall a :: a in pool && a.published <= at ==> !Completes(hub, pool, x, a) {
      forall a | a in pool && a.published <= at
        ensures Ratified(hub, a, pool + [x]) <==> Ratified(hub, a, pool)
      {
        CompletesExactly(hub, pool, x, a);
      }
      TrailAfterAppend(hub, pool, [x], at);
    } else {
      var a :| a in pool && a.published <= at && Completes(hub, pool, x, a);
      CompletesExactly(hub, pool, x, a);
      LongerTrail(hub, pool, x, at, a);
      TrailMembers(hub, pool, at);
    }
  }

  lemma LongerTrail(hub: string, pool: seq<Activity>, x: Activity, at: int, a: Activity)
    requires Deciding(x) && x.published > at
    ensures a in Trail(hub, pool + [x], at) <==>
              a in Trail(hub, pool, at) || (a in pool && a.published <= at && Completes(hub, pool, x, a))
  {
    TrailMembers(hub, pool, at);
    TrailMembers(hub, pool + [x], at);
    CompletesExactly(hub, pool, x, a);
  }

  /** Simpler than that, and enough: nobody acts on the late decision yet, or nothing has decided
      the late round. */
  lemma LateDecisionNobodyActsOn(hub: string, pool: seq<Activity>, x: Activity, at: int)
    requires Deciding(x) && x.published > at
    requires x.content.DecisionRecord? ==>
               forall a :: a in pool && a.content.MembershipAct? ==> a.content.actsOn != Some(x.digest)
    requires x.content.Proposal? ==>
               forall d :: d in pool && d.content.DecisionRecord? ==> d.content.decided != x.content.round
    ensures RolesAt(hub, pool + [x], at) == RolesAt(hub, pool, at)
    ensures InstancesAt(hub, pool + [x], at) == InstancesAt(hub, pool, at)
  {
    forall a | a in pool && a.published <= at ensures !Completes(hub, pool, x, a) {
      if a.content.MembershipAct? {
        DecisionFound(a.content.actsOn, pool);
      }
    }
    LateDecisionReachesBack(hub, pool, x, at);
  }

  // ---- what it does to one seat

  /** The acts about one agent, dated within the trail, that the late activity completes. */
  ghost function NewActs(hub: string, pool: seq<Activity>, x: Activity, at: int, agent: string): set<Activity> {
    set a | a in pool && a.published <= at && Completes(hub, pool, x, a) && a.Agent() == Some(agent)
  }

  /** The role an expulsion or admission leaves, given the acts on record. */
  ghost function RoleLeft(m: Activity, acts: set<Activity>): Option<string>
    requires m.content.MembershipAct?
  {
    if m.content.kind == MemberAdmit then Some(RoleOr(RoleHeld(acts))) else None
  }

  ghost function InstanceLeft(m: Activity, acts: set<Activity>): Option<string>
    requires m.content.MembershipAct?
  {
    if m.content.kind == MemberAdmit then EnrolledBy(acts) else None
  }

  /** The acts on one agent, with and without the late activity. */
  lemma ActsWithLate(hub: string, pool: seq<Activity>, x: Activity, at: int, agent: string)
    requires Deciding(x) && x.published > at
    ensures var acts, more := ActsOn(Trail(hub, pool, at), agent), NewActs(hub, pool, x, at, agent);
            && ActsOn(Trail(hub, pool + [x], at), agent) == acts + more
            && acts !! more
            && EnrollsIn(acts + more) == EnrollsIn(acts)
            && (forall a :: a in acts + more ==> a in pool)
  {
    var acts, more := ActsOn(Trail(hub, pool, at), agent), NewActs(hub, pool, x, at, agent);
    TrailMembers(hub, pool, at);
    forall a ensures a in ActsOn(Trail(hub, pool + [x], at), agent) <==> a in acts + more {
      LongerTrail(hub, pool, x, at, a);
    }
    forall a | a in more ensures a !in acts {
      CompletesExactly(hub, pool, x, a);
    }
  }

  /** The late activity decides the seat: a completed act is the greatest on the agent. */
  ghost predicate LastWord(acts: set<Activity>, more: set<Activity>, m: Activity) {
    m in more && IsGreatest(acts + more, m)
  }

  lemma SeatWithLate(acts: set<Activity>, more: set<Activity>)
    requires acts !! more && forall m :: m in more ==> m.content.MembershipAct?
    requires forall a, b :: a in acts + more && b in acts + more && a.digest == b.digest ==> a == b
    ensures RoleByLastAct(acts + more) == RoleByLastAct(acts) <==>
              forall m :: LastWord(acts, more, m) ==> RoleLeft(m, acts) == RoleByLastAct(acts)
    ensures InstanceByLastAct(acts + more) == InstanceByLastAct(acts) <==>
              forall m :: LastWord(acts, more, m) ==> InstanceLeft(m, acts) == InstanceByLastAct(acts)
  {
    var all := acts + more;
    assert EnrollsIn(all) == EnrollsIn(acts);
    if all == {} {
      assert acts == {};
    } else {
      var g := Greatest(all);
      forall m | LastWord(acts, more, m) ensures m == g {
        GreatestIs(all, m);
      }
      if g in acts {
        GreatestIs(acts, g);
      } else {
        assert LastWord(acts, more, g);
      }
    }
  }

  /** A late decision or proposal leaves an agent's role and instance at an earlier instant alone
      if and only if the last act on the agent is none that it completes, or leaves what was there. */
  lemma LateDecisionKeepsSeatIff(hub: string, pool: seq<Activity>, x: Activity, at: int, agent: string)
    requires Deciding(x) && x.published > at && CollisionFree(pool + [x])
    ensures var acts, more := ActsOn(Trail(hub, pool, at), agent), NewActs(hub, pool, x, at, agent);
            && (forall m :: m in more ==> m.content.MembershipAct?)
            && (Get(RolesAt(hub, pool + [x], at), agent) == Get(RolesAt(hub, pool, at), agent) <==>
                  forall m :: LastWord(acts, more, m) ==> RoleLeft(m, acts) == Get(RolesAt(hub, pool, at), agent))
            && (Get(InstancesAt(hub, pool + [x], at), agent) == Get(InstancesAt(hub, pool, at), agent) <==>
                  forall m :: LastWord(acts, more, m) ==>
                    InstanceLeft(m, acts) == Get(InstancesAt(hub, pool, at), agent))
  {
    var acts, more := ActsOn(Trail(hub, pool, at), agent), NewActs(hub, pool, x, at, agent);
    forall a | a in pool ensures a in pool + [x] {}
    ActsWithLate(hub, pool, x, at, agent);
    RolesClosedForm(hub, pool, at, agent);
    RolesClosedForm(hub, pool + [x], at, agent);
    InstancesClosedForm(hub, pool, at, agent);
    InstancesClosedForm(hub, pool + [x], at, agent);
    SeatWithLate(acts, more);
  }

  /** The weights a round is checked against stay when its voters' instances do. */
  lemma LateDecisionKeepsWeights(hub: string, pool: seq<Activity>, x: Activity, at: int, voters: seq<string>)
    requires Deciding(x)
    requires forall v :: v in voters ==> Get(InstancesAt(hub, pool + [x], at), v) == Get(InstancesAt(hub, pool, at), v)
    ensures RecomputedWeights(hub, pool + [x], at, voters) == RecomputedWeights(hub, pool, at, voters)
  {
    var sorted := Sort(StrLe, voters);
    StrLeTotalOrder();
    SortProperties(StrLe, voters);
    forall instance ensures EffectiveOperator(instance, at, pool + [x]) == EffectiveOperator(instance, at, pool) {
      OperatorAfterAppend(instance, pool, [x], at);
    }
    forall i | 0 <= i < |sorted|
      ensures SeatedVoters(hub, pool + [x], at, sorted)[i] == SeatedVoters(hub, pool, at, sorted)[i]
    {
      assert sorted[i] in sorted;
      assert Get(InstancesAt(hub, pool + [x], at), sorted[i]) == Get(InstancesAt(hub, pool, at), sorted[i]);
    }
    assert SeatedVoters(hub, pool + [x], at, sorted) == SeatedVoters(hub, pool, at, sorted);
  }

  /** A decision dated after a round, completing an expulsion dated before it, moves the round. */
  lemma LateDecisionMovesRound() returns (pool: seq<Activity>, late: Activity)
    ensures CollisionFree(pool + [late])
    ensures late.content.DecisionRecord? && late.published > 9
    ensures "desk" in RolesAt("hub", pool, 9) && "desk" !in RolesAt("hub", pool + [late], 9)
  {
    var enroll := Activity("op", 1, "a", Enroll(Some("hub"), Some("desk"), None));
    var proposal := Activity("hub", 2, "b", Proposal(Some("r"), Some("desk"), Some(map["expel" := "remove"])));
    var expel := MembershipAct(MemberExpel, Some("hub"), Some("desk"), Some("c"), Some("remove"));
    var act := Activity("peer", 4, "d", expel);
    late := Activity("hub", 20, "c", DecisionRecord(Some("r"), Some("expel")));
    pool := [enroll, proposal, act];
    FourApart(enroll, proposal, act, late);
    assert !Ratified("hub", act, pool) by {
      DecisionFound(Some("c"), pool);
    }
    LookupsResolve(act, pool + [late], late, proposal);
    SeatIsLost(pool, pool + [late], enroll, act);
  }
}
