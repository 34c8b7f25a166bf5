/** What the membership folds mean: a closed form, independence of the pool's order,
    stability of pinned rounds, and ratification against its recorded checks. */
module MembershipTheorems {
  import opened Prelude
  import opened Ordering
  import opened Membership

  // ---- the trail order

  lemma ActLePreorder()
    ensures TotalPreorder(ActLe)
  {
    StrLeTotalOrder();
  }

  lemma TrailMembers(hub: string, pool: seq<Activity>, at: int)
    ensures forall a :: a in RatifiedActs(hub, pool) <==> a in pool && Ratified(hub, a, pool)
    ensures forall a :: a in Trail(hub, pool, at) <==>
              a in pool && a.published <= at && (SelfIssued(hub, at, a) || Ratified(hub, a, pool))
  {
    FilterMembers((a: Activity) => Ratified(hub, a, pool), pool);
    FilterMembers((a: Activity) => SelfIssued(hub, at, a), pool);
    FilterMembers((a: Activity) => a.published <= at, RatifiedActs(hub, pool));
  }

  lemma SortedTrailProperties(hub: string, pool: seq<Activity>, at: int)
    requires CollisionFree(pool)
    ensures SortedBy(ActLe, SortedTrail(hub, pool, at))
    ensures CollisionFree(SortedTrail(hub, pool, at))
    ensures forall a :: a in SortedTrail(hub, pool, at) <==> a in Trail(hub, pool, at)
  {
    ActLePreorder();
    SortProperties(ActLe, Trail(hub, pool, at));
    TrailMembers(hub, pool, at);
  }

  // ---- the closed form

  /** The activities of a trail that are about one agent. */
  ghost function ActsOn(trail: seq<Activity>, agent: string): set<Activity> {
    set a | a in trail && a.Agent() == Some(agent)
  }

  ghost function EnrollsIn(acts: set<Activity>): set<Activity> {
    set a | a in acts && a.content.Enroll?
  }

  ghost predicate IsGreatest(acts: set<Activity>, m: Activity) {
    m in acts && forall a :: a in acts ==> ActLe(a, m)
  }

  lemma {:induction false} GreatestExists(acts: set<Activity>)
    requires acts != {}
    ensures exists m :: IsGreatest(acts, m)
    decreases acts
  {
    ActLePreorder();
    var x :| x in acts;
    if acts == {x} {
      assert IsGreatest(acts, x);
    } else {
      GreatestExists(acts - {x});
      var m :| IsGreatest(acts - {x}, m);
      assert IsGreatest(acts, if ActLe(x, m) then m else x);
    }
  }

  /** The last activity in trail order. */
  ghost function Greatest(acts: set<Activity>): (m: Activity)
    requires acts != {}
    ensures IsGreatest(acts, m)
  {
    GreatestExists(acts);
    var m :| IsGreatest(acts, m);
    m
  }

  lemma GreatestIs(acts: set<Activity>, m: Activity)
    requires IsGreatest(acts, m)
    requires forall a, b :: a in acts && b in acts && a.digest == b.digest ==> a == b
    ensures Greatest(acts) == m
  {
    StrLeTotalOrder();
    var g := Greatest(acts);
    assert ActLe(g, m) && ActLe(m, g);
  }

  /** The role of an agent's latest Enroll among `acts`. */
  ghost function RoleHeld(acts: set<Activity>): Option<string> {
    if EnrollsIn(acts) == {} then None
    else
      var e := Greatest(EnrollsIn(acts));
      Some(RoleOr(e.content.role))
  }

  /** The role decided by the last act on an agent, whatever the order of arrival. */
  ghost function RoleByLastAct(acts: set<Activity>): Option<string> {
    if acts == {} then None
    else
      var m := Greatest(acts);
      if m.content.Enroll? then Some(RoleOr(m.content.role))
      else if m.content.MembershipAct? && m.content.kind == MemberAdmit then
        Some(if RoleHeld(acts).Some? then RoleHeld(acts).value else "member")
      else None
  }

  ghost function EnrolledBy(acts: set<Activity>): Option<string> {
    if EnrollsIn(acts) == {} then None else Some(Greatest(EnrollsIn(acts)).actor)
  }

  /** The operating instance decided by the last act: never the actuator of an Admit. */
  ghost function InstanceByLastAct(acts: set<Activity>): Option<string> {
    if acts == {} then None
    else
      var m := Greatest(acts);
      if m.content.Enroll? || (m.content.MembershipAct? && m.content.kind == MemberAdmit)
      then EnrolledBy(acts)
      else None
  }

  ghost function Get(m: map<string, string>, k: string): Option<string> {
    if k in m then Some(m[k]) else None
  }

  /** Adding the last activity of a sorted trail. */
  lemma LastActIsGreatest(trail: seq<Activity>, agent: string)
    requires trail != [] && SortedBy(ActLe, trail) && CollisionFree(trail)
    ensures var k := |trail| - 1;
            var acts, before := ActsOn(trail, agent), ActsOn(trail[..k], agent);
            if trail[k].Agent() == Some(agent) then
              && acts == before + {trail[k]}
              && Greatest(acts) == trail[k]
              && (trail[k].content.Enroll? ==> EnrollsIn(acts) != {} && Greatest(EnrollsIn(acts)) == trail[k])
              && (!trail[k].content.Enroll? ==> EnrollsIn(acts) == EnrollsIn(before))
            else acts == before
  {
    var k := |trail| - 1;
    ActLePreorder();
    assert trail == trail[..k] + [trail[k]];
    if trail[k].Agent() == Some(agent) {
      var acts := ActsOn(trail, agent);
      forall a | a in acts ensures ActLe(a, trail[k]) {
        var i :| 0 <= i < |trail| && trail[i] == a;
      }
      GreatestIs(acts, trail[k]);
      if trail[k].content.Enroll? {
        GreatestIs(EnrollsIn(acts), trail[k]);
      }
    }
  }

  lemma SeatStepAt(st: Seats, a: Activity, agent: string)
    ensures var next := SeatStep(st, a);
            if a.Agent() != Some(agent) then
              Get(next.roles, agent) == Get(st.roles, agent) && Get(next.held, agent) == Get(st.held, agent)
            else if a.content.Enroll? then
              Get(next.roles, agent) == Get(next.held, agent) == Some(RoleOr(a.content.role))
            else
              && Get(next.held, agent) == Get(st.held, agent)
              && Get(next.roles, agent)
                 == if a.content.MembershipAct? && a.content.kind == MemberAdmit
                    then Some(if Get(st.held, agent).Some? then Get(st.held, agent).value else "member")
                    else None
  {
  }

  lemma {:induction false} SeatFoldByLastAct(trail: seq<Activity>, agent: string)
    requires SortedBy(ActLe, trail) && CollisionFree(trail)
    ensures Get(SeatFold(trail).roles, agent) == RoleByLastAct(ActsOn(trail, agent))
    ensures Get(SeatFold(trail).held, agent) == RoleHeld(ActsOn(trail, agent))
  {
    if trail == [] {
      assert ActsOn(trail, agent) == {};
    } else {
      var k := |trail| - 1;
      var before := SeatFold(trail[..k]);
      assert Get(before.roles, agent) == RoleByLastAct(ActsOn(trail[..k], agent))
          && Get(before.held, agent) == RoleHeld(ActsOn(trail[..k], agent)) by {
        SeatFoldByLastAct(trail[..k], agent);
      }
      LastActIsGreatest(trail, agent);
      SeatStepAt(before, trail[k], agent);
    }
  }

  lemma OperatorStepAt(st: Operated, a: Activity, agent: string)
    ensures var next := OperatorStep(st, a);
            if a.Agent() != Some(agent) then
              && Get(next.instances, agent) == Get(st.instances, agent)
              && Get(next.enrolledBy, agent) == Get(st.enrolledBy, agent)
            else if a.content.Enroll? then
              Get(next.instances, agent) == Get(next.enrolledBy, agent) == Some(a.actor)
            else
              && Get(next.enrolledBy, agent) == Get(st.enrolledBy, agent)
              && Get(next.instances, agent)
                 == if a.content.MembershipAct? && a.content.kind == MemberAdmit
                    then if Get(st.enrolledBy, agent).Some? then Get(st.enrolledBy, agent) else Get(st.instances, agent)
                    else None
  {
  }

  lemma {:induction false} OperatorFoldByLastAct(trail: seq<Activity>, agent: string)
    requires SortedBy(ActLe, trail) && CollisionFree(trail)
    ensures Get(OperatorFold(trail).instances, agent) == InstanceByLastAct(ActsOn(trail, agent))
    ensures Get(OperatorFold(trail).enrolledBy, agent) == EnrolledBy(ActsOn(trail, agent))
  {
    if trail == [] {
      assert ActsOn(trail, agent) == {};
    } else {
      var k := |trail| - 1;
      var before := OperatorFold(trail[..k]);
      assert Get(before.instances, agent) == InstanceByLastAct(ActsOn(trail[..k], agent))
          && Get(before.enrolledBy, agent) == EnrolledBy(ActsOn(trail[..k], agent)) by {
        OperatorFoldByLastAct(trail[..k], agent);
      }
      LastActIsGreatest(trail, agent);
      OperatorStepAt(before, trail[k], agent);
      // an instance is only ever known for an agent some Enroll named
      InstancesKnowTheirEnroll(trail[..k], agent);
    }
  }

  lemma {:induction false} InstancesKnowTheirEnroll(trail: seq<Activity>, agent: string)
    ensures agent in OperatorFold(trail).instances ==> agent in OperatorFold(trail).enrolledBy
  {
    if trail != [] {
      InstancesKnowTheirEnroll(trail[..|trail|-1], agent);
    }
  }

  /** The role fold equals its closed form: an agent's role is decided by its last act. */
  lemma RolesClosedForm(hub: string, pool: seq<Activity>, at: int, agent: string)
    requires CollisionFree(pool)
    ensures Get(RolesAt(hub, pool, at), agent) == RoleByLastAct(ActsOn(Trail(hub, pool, at), agent))
  {
    var trail := SortedTrail(hub, pool, at);
    SortedTrailProperties(hub, pool, at);
    SeatFoldByLastAct(trail, agent);
    assert ActsOn(trail, agent) == ActsOn(Trail(hub, pool, at), agent);
  }

  /** So does the operator fold; a readmitted seat returns to the instance that enrolled it. */
  lemma InstancesClosedForm(hub: string, pool: seq<Activity>, at: int, agent: string)
    requires CollisionFree(pool)
    ensures Get(InstancesAt(hub, pool, at), agent) == InstanceByLastAct(ActsOn(Trail(hub, pool, at), agent))
  {
    var trail := SortedTrail(hub, pool, at);
    SortedTrailProperties(hub, pool, at);
    OperatorFoldByLastAct(trail, agent);
    assert ActsOn(trail, agent) == ActsOn(Trail(hub, pool, at), agent);
  }

  /** The operator fold has exactly the seated agents that some Enroll of the trail names. */
  lemma InstancesAreEnrolledSeats(hub: string, pool: seq<Activity>, at: int, agent: string)
    requires CollisionFree(pool)
    ensures agent in InstancesAt(hub, pool, at) <==>
              agent in RolesAt(hub, pool, at)
              && exists e :: e in Trail(hub, pool, at) && e.content.Enroll? && e.Agent() == Some(agent)
  {
    RolesClosedForm(hub, pool, at, agent);
    InstancesClosedForm(hub, pool, at, agent);
    var acts := ActsOn(Trail(hub, pool, at), agent);
    if e :| e in Trail(hub, pool, at) && e.content.Enroll? && e.Agent() == Some(agent) {
      assert e in EnrollsIn(acts);
    }
    if EnrollsIn(acts) != {} {
      var e := Greatest(EnrollsIn(acts));
      assert e in Trail(hub, pool, at);
    }
  }

  // ---- independence of the pool's order and of repeated entries

  ghost predicate OneProposalPerRound(pool: seq<Activity>) {
    forall a, b ::
      (a in pool && b in pool && a.content.Proposal? && b.content.Proposal? && a.content.round == b.content.round)
      ==> a.content == b.content
  }

  ghost predicate SamePool(p: seq<Activity>, q: seq<Activity>) {
    forall a :: a in p <==> a in q
  }

  lemma {:induction false} DecisionFound(digest: Option<string>, pool: seq<Activity>)
    ensures var d := DecisionByDigest(digest, pool);
            && (d.Some? ==> d.value in pool && d.value.content.DecisionRecord? && Some(d.value.digest) == digest)
            && (d.None? ==> forall a :: a in pool && a.content.DecisionRecord? ==> Some(a.digest) != digest)
  {
    if pool != [] {
      DecisionFound(digest, pool[1..]);
      assert pool == [pool[0]] + pool[1..];
    }
  }

  lemma {:induction false} ProposalFound(round: Option<string>, pool: seq<Activity>)
    ensures var p := FindProposal(round, pool);
            && (p.Some? ==> p.value in pool && p.value.content.Proposal? && p.value.content.round == round)
            && (p.None? ==> forall a :: a in pool && a.content.Proposal? ==> a.content.round != round)
  {
    if pool != [] {
      ProposalFound(round, pool[1..]);
      assert pool == [pool[0]] + pool[1..];
    }
  }

  lemma RatifiedForgetsOrder(hub: string, a: Activity, p: seq<Activity>, q: seq<Activity>)
    requires SamePool(p, q) && CollisionFree(p) && OneProposalPerRound(p)
    ensures Ratified(hub, a, p) <==> Ratified(hub, a, q)
  {
    if a.content.MembershipAct? {
      DecisionFound(a.content.actsOn, p);
      DecisionFound(a.content.actsOn, q);
      var d, e := DecisionByDigest(a.content.actsOn, p), DecisionByDigest(a.content.actsOn, q);
      assert d == e;
      if d.Some? {
        ProposalFound(d.value.content.decided, p);
        ProposalFound(d.value.content.decided, q);
      }
    }
  }

  lemma TrailForgetsOrder(hub: string, p: seq<Activity>, q: seq<Activity>, at: int)
    requires SamePool(p, q) && CollisionFree(p) && OneProposalPerRound(p)
    ensures forall a :: a in Trail(hub, p, at) <==> a in Trail(hub, q, at)
  {
    TrailMembers(hub, p, at);
    TrailMembers(hub, q, at);
    forall a ensures Ratified(hub, a, p) <==> Ratified(hub, a, q) {
      RatifiedForgetsOrder(hub, a, p, q);
    }
  }

  /** Roles and instances depend on which activities a pool holds, not on their order or number. */
  lemma MembershipForgetsOrder(hub: string, p: seq<Activity>, q: seq<Activity>, at: int)
    requires SamePool(p, q) && CollisionFree(p) && OneProposalPerRound(p)
    ensures RolesAt(hub, p, at) == RolesAt(hub, q, at)
    ensures InstancesAt(hub, p, at) == InstancesAt(hub, q, at)
  {
    TrailForgetsOrder(hub, p, q, at);
    forall agent
      ensures Get(RolesAt(hub, p, at), agent) == Get(RolesAt(hub, q, at), agent)
      ensures Get(InstancesAt(hub, p, at), agent) == Get(InstancesAt(hub, q, at), agent)
    {
      RolesClosedForm(hub, p, at, agent);
      RolesClosedForm(hub, q, at, agent);
      InstancesClosedForm(hub, p, at, agent);
      InstancesClosedForm(hub, q, at, agent);
      assert ActsOn(Trail(hub, p, at), agent) == ActsOn(Trail(hub, q, at), agent);
    }
    SameDictionary(RolesAt(hub, p, at), RolesAt(hub, q, at));
    SameDictionary(InstancesAt(hub, p, at), InstancesAt(hub, q, at));
  }

  lemma {:induction false} LatestIsGreatest(s: seq<Activity>)
    requires s != []
    ensures Latest(s) in s && forall a :: a in s ==> ActLe(a, Latest(s))
  {
    ActLePreorder();
    var k := |s| - 1;
    if k > 0 {
      LatestIsGreatest(s[..k]);
      assert s == s[..k] + [s[k]];
    }
  }

  lemma SameEmptiness(s: seq<Activity>, t: seq<Activity>)
    requires SamePool(s, t)
    ensures s == [] <==> t == []
  {
    if s != [] {
      assert s[0] in t;
    }
    if t != [] {
      assert t[0] in s;
    }
  }

  lemma OperatorForgetsOrder(instance: string, p: seq<Activity>, q: seq<Activity>, at: int)
    requires SamePool(p, q) && CollisionFree(p)
    ensures EffectiveOperator(instance, at, p) == EffectiveOperator(instance, at, q)
  {
    var s, t := Filter(Transfers(instance, at), p), Filter(Transfers(instance, at), q);
    FilterMembers(Transfers(instance, at), p);
    FilterMembers(Transfers(instance, at), q);
    assert forall a :: a in s <==> a in t;
    SameEmptiness(s, t);
    if s != [] {
      LatestIsGreatest(s);
      LatestIsGreatest(t);
      StrLeTotalOrder();
      assert ActLe(Latest(s), Latest(t)) && ActLe(Latest(t), Latest(s));
    }
  }

  /** Nor do the weights a round is checked against. */
  lemma WeightsForgetPoolOrder(hub: string, p: seq<Activity>, q: seq<Activity>, at: int, voters: seq<string>)
    requires SamePool(p, q) && CollisionFree(p) && OneProposalPerRound(p)
    ensures RecomputedWeights(hub, p, at, voters) == RecomputedWeights(hub, q, at, voters)
  {
    MembershipForgetsOrder(hub, p, q, at);
    forall instance ensures EffectiveOperator(instance, at, p) == EffectiveOperator(instance, at, q) {
      OperatorForgetsOrder(instance, p, q, at);
    }
    assert SeatedVoters(hub, p, at, Sort(StrLe, voters)) == SeatedVoters(hub, q, at, Sort(StrLe, voters));
  }

  lemma SameDictionary(m: map<string, string>, n: map<string, string>)
    requires forall k :: Get(m, k) == Get(n, k)
    ensures m == n
  {
    forall k ensures k in m <==> k in n {
      assert Get(m, k) == Get(n, k);
    }
    forall k | k in m ensures m[k] == n[k] {
      assert Get(m, k) == Get(n, k);
    }
  }

  // ---- stability of pinned rounds

  lemma {:induction false} DecisionByDigestConcat(digest: Option<string>, p: seq<Activity>, q: seq<Activity>)
    ensures DecisionByDigest(digest, p + q)
         == if DecisionByDigest(digest, p).Some? then DecisionByDigest(digest, p) else DecisionByDigest(digest, q)
  {
    if p == [] {
      assert p + q == q;
    } else {
      assert (p + q)[1..] == p[1..] + q;
      DecisionByDigestConcat(digest, p[1..], q);
    }
  }

  lemma {:induction false} FindProposalConcat(round: Option<string>, p: seq<Activity>, q: seq<Activity>)
    ensures FindProposal(round, p + q)
         == if FindProposal(round, p).Some? then FindProposal(round, p) else FindProposal(round, q)
  {
    if p == [] {
      assert p + q == q;
    } else {
      assert (p + q)[1..] == p[1..] + q;
      FindProposalConcat(round, p[1..], q);
    }
  }

  /** What a pool ratifies it keeps ratifying, whatever is published later. */
  lemma RatificationIsKept(hub: string, a: Activity, pool: seq<Activity>, more: seq<Activity>)
    requires Ratified(hub, a, pool)
    ensures Ratified(hub, a, pool + more)
  {
    DecisionByDigestConcat(a.content.actsOn, pool, more);
    FindProposalConcat(DecisionByDigest(a.content.actsOn, pool).value.content.decided, pool, more);
  }

  /** Activities that can take part in deciding a round. */
  ghost predicate Deciding(a: Activity) {
    a.content.DecisionRecord? || a.content.Proposal?
  }

  lemma RatificationIgnoresOthers(hub: string, a: Activity, pool: seq<Activity>, more: seq<Activity>)
    requires forall x :: x in more ==> !Deciding(x)
    ensures Ratified(hub, a, pool + more) <==> Ratified(hub, a, pool)
  {
    if a.content.MembershipAct? {
      DecisionByDigestConcat(a.content.actsOn, pool, more);
      DecisionFound(a.content.actsOn, more);
      DecisionFound(a.content.actsOn, pool);
      var d := DecisionByDigest(a.content.actsOn, pool);
      if d.Some? {
        FindProposalConcat(d.value.content.decided, pool, more);
        ProposalFound(d.value.content.decided, more);
      }
    }
  }

  /** The trail after an append, when no old act changes its standing and no new act is dated
      early enough and admitted. */
  lemma TrailAfterAppend(hub: string, pool: seq<Activity>, more: seq<Activity>, at: int)
    requires forall a :: a in pool && a.published <= at ==>
               (Ratified(hub, a, pool + more) <==> Ratified(hub, a, pool))
    requires forall a :: a in more ==>
               a.published > at || !(SelfIssued(hub, at, a) || Ratified(hub, a, pool + more))
    ensures Trail(hub, pool + more, at) == Trail(hub, pool, at)
  {
    var self := (a: Activity) => SelfIssued(hub, at, a);
    FilterConcat(self, pool, more);
    FilterNone(self, more);
    RatifiedAfterAppend(hub, pool, more, at);
  }

  lemma RatifiedAfterAppend(hub: string, pool: seq<Activity>, more: seq<Activity>, at: int)
    requires forall a :: a in pool && a.published <= at ==>
               (Ratified(hub, a, pool + more) <==> Ratified(hub, a, pool))
    requires forall a :: a in more ==> a.published > at || !Ratified(hub, a, pool + more)
    ensures Filter((a: Activity) => a.published <= at, RatifiedActs(hub, pool + more))
         == Filter((a: Activity) => a.published <= at, RatifiedActs(hub, pool))
  {
    var before, after := (a: Activity) => Ratified(hub, a, pool), (a: Activity) => Ratified(hub, a, pool + more);
    var cut := (a: Activity) => a.published <= at;
    FilterConcat(after, pool, more);
    FilterConcat(cut, Filter(after, pool), Filter(after, more));
    FilterMembers(after, more);
    FilterNone(cut, Filter(after, more));
    FilterTwice(cut, after, before, pool);
  }

  lemma {:induction false} FilterTwice(cut: Activity -> bool, p: Activity -> bool, q: Activity -> bool,
                                       s: seq<Activity>)
    requires forall x :: x in s && cut(x) ==> p(x) == q(x)
    ensures Filter(cut, Filter(p, s)) == Filter(cut, Filter(q, s))
  {
    if s != [] {
      var k := |s| - 1;
      FilterTwice(cut, p, q, s[..k]);
      FilterConcat(cut, Filter(p, s[..k]), if p(s[k]) then [s[k]] else []);
      FilterConcat(cut, Filter(q, s[..k]), if q(s[k]) then [s[k]] else []);
      assert [s[k]][..0] == [];
    }
  }

  lemma OperatorAfterAppend(instance: string, pool: seq<Activity>, more: seq<Activity>, at: int)
    requires forall a :: a in more ==> !TransferBy(instance, at, a)
    ensures EffectiveOperator(instance, at, pool + more) == EffectiveOperator(instance, at, pool)
  {
    var test := Transfers(instance, at);
    FilterConcat(test, pool, more);
    FilterNone(test, more);
    assert Filter(test, pool) + [] == Filter(test, pool);
  }

  /** A pinned round's arithmetic never moves: activities published after its instant that
      decide no round leave its roles, operator buckets and recomputed weights unchanged. */
  lemma PinnedRoundIsStable(hub: string, pool: seq<Activity>, later: seq<Activity>, at: int, voters: seq<string>)
    requires forall a :: a in later ==> a.published > at && !Deciding(a)
    ensures RolesAt(hub, pool + later, at) == RolesAt(hub, pool, at)
    ensures InstancesAt(hub, pool + later, at) == InstancesAt(hub, pool, at)
    ensures RecomputedWeights(hub, pool + later, at, voters) == RecomputedWeights(hub, pool, at, voters)
  {
    forall a ensures Ratified(hub, a, pool + later) <==> Ratified(hub, a, pool) {
      RatificationIgnoresOthers(hub, a, pool, later);
    }
    TrailAfterAppend(hub, pool, later, at);
    forall instance ensures EffectiveOperator(instance, at, pool + later) == EffectiveOperator(instance, at, pool) {
      OperatorAfterAppend(instance, pool, later, at);
    }
    assert SeatedVoters(hub, pool + later, at, Sort(StrLe, voters))
        == SeatedVoters(hub, pool, at, Sort(StrLe, voters));
  }

  /** A membership act that fails any leg of ratification is invisible at every instant. */
  lemma UnratifiedActIsInvisible(hub: string, pool: seq<Activity>, a: Activity, at: int, voters: seq<string>)
    requires a.content.MembershipAct? && !Ratified(hub, a, pool)
    ensures RolesAt(hub, pool + [a], at) == RolesAt(hub, pool, at)
    ensures InstancesAt(hub, pool + [a], at) == InstancesAt(hub, pool, at)
    ensures RecomputedWeights(hub, pool + [a], at, voters) == RecomputedWeights(hub, pool, at, voters)
  {
    forall x ensures Ratified(hub, x, pool + [a]) <==> Ratified(hub, x, pool) {
      RatificationIgnoresOthers(hub, x, pool, [a]);
    }
    TrailAfterAppend(hub, pool, [a], at);
    forall instance ensures EffectiveOperator(instance, at, pool + [a]) == EffectiveOperator(instance, at, pool) {
      OperatorAfterAppend(instance, pool, [a], at);
    }
    assert SeatedVoters(hub, pool + [a], at, Sort(StrLe, voters)) == SeatedVoters(hub, pool, at, Sort(StrLe, voters));
  }

  // ---- ratification against the two recorded checks

  /** Both findings of `check_membership_actuation` for one act hold. */
  predicate ActuationChecksPass(a: Activity, pool: seq<Activity>) {
    && a.content.MembershipAct?
    && (a.content.hub.Some? ==> a.actor != a.content.hub.value)
    && var p := GoverningProposal(a, pool);
       && p.Some? && p.value.content.Proposal?
       && p.value.content.governanceSubject.Some?
       && p.value.content.actionPolicy.Some?
       && Admissible(p.value.content.actionPolicy.value, GoverningOutcome(a, pool)).Some?
       && Admissible(p.value.content.actionPolicy.value, GoverningOutcome(a, pool)) == a.content.action
       && a.content.subject == p.value.content.governanceSubject
  }

  /** The trail admits exactly the acts whose checks pass, plus those that name no action
      (or no agent) where the round's policy (or subject) is equally silent. */
  lemma RatifiedVersusChecks(hub: string, a: Activity, pool: seq<Activity>)
    requires a.content.MembershipAct? && a.content.hub == Some(hub)
    ensures ActuationChecksPass(a, pool) <==>
              Ratified(hub, a, pool) && a.content.action.Some? && a.content.subject.Some?
  {
  }

  /** The last act decides: an Enroll seats its agent, an expulsion or Unenroll unseats it. */
  lemma LastActDecides(hub: string, pool: seq<Activity>, at: int, agent: string, m: Activity)
    requires CollisionFree(pool)
    requires m in Trail(hub, pool, at) && m.Agent() == Some(agent)
    requires forall a :: a in Trail(hub, pool, at) && a.Agent() == Some(agent) ==> ActLe(a, m)
    ensures agent in RolesAt(hub, pool, at) <==>
              m.content.Enroll? || (m.content.MembershipAct? && m.content.kind == MemberAdmit)
  {
    var acts := ActsOn(Trail(hub, pool, at), agent);
    TrailMembers(hub, pool, at);
    RolesClosedForm(hub, pool, at, agent);
    assert IsGreatest(acts, m);
    GreatestIs(acts, m);
  }

  lemma FourApart(a: Activity, b: Activity, c: Activity, d: Activity)
    requires a.digest != b.digest && a.digest != c.digest && a.digest != d.digest
    requires b.digest != c.digest && b.digest != d.digest && c.digest != d.digest
    ensures forall x :: x in [a, b, c, d] <==> x == a || x == b || x == c || x == d
    ensures forall x :: x in [a, b, c] <==> x == a || x == b || x == c
    ensures CollisionFree([a, b, c, d]) && CollisionFree([a, b, c])
    ensures [a, b, c] + [d] == [a, b, c, d]
  {
  }

  /** One seat: enrolled at 1, expelled at 4 by an act that counts only in the longer pool. */
  lemma SeatIsLost(pool: seq<Activity>, after: seq<Activity>, enroll: Activity, act: Activity)
    requires CollisionFree(pool) && CollisionFree(after)
    requires enroll in pool && enroll in after && act in after
    requires enroll.content == Enroll(Some("hub"), Some("desk"), None)
    requires act.content.MembershipAct? && act.content.kind == MemberExpel && act.Agent() == Some("desk")
    requires enroll.published < act.published <= 9
    requires forall a :: a in after && a.Agent() == Some("desk") ==> a == enroll || a == act
    requires forall a :: a in pool ==> a in after
    requires (act in pool ==> !Ratified("hub", act, pool)) && Ratified("hub", act, after)
    ensures "desk" in RolesAt("hub", pool, 9) && "desk" !in RolesAt("hub", after, 9)
  {
    TrailMembers("hub", pool, 9);
    TrailMembers("hub", after, 9);
    ActLePreorder();
    LastActDecides("hub", pool, 9, "desk", enroll);
    LastActDecides("hub", after, 9, "desk", act);
  }

  /** The lookups of a ratified act, when its decision and its round's only proposal are present. */
  lemma LookupsResolve(act: Activity, pool: seq<Activity>, decision: Activity, proposal: Activity)
    requires CollisionFree(pool) && act.content.MembershipAct? && act.content.actsOn == Some(decision.digest)
    requires decision in pool && decision.content.DecisionRecord?
    requires proposal in pool && proposal.content.Proposal? && proposal.content.round == decision.content.decided
    requires forall a :: a in pool && a.content.Proposal? ==> a == proposal
    ensures GoverningProposal(act, pool) == Some(proposal)
    ensures GoverningOutcome(act, pool) == decision.content.outcome
  {
    DecisionFound(act.content.actsOn, pool);
    ProposalFound(decision.content.decided, pool);
  }

  /** An expulsion with no action, bound to a round whose policy names nothing for its outcome:
      its check fails, and yet it removes the seat. */
  lemma SilentExpulsion() returns (pool: seq<Activity>, act: Activity)
    ensures CollisionFree(pool + [act])
    ensures act.content.MembershipAct? && !ActuationChecksPass(act, pool + [act])
    ensures "desk" in RolesAt("hub", pool, 9) && "desk" !in RolesAt("hub", pool + [act], 9)
  {
    var enroll := Activity("op", 1, "a", Enroll(Some("hub"), Some("desk"), None));
    var proposal := Activity("hub", 2, "b", Proposal(Some("r"), Some("desk"), Some(map[])));
    var decision := Activity("hub", 3, "c", DecisionRecord(Some("r"), Some("retain")));
    act := Activity("peer", 4, "d", MembershipAct(MemberExpel, Some("hub"), Some("desk"), Some("c"), None));
    pool := [enroll, proposal, decision];
    FourApart(enroll, proposal, decision, act);
    LookupsResolve(act, pool + [act], decision, proposal);
    SeatIsLost(pool, pool + [act], enroll, act);
  }
}
