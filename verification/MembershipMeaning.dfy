/** What membership says of a pool's own fields: which acts count, which of them decides a seat,
    and which operator a voter's weight goes to. */
module MembershipMeaning {
  import opened Prelude
  import opened Ordering
  import opened Weights
  import opened Membership
  import opened MembershipTheorems

  // ---- which acts count

  /** Later by instant, and by digest within one instant. */
  predicate Later(a: Activity, b: Activity) {
    a.published > b.published || (a.published == b.published && a.digest != b.digest && StrLe(b.digest, a.digest))
  }

  /** The first proposal of the round in the pool. */
  ghost predicate Proposes(pool: seq<Activity>, round: Option<string>, p: Activity) {
    exists i :: && 0 <= i < |pool| && pool[i] == p && IsProposalFor(p, round)
                && forall j :: 0 <= j < i ==> !IsProposalFor(pool[j], round)
  }

  predicate IsProposalFor(a: Activity, round: Option<string>) {
    a.content.Proposal? && a.content.round == round
  }

  lemma {:induction false} ProposesMeans(pool: seq<Activity>, round: Option<string>, p: Activity)
    ensures FindProposal(round, pool) == Some(p) <==> Proposes(pool, round, p)
  {
    if pool != [] {
      var rest := pool[1..];
      ProposesMeans(rest, round, p);
      if IsProposalFor(pool[0], round) {
        assert Proposes(pool, round, p) <==> pool[0] == p;
      } else {
        if i :| 0 <= i < |pool| && pool[i] == p && IsProposalFor(p, round)
                && forall j :: 0 <= j < i ==> !IsProposalFor(pool[j], round) {
          assert rest[i - 1] == p && forall j :: 0 <= j < i - 1 ==> rest[j] == pool[j + 1];
          assert Proposes(rest, round, p);
        }
        if i :| 0 <= i < |rest| && rest[i] == p && IsProposalFor(p, round)
                && forall j :: 0 <= j < i ==> !IsProposalFor(rest[j], round) {
          var next := i + 1;
          assert pool[next] == p && forall j :: 0 < j < next ==> pool[j] == rest[j - 1];
          assert Proposes(pool, round, p);
        }
      }
    }
  }

  /** A decision of the pool the act is bound to, and its round's first proposal, which pins the act's
      subject and whose policy names the act's action for the outcome. */
  ghost predicate Warrants(pool: seq<Activity>, a: Activity, d: Activity, p: Activity) {
    && a.content.MembershipAct?
    && d in pool && d.content.DecisionRecord? && a.content.actsOn == Some(d.digest)
    && Proposes(pool, d.content.decided, p)
    && p.content.Proposal? && p.content.governanceSubject == a.content.subject
    && p.content.actionPolicy.Some?
    && match d.content.outcome
       case Some(o) =>
         var policy := p.content.actionPolicy.value;
         if o in policy then a.content.action == Some(policy[o]) else a.content.action == None
       case None => a.content.action == None
  }

  /** The act of a hub that is not the hub's own and that the record warrants. */
  ghost predicate Warranted(hub: string, pool: seq<Activity>, a: Activity) {
    && a.content.MembershipAct? && a.content.hub == Some(hub) && a.actor != hub
    && exists d, p :: Warrants(pool, a, d, p)
  }

  /** The ratification legs, read off the record in one piece. */
  lemma RatifiedMeans(hub: string, pool: seq<Activity>, a: Activity)
    requires CollisionFree(pool)
    ensures Ratified(hub, a, pool) <==> Warranted(hub, pool, a)
  {
    if a.content.MembershipAct? {
      DecisionFound(a.content.actsOn, pool);
      var found := DecisionByDigest(a.content.actsOn, pool);
      forall d, p | Warrants(pool, a, d, p) ensures found == Some(d) && GoverningProposal(a, pool) == Some(p) {
        ProposesMeans(pool, d.content.decided, p);
      }
      if Ratified(hub, a, pool) {
        var p := GoverningProposal(a, pool).value;
        ProposesMeans(pool, found.value.content.decided, p);
        assert Warrants(pool, a, found.value, p);
      }
    }
  }

  /** What counts for a hub at an instant: its Enrolls and Unenrolls, and its warranted acts, up to it. */
  ghost predicate CountsAt(hub: string, pool: seq<Activity>, at: int, a: Activity) {
    && a in pool && a.published <= at
    && match a.content
       case Enroll(target, _, _) => target == Some(hub)
       case Unenroll(target, _) => target == Some(hub)
       case MembershipAct(_, _, _, _, _) => Warranted(hub, pool, a)
       case _ => false
  }

  predicate IsAbout(a: Activity, agent: string) {
    match a.content
    case Enroll(_, member, _) => member == Some(agent)
    case Unenroll(_, member) => member == Some(agent)
    case MembershipAct(_, _, subject, _, _) => subject == Some(agent)
    case _ => false
  }

  lemma TrailMeans(hub: string, pool: seq<Activity>, at: int, a: Activity)
    requires CollisionFree(pool)
    ensures a in Trail(hub, pool, at) <==> CountsAt(hub, pool, at, a)
  {
    TrailMembers(hub, pool, at);
    RatifiedMeans(hub, pool, a);
  }

  // ---- which act decides a seat

  /** The last of an agent's acts that count. */
  ghost predicate LastOn(hub: string, pool: seq<Activity>, at: int, agent: string, m: Activity) {
    && CountsAt(hub, pool, at, m) && IsAbout(m, agent)
    && forall a :: CountsAt(hub, pool, at, a) && IsAbout(a, agent) && a != m ==> Later(m, a)
  }

  /** The last of an agent's Enrolls that count. */
  ghost predicate LastEnrollOn(hub: string, pool: seq<Activity>, at: int, agent: string, e: Activity) {
    && CountsAt(hub, pool, at, e) && e.content.Enroll? && e.content.member == Some(agent)
    && forall a :: CountsAt(hub, pool, at, a) && a.content.Enroll? && a.content.member == Some(agent) && a != e
         ==> Later(e, a)
  }

  lemma OrderMeans(a: Activity, b: Activity)
    requires a.digest == b.digest ==> a == b
    ensures a != b ==> (ActLe(a, b) <==> Later(b, a))
  {
    StrLeTotalOrder();
  }

  lemma OnlyOneIsLater(a: Activity, b: Activity)
    ensures !(Later(a, b) && Later(b, a))
  {
    StrLeTotalOrder();
  }

  lemma ActsMean(hub: string, pool: seq<Activity>, at: int, agent: string, a: Activity)
    requires CollisionFree(pool)
    ensures a in ActsOn(Trail(hub, pool, at), agent) <==> CountsAt(hub, pool, at, a) && IsAbout(a, agent)
  {
    TrailMeans(hub, pool, at, a);
  }

  lemma LastIsGreatest(hub: string, pool: seq<Activity>, at: int, agent: string, m: Activity)
    requires CollisionFree(pool)
    ensures var acts := ActsOn(Trail(hub, pool, at), agent);
            && (LastOn(hub, pool, at, agent, m) ==> acts != {} && Greatest(acts) == m)
            && (LastEnrollOn(hub, pool, at, agent, m) ==> EnrollsIn(acts) != {} && Greatest(EnrollsIn(acts)) == m)
  {
    var acts := ActsOn(Trail(hub, pool, at), agent);
    forall a
      ensures a in acts <==> CountsAt(hub, pool, at, a) && IsAbout(a, agent)
      ensures a in acts ==> a in pool
    {
      ActsMean(hub, pool, at, agent, a);
    }
    StrLeTotalOrder();
    if LastOn(hub, pool, at, agent, m) {
      forall a | a in acts ensures ActLe(a, m) {
        OrderMeans(a, m);
      }
      GreatestIs(acts, m);
    }
    if LastEnrollOn(hub, pool, at, agent, m) {
      forall a | a in EnrollsIn(acts) ensures ActLe(a, m) {
        OrderMeans(a, m);
      }
      GreatestIs(EnrollsIn(acts), m);
    }
  }

  /** The last Enroll that counts for an agent's readmission, if any. */
  ghost predicate NeverEnrolled(hub: string, pool: seq<Activity>, at: int, agent: string) {
    forall a :: CountsAt(hub, pool, at, a) && a.content.Enroll? ==> a.content.member != Some(agent)
  }

  /** The seat of an agent at an instant, by the last act that counts: an Enroll seats it in its own
      role and for its signer; an Admit in the role and for the signer of the last Enroll, or as a
      member without an operator; an Unenroll or an expulsion does not. */
  ghost predicate SeatedBy(hub: string, pool: seq<Activity>, at: int, agent: string, m: Activity,
                           role: Option<string>, instance: Option<string>) {
    match m.content
    case Enroll(_, _, named) =>
      role == Some(if named.Some? then named.value else "member") && instance == Some(m.actor)
    case MembershipAct(kind, _, _, _, _) =>
      if kind != MemberAdmit then role == None && instance == None
      else if NeverEnrolled(hub, pool, at, agent) then role == Some("member") && instance == None
      else
        forall e :: LastEnrollOn(hub, pool, at, agent, e) ==>
          role == Some(if e.content.role.Some? then e.content.role.value else "member") && instance == Some(e.actor)
    case _ => role == None && instance == None
  }

  lemma NeverEnrolledMeans(hub: string, pool: seq<Activity>, at: int, agent: string)
    requires CollisionFree(pool)
    ensures NeverEnrolled(hub, pool, at, agent) <==> EnrollsIn(ActsOn(Trail(hub, pool, at), agent)) == {}
  {
    var enrolls := EnrollsIn(ActsOn(Trail(hub, pool, at), agent));
    forall a ensures a in enrolls <==> CountsAt(hub, pool, at, a) && a.content.Enroll?
                                               && a.content.member == Some(agent) {
      ActsMean(hub, pool, at, agent, a);
    }
  }

  /** Both folds, over the pool's own fields. */
  lemma SeatMeans(hub: string, pool: seq<Activity>, at: int, agent: string, m: Activity)
    requires CollisionFree(pool) && LastOn(hub, pool, at, agent, m)
    ensures SeatedBy(hub, pool, at, agent, m, Get(RolesAt(hub, pool, at), agent),
                     Get(InstancesAt(hub, pool, at), agent))
  {
    var acts := ActsOn(Trail(hub, pool, at), agent);
    RolesClosedForm(hub, pool, at, agent);
    InstancesClosedForm(hub, pool, at, agent);
    LastIsGreatest(hub, pool, at, agent, m);
    NeverEnrolledMeans(hub, pool, at, agent);
    if m.content.Enroll? {
      forall a ensures a in acts <==> CountsAt(hub, pool, at, a) && IsAbout(a, agent) {
        ActsMean(hub, pool, at, agent, a);
      }
      assert LastEnrollOn(hub, pool, at, agent, m);
    }
    forall e | LastEnrollOn(hub, pool, at, agent, e) ensures EnrollsIn(acts) != {} && Greatest(EnrollsIn(acts)) == e {
      LastIsGreatest(hub, pool, at, agent, e);
    }
  }

  /** An agent no act counts for has neither role nor instance. */
  lemma NobodySeatsIt(hub: string, pool: seq<Activity>, at: int, agent: string)
    requires CollisionFree(pool)
    requires forall a :: CountsAt(hub, pool, at, a) ==> !IsAbout(a, agent)
    ensures agent !in RolesAt(hub, pool, at) && agent !in InstancesAt(hub, pool, at)
  {
    RolesClosedForm(hub, pool, at, agent);
    InstancesClosedForm(hub, pool, at, agent);
    forall a ensures a !in ActsOn(Trail(hub, pool, at), agent) {
      ActsMean(hub, pool, at, agent, a);
    }
    assert ActsOn(Trail(hub, pool, at), agent) == {};
  }

  /** Otherwise one of them is the last. */
  lemma SomeActIsLast(hub: string, pool: seq<Activity>, at: int, agent: string, a: Activity) returns (m: Activity)
    requires CollisionFree(pool)
    requires CountsAt(hub, pool, at, a) && IsAbout(a, agent)
    ensures LastOn(hub, pool, at, agent, m)
  {
    var acts := ActsOn(Trail(hub, pool, at), agent);
    forall x ensures x in acts <==> CountsAt(hub, pool, at, x) && IsAbout(x, agent) {
      ActsMean(hub, pool, at, agent, x);
    }
    assert a in acts;
    m := Greatest(acts);
    forall x | x in acts && x != m ensures Later(m, x) {
      OrderMeans(x, m);
    }
  }

  /** Nor is the last of an agent's Enrolls missing when it was ever enrolled. */
  lemma SomeEnrollIsLast(hub: string, pool: seq<Activity>, at: int, agent: string) returns (e: Activity)
    requires CollisionFree(pool) && !NeverEnrolled(hub, pool, at, agent)
    ensures LastEnrollOn(hub, pool, at, agent, e)
  {
    var enrolls := EnrollsIn(ActsOn(Trail(hub, pool, at), agent));
    NeverEnrolledMeans(hub, pool, at, agent);
    forall a
      ensures a in enrolls <==> CountsAt(hub, pool, at, a) && a.content.Enroll? && a.content.member == Some(agent)
    {
      ActsMean(hub, pool, at, agent, a);
    }
    e := Greatest(enrolls);
    forall x | x in enrolls && x != e ensures Later(e, x) {
      OrderMeans(x, e);
    }
  }

  // ---- whose operator

  ghost predicate LastTransfer(pool: seq<Activity>, instance: string, at: int, t: Activity) {
    && t in pool && t.content.ControlTransfer? && t.actor == instance && t.published <= at
    && forall a :: a in pool && a.content.ControlTransfer? && a.actor == instance && a.published <= at && a != t
         ==> Later(t, a)
  }

  /** The last change of control an instance declared up to an instant names its operator; without
      one, or when it names nobody, the instance is its own. */
  lemma EffectiveOperatorMeans(pool: seq<Activity>, instance: string, at: int)
    requires CollisionFree(pool)
    ensures (forall a :: a in pool && a.content.ControlTransfer? && a.actor == instance ==> a.published > at)
            ==> EffectiveOperator(instance, at, pool) == instance
    ensures forall t :: LastTransfer(pool, instance, at, t) ==>
              EffectiveOperator(instance, at, pool)
              == match t.content.operatedBy
                 case Some(operator) => if operator == "" then instance else operator
                 case None => instance
  {
    var transfers := Filter(Transfers(instance, at), pool);
    FilterMembers(Transfers(instance, at), pool);
    assert forall t :: LastTransfer(pool, instance, at, t) ==> t in transfers;
    if transfers != [] {
      assert transfers[0] in transfers;
      LatestIsGreatest(transfers);
      forall t | LastTransfer(pool, instance, at, t) ensures Latest(transfers) == t {
        assert t in transfers;
        OrderMeans(Latest(transfers), t);
        StrLeTotalOrder();
      }
    }
  }

  /** The operator a voter's weight goes to in a round pinned at an instant. */
  function OperatorFor(hub: string, pool: seq<Activity>, at: int, voter: string): string {
    var instances := InstancesAt(hub, pool, at);
    EffectiveOperator(if voter in instances then instances[voter] else voter, at, pool)
  }

  lemma SeatedIsPaired(hub: string, pool: seq<Activity>, at: int, sorted: seq<string>, i: nat)
    requires i < |sorted|
    ensures SeatedVoters(hub, pool, at, sorted)[i] == Voter(sorted[i], OperatorFor(hub, pool, at, sorted[i]))
  {
  }

  /** Every pinned voter's recomputed weight, times the number of pinned voters with its operator, is
      one positive number for the whole round. */
  lemma RecomputedWeightsMean(hub: string, pool: seq<Activity>, at: int, voters: seq<string>, v: string)
    requires NoCopies(voters) && v in voters
    ensures var seated := SeatedVoters(hub, pool, at, Sort(StrLe, voters));
            var w := RecomputedWeights(hub, pool, at, voters);
            v in w && w[v] > 0
            && w[v] * BucketSize(seated, OperatorFor(hub, pool, at, v)) == CommonTotal(seated)
  {
    var sorted := Sort(StrLe, voters);
    var seated := SeatedVoters(hub, pool, at, sorted);
    StrLeTotalOrder();
    SortProperties(StrLe, voters);
    SortedHasNoCopies(voters, sorted);
    forall i, j | 0 <= i < j < |seated| ensures seated[i].agent != seated[j].agent {
      SeatedIsPaired(hub, pool, at, sorted, i);
      SeatedIsPaired(hub, pool, at, sorted, j);
    }
    var i :| 0 <= i < |sorted| && sorted[i] == v;
    SeatedIsPaired(hub, pool, at, sorted, i);
    WeightIsExactShare(seated, seated[i]);
  }

  lemma SortedHasNoCopies(voters: seq<string>, sorted: seq<string>)
    requires NoCopies(voters) && multiset(sorted) == multiset(voters)
    ensures NoCopies(sorted)
  {
    forall i, j | 0 <= i < j < |sorted| ensures sorted[i] != sorted[j] {
      if sorted[i] == sorted[j] {
        assert sorted == sorted[..i] + [sorted[i]] + sorted[i + 1..j] + [sorted[j]] + sorted[j + 1..];
        assert multiset(sorted)[sorted[i]] >= 2;
        NoCopiesMultiset(voters, sorted[i]);
      }
    }
  }
}
