/** The membership trail: which agents a hub seats, in which role and for which
    operator, replayed from signed activities (`enrolled_roles_at`,
    `enrolled_instances`, `ratified_membership_acts`, `effective_operator`). */
module Membership {
  import opened Prelude
  import opened Ordering
  import opened Weights

  datatype Actuation = MemberExpel | MemberAdmit

  datatype Content =
    | Enroll(target: Option<string>, member: Option<string>, role: Option<string>)
    | Unenroll(target: Option<string>, member: Option<string>)
    | MembershipAct(kind: Actuation, hub: Option<string>, subject: Option<string>,
                    actsOn: Option<string>, action: Option<string>)
    | DecisionRecord(decided: Option<string>, outcome: Option<string>)
    | Proposal(round: Option<string>, governanceSubject: Option<string>,
               actionPolicy: Option<map<string, string>>)
    | ControlTransfer(operatedBy: Option<string>)
    | OtherContent

  /** `published` is the instant in epoch milliseconds, `digest` what `digest_of` returns. */
  datatype Activity = Activity(actor: string, published: int, digest: string, content: Content) {
    /** The agent a membership activity is about: its `object`. */
    function Agent(): Option<string> {
      match content
      case Enroll(_, member, _) => member
      case Unenroll(_, member) => member
      case MembershipAct(_, _, subject, _, _) => subject
      case _ => None
    }
  }

  /** No two different activities of a pool share a digest. */
  ghost predicate CollisionFree(pool: seq<Activity>) {
    forall a, b :: a in pool && b in pool && a.digest == b.digest ==> a == b
  }

  /** The trail order: by instant, then by digest. */
  predicate ActLe(a: Activity, b: Activity) {
    a.published < b.published || (a.published == b.published && StrLe(a.digest, b.digest))
  }

  // ---- ratification

  function DecisionByDigest(digest: Option<string>, pool: seq<Activity>): Option<Activity> {
    if pool == [] then None
    else if pool[0].content.DecisionRecord? && Some(pool[0].digest) == digest then Some(pool[0])
    else DecisionByDigest(digest, pool[1..])
  }

  function FindProposal(round: Option<string>, pool: seq<Activity>): Option<Activity> {
    if pool == [] then None
    else if pool[0].content.Proposal? && pool[0].content.round == round then Some(pool[0])
    else FindProposal(round, pool[1..])
  }

  /** `policy.get(outcome)`. */
  function Admissible(policy: map<string, string>, outcome: Option<string>): Option<string> {
    if outcome.Some? && outcome.value in policy then Some(policy[outcome.value]) else None
  }

  /** The round a membership act claims to carry out, as far as the pool resolves it. */
  function GoverningProposal(a: Activity, pool: seq<Activity>): Option<Activity>
    requires a.content.MembershipAct?
  {
    match DecisionByDigest(a.content.actsOn, pool)
    case None => None
    case Some(d) => if d.content.DecisionRecord? then FindProposal(d.content.decided, pool) else None
  }

  function GoverningOutcome(a: Activity, pool: seq<Activity>): Option<string>
    requires a.content.MembershipAct?
  {
    match DecisionByDigest(a.content.actsOn, pool)
    case None => None
    case Some(d) => if d.content.DecisionRecord? then d.content.outcome else None
  }

  /** Whether the trail admits a membership act: every leg of `ratified_membership_acts`. */
  predicate Ratified(hub: string, a: Activity, pool: seq<Activity>) {
    && a.content.MembershipAct?
    && a.content.hub == Some(hub)
    && a.actor != hub
    && var p := GoverningProposal(a, pool);
       && p.Some? && p.value.content.Proposal?
       && p.value.content.governanceSubject == a.content.subject
       && p.value.content.actionPolicy.Some?
       && Admissible(p.value.content.actionPolicy.value, GoverningOutcome(a, pool)) == a.content.action
  }

  function RatifiedActs(hub: string, pool: seq<Activity>): seq<Activity> {
    Filter((a: Activity) => Ratified(hub, a, pool), pool)
  }

  method RatifiedMembershipActs(hub: string, pool: seq<Activity>) returns (ratified: seq<Activity>)
    ensures ratified == RatifiedActs(hub, pool)
  {
    ghost var keep := (a: Activity) => Ratified(hub, a, pool);
    ratified := [];
    for i := 0 to |pool|
      invariant ratified == Filter(keep, pool[..i])
    {
      assert pool[..i+1][..i] == pool[..i];
      var a := pool[i];
      if !a.content.MembershipAct? || a.content.hub != Some(hub) || a.actor == hub {
        continue;
      }
      var decision := DecisionByDigest(a.content.actsOn, pool);
      if decision.None? || !decision.value.content.DecisionRecord? {
        continue;
      }
      var proposal := FindProposal(decision.value.content.decided, pool);
      if proposal.None? || !proposal.value.content.Proposal?
         || proposal.value.content.governanceSubject != a.content.subject {
        continue;
      }
      var policy := proposal.value.content.actionPolicy;
      if policy.None? || Admissible(policy.value, decision.value.content.outcome) != a.content.action {
        continue;
      }
      ratified := ratified + [a];
    }
    assert pool[..|pool|] == pool;
  }

  // ---- the trail and its two folds

  predicate SelfIssued(hub: string, at: int, a: Activity) {
    && (a.content.Enroll? || a.content.Unenroll?)
    && a.content.target == Some(hub)
    && a.published <= at
  }

  /** Enrolls and Unenrolls up to `at`, then the ratified acts up to `at`. */
  function Trail(hub: string, pool: seq<Activity>, at: int): seq<Activity> {
    Filter((a: Activity) => SelfIssued(hub, at, a), pool)
    + Filter((a: Activity) => a.published <= at, RatifiedActs(hub, pool))
  }

  function SortedTrail(hub: string, pool: seq<Activity>, at: int): seq<Activity> {
    Sort(ActLe, Trail(hub, pool, at))
  }

  /** A role as declared: an Enroll without one reads as `member`. */
  function RoleOr(role: Option<string>): string {
    if role.Some? then role.value else "member"
  }

  datatype Seats = Seats(roles: map<string, string>, held: map<string, string>)

  function SeatStep(st: Seats, a: Activity): Seats {
    match a.Agent()
    case None => st
    case Some(agent) =>
      if a.content.Enroll? then
        Seats(st.roles[agent := RoleOr(a.content.role)], st.held[agent := RoleOr(a.content.role)])
      else if a.content.MembershipAct? && a.content.kind == MemberAdmit then
        st.(roles := st.roles[agent := if agent in st.held then st.held[agent] else "member"])
      else
        st.(roles := st.roles - {agent})
  }

  function SeatFold(trail: seq<Activity>): Seats {
    if trail == [] then Seats(map[], map[])
    else SeatStep(SeatFold(trail[..|trail|-1]), trail[|trail|-1])
  }

  /** agent -> role as of `at`. */
  function RolesAt(hub: string, pool: seq<Activity>, at: int): map<string, string> {
    SeatFold(SortedTrail(hub, pool, at)).roles
  }

  method EnrolledRolesAt(hub: string, pool: seq<Activity>, at: int) returns (roles: map<string, string>)
    ensures roles == RolesAt(hub, pool, at)
  {
    var held: map<string, string> := map[];
    roles := map[];
    var acts := RatifiedMembershipActs(hub, pool);
    var trail := Filter((a: Activity) => SelfIssued(hub, at, a), pool)
               + Filter((a: Activity) => a.published <= at, acts);
    var sorted := Sort(ActLe, trail);
    assert sorted == SortedTrail(hub, pool, at);
    for i := 0 to |sorted|
      invariant Seats(roles, held) == SeatFold(sorted[..i])
    {
      assert sorted[..i+1][..i] == sorted[..i];
      var a := sorted[i];
      var agent := a.Agent();
      if agent.None? {
        continue;
      }
      if a.content.Enroll? {
        held := held[agent.value := RoleOr(a.content.role)];
        roles := roles[agent.value := held[agent.value]];
      } else if a.content.MembershipAct? && a.content.kind == MemberAdmit {
        roles := roles[agent.value := if agent.value in held then held[agent.value] else "member"];
      } else {
        roles := roles - {agent.value};
      }
    }
    assert sorted[..|sorted|] == sorted;
  }

  datatype Operated = Operated(instances: map<string, string>, enrolledBy: map<string, string>)

  function OperatorStep(st: Operated, a: Activity): Operated {
    match a.Agent()
    case None => st
    case Some(agent) =>
      if a.content.Enroll? then
        Operated(st.instances[agent := a.actor], st.enrolledBy[agent := a.actor])
      else if a.content.MembershipAct? && a.content.kind == MemberAdmit then
        if agent in st.enrolledBy then st.(instances := st.instances[agent := st.enrolledBy[agent]]) else st
      else
        st.(instances := st.instances - {agent})
  }

  function OperatorFold(trail: seq<Activity>): Operated {
    if trail == [] then Operated(map[], map[])
    else OperatorStep(OperatorFold(trail[..|trail|-1]), trail[|trail|-1])
  }

  /** agent -> the instance that enrolled it, as of `at`. */
  function InstancesAt(hub: string, pool: seq<Activity>, at: int): map<string, string> {
    OperatorFold(SortedTrail(hub, pool, at)).instances
  }

  method EnrolledInstances(hub: string, pool: seq<Activity>, at: int) returns (instances: map<string, string>)
    ensures instances == InstancesAt(hub, pool, at)
  {
    var enrolledBy: map<string, string> := map[];
    instances := map[];
    var acts := RatifiedMembershipActs(hub, pool);
    var trail := Filter((a: Activity) => SelfIssued(hub, at, a), pool)
               + Filter((a: Activity) => a.published <= at, acts);
    var sorted := Sort(ActLe, trail);
    assert sorted == SortedTrail(hub, pool, at);
    for i := 0 to |sorted|
      invariant Operated(instances, enrolledBy) == OperatorFold(sorted[..i])
    {
      assert sorted[..i+1][..i] == sorted[..i];
      var a := sorted[i];
      var agent := a.Agent();
      if agent.None? {
        continue;
      }
      if a.content.Enroll? {
        enrolledBy := enrolledBy[agent.value := a.actor];
        instances := instances[agent.value := a.actor];
      } else if a.content.MembershipAct? && a.content.kind == MemberAdmit {
        if agent.value in enrolledBy {
          instances := instances[agent.value := enrolledBy[agent.value]];
        }
      } else {
        instances := instances - {agent.value};
      }
    }
    assert sorted[..|sorted|] == sorted;
  }

  // ---- declared change of control

  predicate TransferBy(instance: string, at: int, a: Activity) {
    a.content.ControlTransfer? && a.actor == instance && a.published <= at
  }

  /** Python's `max` over a non-empty list: the first of the greatest. */
  function Latest(s: seq<Activity>): Activity
    requires s != []
  {
    if |s| == 1 then s[0]
    else
      var m := Latest(s[..|s|-1]);
      if ActLe(s[|s|-1], m) then m else s[|s|-1]
  }

  function Transfers(instance: string, at: int): Activity -> bool {
    (a: Activity) => TransferBy(instance, at, a)
  }

  function EffectiveOperator(instance: string, at: int, pool: seq<Activity>): string {
    var transfers := Filter(Transfers(instance, at), pool);
    if transfers == [] then instance
    else
      var last := Latest(transfers);
      if last.content.ControlTransfer? && last.content.operatedBy.Some? && last.content.operatedBy.value != ""
      then last.content.operatedBy.value
      else instance
  }

  // ---- the weights a round is checked against

  /** The `(voter, effective operator)` pairs of one round's pinned voters. */
  function SeatedVoters(hub: string, pool: seq<Activity>, at: int, voters: seq<string>): seq<Voter> {
    var instances := InstancesAt(hub, pool, at);
    seq(|voters|, i requires 0 <= i < |voters| =>
      var v := voters[i];
      Voter(v, EffectiveOperator(if v in instances then instances[v] else v, at, pool)))
  }

  /** The dictionary `check_decision_record` compares the declared weights with. */
  function RecomputedWeights(hub: string, pool: seq<Activity>, at: int, voters: seq<string>): map<string, int> {
    WeightsOf(SeatedVoters(hub, pool, at, Sort(StrLe, voters)))
  }
}
