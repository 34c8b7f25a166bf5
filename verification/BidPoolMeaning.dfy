/** What a reconstructed pool says of the activities' own fields and of the announced terms. */
module BidPoolMeaning {
  import opened Prelude
  import opened BidPool
  import M = Membership
  import MM = MembershipMeaning

  /** A commitment on the task by the revealing actor, to the digest revealed. */
  predicate IsCommitFor(task: string, r: Reveal, a: Activity) {
    && a.BidCommit? && a.commit.task == task
    && a.commit.actor == r.actor && a.commit.commitment == r.payload.digest
  }

  /** The first such commitment of the record. */
  ghost predicate FirstCommitFor(activities: seq<Activity>, task: string, r: Reveal, c: Commit) {
    exists i :: && 0 <= i < |activities| && activities[i] == BidCommit(c) && IsCommitFor(task, r, activities[i])
                && forall j :: 0 <= j < i ==> !IsCommitFor(task, r, activities[j])
  }

  ghost predicate NeverCommitted(activities: seq<Activity>, task: string, r: Reveal) {
    forall a :: a in activities ==> !IsCommitFor(task, r, a)
  }

  ghost predicate IsRevealOn(activities: seq<Activity>, task: string, r: Reveal) {
    BidReveal(r) in activities && r.payload.task == task
  }

  lemma {:induction false} RevealsMean(task: string, activities: seq<Activity>, r: Reveal)
    ensures r in RevealsOn(task, activities) <==> IsRevealOn(activities, task, r)
  {
    if activities != [] {
      var k := |activities| - 1;
      RevealsMean(task, activities[..k], r);
      assert activities == activities[..k] + [activities[k]];
    }
  }

  lemma {:induction false} CommitsMean(task: string, activities: seq<Activity>, c: Commit)
    ensures c in CommitsOn(task, activities) <==> BidCommit(c) in activities && c.task == task
  {
    if activities != [] {
      var k := |activities| - 1;
      CommitsMean(task, activities[..k], c);
      assert activities == activities[..k] + [activities[k]];
    }
  }

  lemma {:induction false} FirstOpenedSnoc(commits: seq<Commit>, c: Commit, r: Reveal)
    ensures FirstOpened(commits + [c], r)
         == if FirstOpened(commits, r).Some? then FirstOpened(commits, r) else if Opens(r, c) then Some(c) else None
  {
    if commits == [] {
      assert [] + [c] == [c];
    } else {
      assert (commits + [c])[1..] == commits[1..] + [c];
      FirstOpenedSnoc(commits[1..], c, r);
    }
  }

  /** The commitment a reveal opens is the first one for it on the record. */
  lemma {:induction false} FirstOpenedIsFirst(task: string, activities: seq<Activity>, r: Reveal, c: Commit)
    ensures FirstOpened(CommitsOn(task, activities), r) == Some(c) <==> FirstCommitFor(activities, task, r, c)
    ensures FirstOpened(CommitsOn(task, activities), r) == None <==> NeverCommitted(activities, task, r)
  {
    if activities != [] {
      var k := |activities| - 1;
      var front, last := activities[..k], activities[k];
      FirstOpenedIsFirst(task, front, r, c);
      assert activities == front + [last];
      if last.BidCommit? && last.commit.task == task {
        FirstOpenedSnoc(CommitsOn(task, front), last.commit, r);
        assert CommitsOn(task, activities) == CommitsOn(task, front) + [last.commit];
        assert IsCommitFor(task, r, last) <==> Opens(r, last.commit);
      } else {
        assert CommitsOn(task, activities) == CommitsOn(task, front);
      }
      FirstCommitSnoc(front, last, task, r, c);
      NeverSnoc(front, last, task, r);
    }
  }

  lemma NeverSnoc(front: seq<Activity>, last: Activity, task: string, r: Reveal)
    ensures NeverCommitted(front + [last], task, r) <==> NeverCommitted(front, task, r) && !IsCommitFor(task, r, last)
  {
    assert last in front + [last];
    assert forall a :: a in front ==> a in front + [last];
  }

  lemma FirstCommitSnoc(front: seq<Activity>, last: Activity, task: string, r: Reveal, c: Commit)
    ensures FirstCommitFor(front + [last], task, r, c) <==>
              || FirstCommitFor(front, task, r, c)
              || (NeverCommitted(front, task, r) && last == BidCommit(c) && IsCommitFor(task, r, last))
  {
    var all, k := front + [last], |front|;
    assert forall i :: 0 <= i < k ==> all[i] == front[i];
    assert all[k] == last;
    if FirstCommitFor(all, task, r, c) {
      var i :| 0 <= i <= k && all[i] == BidCommit(c) && IsCommitFor(task, r, all[i])
               && forall j :: 0 <= j < i ==> !IsCommitFor(task, r, all[j]);
      if i == k {
        forall a | a in front ensures !IsCommitFor(task, r, a) {
          var j :| 0 <= j < k && front[j] == a;
          assert all[j] == a;
        }
      } else {
        assert front[i] == BidCommit(c);
      }
    }
    if FirstCommitFor(front, task, r, c) {
      var i :| 0 <= i < k && front[i] == BidCommit(c) && IsCommitFor(task, r, front[i])
               && forall j :: 0 <= j < i ==> !IsCommitFor(task, r, front[j]);
      assert all[i] == BidCommit(c);
    }
    if NeverCommitted(front, task, r) && last == BidCommit(c) && IsCommitFor(task, r, last) {
      assert all[k] == BidCommit(c);
      assert forall j :: 0 <= j < k ==> !IsCommitFor(task, r, all[j]);
    }
  }

  // ---- the pool

  /** Shown while the window was still open; without a close nothing is. */
  predicate ShownEarly(t: Terms, r: Reveal) {
    match t.closes
    case None => false
    case Some(closes) => match r.published case None => true case Some(at) => at < closes
  }

  /** Dated outside the window; only a window with both ends has an outside. */
  predicate DatedOutside(t: Terms, c: Commit) {
    match (t.opens, t.closes)
    case (Some(opens), Some(closes)) =>
      (match c.published case None => true case Some(at) => at < opens || at >= closes)
    case (_, _) => false
  }

  /** A bid is in the pool exactly when it was revealed on the task under its own bidder's name after
      the close, opens a first commitment dated inside the window, and its bidder is a member whom
      neither an exclusion, nor the estimator wall, nor a prior task keeps out. */
  lemma PoolMeans(t: Terms, members: set<string>, activities: seq<Activity>, e: Entry)
    ensures e in Pool(t, members, activities) <==>
              && IsRevealOn(activities, t.task, e.shown) && FirstCommitFor(activities, t.task, e.shown, e.commit)
              && e.shown.payload.bidder == Some(e.shown.actor)
              && !ShownEarly(t, e.shown) && !DatedOutside(t, e.commit)
              && e.shown.actor in members && e.shown.actor !in t.excluded && e.shown.actor !in t.priorPerformers
              && (t.estimatorsOut ==> e.shown.actor !in t.estimators)
  {
    PoolIsTheAdmitted(t, members, CommitsOn(t.task, activities), RevealsOn(t.task, activities), e);
    RevealsMean(t.task, activities, e.shown);
    FirstOpenedIsFirst(t.task, activities, e.shown, e.commit);
    WindowMeans(t, e.commit, e.shown);
  }

  lemma WindowMeans(t: Terms, c: Commit, r: Reveal)
    ensures ShownEarly(t, r) <==> TooEarly(t, r)
    ensures DatedOutside(t, c) <==> !InWindow(t, c)
  {
  }

  /** Each finding names exactly the reveals it is about. */
  lemma FindingsMean(f: Findings, t: Terms, activities: seq<Activity>, r: Reveal)
    requires Explains(f, t, CommitsOn(t.task, activities), RevealsOn(t.task, activities))
    ensures r in f.unmatched <==> IsRevealOn(activities, t.task, r) && NeverCommitted(activities, t.task, r)
    ensures r in f.boundElsewhere <==>
              IsRevealOn(activities, t.task, r) && !NeverCommitted(activities, t.task, r)
              && r.payload.bidder != Some(r.actor)
    ensures r in f.early <==>
              && IsRevealOn(activities, t.task, r) && !NeverCommitted(activities, t.task, r)
              && r.payload.bidder == Some(r.actor) && ShownEarly(t, r)
  {
    var commits, revealed := CommitsOn(t.task, activities), RevealsOn(t.task, activities);
    RevealsMean(t.task, activities, r);
    FirstOpenedIsFirst(t.task, activities, r, Commit(r.actor, t.task, r.payload.digest, None));
    FilterMembers(Judged(t, commits, Unmatched), revealed);
    FilterMembers(Judged(t, commits, BoundElsewhere), revealed);
    FilterMembers(Judged(t, commits, Early), revealed);
  }

  lemma OutsideMeans(f: Findings, t: Terms, activities: seq<Activity>, e: Entry)
    requires Explains(f, t, CommitsOn(t.task, activities), RevealsOn(t.task, activities))
    ensures e in f.outside <==>
              && IsRevealOn(activities, t.task, e.shown) && FirstCommitFor(activities, t.task, e.shown, e.commit)
              && e.shown.payload.bidder == Some(e.shown.actor) && !ShownEarly(t, e.shown) && DatedOutside(t, e.commit)
  {
    var commits, revealed := CommitsOn(t.task, activities), RevealsOn(t.task, activities);
    RevealsMean(t.task, activities, e.shown);
    FirstOpenedIsFirst(t.task, activities, e.shown, e.commit);
    MatchedMembers(t, commits, revealed, e);
    FilterMembers(Untimely(t), MatchedOf(t, commits, revealed));
  }

  /** An actor holds several commitments exactly when two of its own on the task differ. */
  lemma SeveralCommitmentsMean(task: string, activities: seq<Activity>, actor: string)
    ensures actor in MultiCommitters(CommitsOn(task, activities)) <==>
              exists c: Commit, d: Commit ::
                && BidCommit(c) in activities && BidCommit(d) in activities && c.task == task && d.task == task
                && c.actor == actor && d.actor == actor && c.commitment != d.commitment
  {
    forall c: Commit ensures c in CommitsOn(task, activities) <==> BidCommit(c) in activities && c.task == task {
      CommitsMean(task, activities, c);
    }
  }

  // ---- who may bid at an instant

  predicate NamesMember(role: Option<string>) {
    role == None || role == Some("member")
  }

  /** The last act that counts seats the agent as a member: an Enroll in that role or none, or an
      Admit when the agent's last Enroll is one or there is none. */
  ghost predicate SeatedAsMember(hub: string, record: seq<M.Activity>, at: int, agent: string, m: M.Activity) {
    && MM.LastOn(hub, record, at, agent, m)
    && match m.content
       case Enroll(_, _, role) => NamesMember(role)
       case MembershipAct(kind, _, _, _, _) =>
         kind == M.MemberAdmit
         && forall e: M.Activity :: MM.LastEnrollOn(hub, record, at, agent, e) ==> NamesMember(e.content.role)
       case _ => false
  }

  /** The members at an instant are exactly the agents last seated as one. */
  lemma MembersMean(hub: string, record: seq<M.Activity>, at: int, agent: string)
    requires M.CollisionFree(record)
    ensures agent in MembersAt(hub, record, at) <==> exists m :: SeatedAsMember(hub, record, at, agent, m)
  {
    if a :| MM.CountsAt(hub, record, at, a) && MM.IsAbout(a, agent) {
      var m := MM.SomeActIsLast(hub, record, at, agent, a);
      LastSeatMeans(hub, record, at, agent, m);
      forall o | MM.LastOn(hub, record, at, agent, o) ensures o == m {
        MM.OnlyOneIsLater(o, m);
      }
    } else {
      MM.NobodySeatsIt(hub, record, at, agent);
    }
  }

  lemma LastSeatMeans(hub: string, record: seq<M.Activity>, at: int, agent: string, m: M.Activity)
    requires M.CollisionFree(record) && MM.LastOn(hub, record, at, agent, m)
    ensures agent in MembersAt(hub, record, at) <==> SeatedAsMember(hub, record, at, agent, m)
  {
    MM.SeatMeans(hub, record, at, agent, m);
    if m.content.MembershipAct? && m.content.kind == M.MemberAdmit && !MM.NeverEnrolled(hub, record, at, agent) {
      var e := MM.SomeEnrollIsLast(hub, record, at, agent);
      forall o | MM.LastEnrollOn(hub, record, at, agent, o) ensures o == e {
        MM.OnlyOneIsLater(o, e);
      }
    }
  }
}
