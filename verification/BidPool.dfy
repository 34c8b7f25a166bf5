/** The pool an award is recomputed on: sealed commitments, revealed and admission. */
module BidPool {
  import opened Prelude
  import M = Membership
  import MT = MembershipTheorems

  /** A revealed bid payload; its digest identifies it. */
  datatype Payload = Payload(task: string, bidder: Option<string>, digest: string)

  /** Instants are absent when the stamp does not parse. */
  datatype Commit = Commit(actor: string, task: string, commitment: string, published: Option<int>)

  datatype Reveal = Reveal(actor: string, payload: Payload, published: Option<int>)

  datatype Activity = BidCommit(commit: Commit) | BidReveal(shown: Reveal) | Other

  /** The announced window, and the actors the record keeps out. */
  datatype Terms = Terms(
    task: string, opens: Option<int>, closes: Option<int>,
    excluded: set<string>, estimators: set<string>, estimatorsOut: bool, priorPerformers: set<string>)

  /** A reveal with the commitment it opens. */
  datatype Entry = Entry(commit: Commit, shown: Reveal)

  function CommitsOn(task: string, activities: seq<Activity>): seq<Commit> {
    if activities == [] then []
    else
      var a := activities[|activities| - 1];
      CommitsOn(task, activities[..|activities| - 1]) + if a.BidCommit? && a.commit.task == task then [a.commit] else []
  }

  function RevealsOn(task: string, activities: seq<Activity>): seq<Reveal> {
    if activities == [] then []
    else
      var a := activities[|activities| - 1];
      RevealsOn(task, activities[..|activities| - 1])
      + if a.BidReveal? && a.shown.payload.task == task then [a.shown] else []
  }

  predicate Opens(r: Reveal, c: Commit) {
    c.actor == r.actor && c.commitment == r.payload.digest
  }

  function FirstOpened(commits: seq<Commit>, r: Reveal): Option<Commit> {
    if commits == [] then None
    else if Opens(r, commits[0]) then Some(commits[0])
    else FirstOpened(commits[1..], r)
  }

  datatype Verdict = Unmatched | BoundElsewhere | Early | Matched

  predicate TooEarly(t: Terms, r: Reveal) {
    t.closes.Some? && (r.published.None? || r.published.value < t.closes.value)
  }

  function VerdictOf(t: Terms, commits: seq<Commit>, r: Reveal): Verdict {
    if FirstOpened(commits, r).None? then Unmatched
    else if r.payload.bidder != Some(r.actor) then BoundElsewhere
    else if TooEarly(t, r) then Early
    else Matched
  }

  function Judged(t: Terms, commits: seq<Commit>, v: Verdict): Reveal -> bool {
    (r: Reveal) => VerdictOf(t, commits, r) == v
  }

  function MatchedOf(t: Terms, commits: seq<Commit>, revealed: seq<Reveal>): seq<Entry> {
    if revealed == [] then []
    else
      var r := revealed[|revealed| - 1];
      MatchedOf(t, commits, revealed[..|revealed| - 1])
      + if VerdictOf(t, commits, r).Matched? then [Entry(FirstOpened(commits, r).value, r)] else []
  }

  /** Only a window with both ends limits a commitment. */
  predicate InWindow(t: Terms, c: Commit) {
    t.opens.Some? && t.closes.Some? ==>
      c.published.Some? && t.opens.value <= c.published.value < t.closes.value
  }

  function Timely(t: Terms): Entry -> bool {
    (e: Entry) => InWindow(t, e.commit)
  }

  function Untimely(t: Terms): Entry -> bool {
    (e: Entry) => !InWindow(t, e.commit)
  }

  predicate MayBid(t: Terms, members: set<string>, bidder: string) {
    && bidder in members
    && bidder !in t.excluded
    && !(t.estimatorsOut && bidder in t.estimators)
    && bidder !in t.priorPerformers
  }

  function Eligible(t: Terms, members: set<string>): Entry -> bool {
    (e: Entry) => MayBid(t, members, e.shown.actor)
  }

  function PoolOf(t: Terms, members: set<string>, commits: seq<Commit>, revealed: seq<Reveal>): seq<Entry> {
    Filter(Eligible(t, members), Filter(Timely(t), MatchedOf(t, commits, revealed)))
  }

  function Pool(t: Terms, members: set<string>, activities: seq<Activity>): seq<Entry> {
    PoolOf(t, members, CommitsOn(t.task, activities), RevealsOn(t.task, activities))
  }

  /** Actors that hold several differing commitments. */
  function MultiCommitters(commits: seq<Commit>): set<string> {
    set c, d | c in commits && d in commits && c.actor == d.actor && c.commitment != d.commitment :: c.actor
  }

  datatype Findings =
    Findings(unmatched: seq<Reveal>, boundElsewhere: seq<Reveal>, early: seq<Reveal>, outside: seq<Entry>)

  predicate Explains(f: Findings, t: Terms, commits: seq<Commit>, revealed: seq<Reveal>) {
    && f.unmatched == Filter(Judged(t, commits, Unmatched), revealed)
    && f.boundElsewhere == Filter(Judged(t, commits, BoundElsewhere), revealed)
    && f.early == Filter(Judged(t, commits, Early), revealed)
    && f.outside == Filter(Untimely(t), MatchedOf(t, commits, revealed))
  }

  method JudgeReveals(t: Terms, commits: seq<Commit>, revealed: seq<Reveal>)
    returns (unmatched: seq<Reveal>, boundElsewhere: seq<Reveal>, early: seq<Reveal>, matched: seq<Entry>)
    ensures unmatched == Filter(Judged(t, commits, Unmatched), revealed)
    ensures boundElsewhere == Filter(Judged(t, commits, BoundElsewhere), revealed)
    ensures early == Filter(Judged(t, commits, Early), revealed)
    ensures matched == MatchedOf(t, commits, revealed)
  {
    unmatched, boundElsewhere, early, matched := [], [], [], [];
    for i := 0 to |revealed|
      invariant unmatched == Filter(Judged(t, commits, Unmatched), revealed[..i])
      invariant boundElsewhere == Filter(Judged(t, commits, BoundElsewhere), revealed[..i])
      invariant early == Filter(Judged(t, commits, Early), revealed[..i])
      invariant matched == MatchedOf(t, commits, revealed[..i])
    {
      assert revealed[..i + 1][..i] == revealed[..i];
      var r := revealed[i];
      var commit := FirstOpened(commits, r);
      if commit.None? {
        unmatched := unmatched + [r];
        continue;
      }
      if r.payload.bidder != Some(r.actor) {
        boundElsewhere := boundElsewhere + [r];
        continue;
      }
      if t.closes.Some? && (r.published.None? || r.published.value < t.closes.value) {
        early := early + [r];
        continue;
      }
      matched := matched + [Entry(commit.value, r)];
    }
    assert revealed[..|revealed|] == revealed;
  }

  method SplitByWindow(t: Terms, matched: seq<Entry>) returns (outside: seq<Entry>, inWindow: seq<Entry>)
    ensures outside == Filter(Untimely(t), matched)
    ensures inWindow == Filter(Timely(t), matched)
  {
    outside, inWindow := [], [];
    for i := 0 to |matched|
      invariant outside == Filter(Untimely(t), matched[..i])
      invariant inWindow == Filter(Timely(t), matched[..i])
    {
      assert matched[..i + 1][..i] == matched[..i];
      var published := matched[i].commit.published;
      if t.opens.Some? && t.closes.Some?
         && (published.None? || !(t.opens.value <= published.value < t.closes.value)) {
        outside := outside + [matched[i]];
      } else {
        inWindow := inWindow + [matched[i]];
      }
    }
    assert matched[..|matched|] == matched;
  }

  method Reconstruct(t: Terms, members: set<string>, activities: seq<Activity>)
    returns (multi: set<string>, findings: Findings, pool: seq<Entry>)
    ensures multi == MultiCommitters(CommitsOn(t.task, activities))
    ensures Explains(findings, t, CommitsOn(t.task, activities), RevealsOn(t.task, activities))
    ensures pool == Pool(t, members, activities)
  {
    var commits, revealed := CommitsOn(t.task, activities), RevealsOn(t.task, activities);
    multi := MultiCommitters(commits);
    var unmatched, boundElsewhere, early, matched := JudgeReveals(t, commits, revealed);
    var outside, inWindow := SplitByWindow(t, matched);
    findings := Findings(unmatched, boundElsewhere, early, outside);
    pool := Filter(Eligible(t, members), inWindow);
  }

  // ---- every reveal is accounted for

  lemma {:induction false} WindowSplits(t: Terms, matched: seq<Entry>)
    ensures |Filter(Timely(t), matched)| + |Filter(Untimely(t), matched)| == |matched|
  {
    if matched != [] {
      WindowSplits(t, matched[..|matched| - 1]);
    }
  }

  lemma {:induction false} VerdictsSplit(t: Terms, commits: seq<Commit>, revealed: seq<Reveal>)
    ensures |Filter(Judged(t, commits, Unmatched), revealed)| + |Filter(Judged(t, commits, BoundElsewhere), revealed)|
            + |Filter(Judged(t, commits, Early), revealed)| + |MatchedOf(t, commits, revealed)| == |revealed|
  {
    if revealed != [] {
      VerdictsSplit(t, commits, revealed[..|revealed| - 1]);
    }
  }

  /** A reveal is either reported under exactly one finding or goes on to admission. */
  lemma EveryRevealIsAccounted(f: Findings, t: Terms, commits: seq<Commit>, revealed: seq<Reveal>)
    requires Explains(f, t, commits, revealed)
    ensures |f.unmatched| + |f.boundElsewhere| + |f.early| + |f.outside|
            + |Filter(Timely(t), MatchedOf(t, commits, revealed))| == |revealed|
  {
    VerdictsSplit(t, commits, revealed);
    WindowSplits(t, MatchedOf(t, commits, revealed));
  }

  // ---- who is admitted

  lemma {:induction false} FirstOpenedMeans(commits: seq<Commit>, r: Reveal)
    ensures match FirstOpened(commits, r)
            case Some(c) => c in commits && Opens(r, c)
            case None => forall c :: c in commits ==> !Opens(r, c)
  {
    if commits != [] && !Opens(r, commits[0]) {
      FirstOpenedMeans(commits[1..], r);
      assert commits == [commits[0]] + commits[1..];
    }
  }

  lemma {:induction false} MatchedMembers(t: Terms, commits: seq<Commit>, revealed: seq<Reveal>, e: Entry)
    ensures e in MatchedOf(t, commits, revealed) <==>
              && e.shown in revealed
              && VerdictOf(t, commits, e.shown).Matched?
              && FirstOpened(commits, e.shown) == Some(e.commit)
  {
    if revealed != [] {
      var k := |revealed| - 1;
      MatchedMembers(t, commits, revealed[..k], e);
      assert revealed == revealed[..k] + [revealed[k]];
    }
  }

  /** A reveal on file is admitted with exactly this commitment. */
  ghost predicate Admitted(t: Terms, members: set<string>, commits: seq<Commit>, revealed: seq<Reveal>, e: Entry) {
    && e.shown in revealed
    && FirstOpened(commits, e.shown) == Some(e.commit)
    && e.shown.payload.bidder == Some(e.shown.actor)
    && !TooEarly(t, e.shown)
    && InWindow(t, e.commit)
    && MayBid(t, members, e.shown.actor)
  }

  lemma PoolIsTheAdmitted(t: Terms, members: set<string>, commits: seq<Commit>, revealed: seq<Reveal>, e: Entry)
    ensures e in PoolOf(t, members, commits, revealed) <==> Admitted(t, members, commits, revealed, e)
  {
    FilterMembers(Timely(t), MatchedOf(t, commits, revealed));
    FilterMembers(Eligible(t, members), Filter(Timely(t), MatchedOf(t, commits, revealed)));
    MatchedMembers(t, commits, revealed, e);
  }

  /** An admitted bid was sealed: committed inside the window by its own bidder, shown only after
      the window closed, and to the very digest committed to. */
  lemma AdmittedBidWasSealed(t: Terms, members: set<string>, commits: seq<Commit>, revealed: seq<Reveal>, e: Entry)
    requires e in PoolOf(t, members, commits, revealed)
    ensures e.commit in commits && e.shown in revealed
    ensures e.commit.actor == e.shown.actor && e.shown.payload.bidder == Some(e.commit.actor)
    ensures e.commit.commitment == e.shown.payload.digest
    ensures e.shown.actor in members
    ensures t.opens.Some? && t.closes.Some? ==>
              e.commit.published.Some? && e.shown.published.Some?
              && t.opens.value <= e.commit.published.value < t.closes.value <= e.shown.published.value
  {
    PoolIsTheAdmitted(t, members, commits, revealed, e);
    FirstOpenedMeans(commits, e.shown);
  }

  /** Without the finding of several differing commitments there is no free option: all bids a
      bidder has in the pool are one payload. */
  lemma NoFreeOption(t: Terms, members: set<string>, commits: seq<Commit>, revealed: seq<Reveal>, x: Entry, y: Entry)
    requires MultiCommitters(commits) == {}
    requires x in PoolOf(t, members, commits, revealed) && y in PoolOf(t, members, commits, revealed)
    requires x.shown.actor == y.shown.actor
    ensures x.shown.payload.digest == y.shown.payload.digest
  {
    AdmittedBidWasSealed(t, members, commits, revealed, x);
    AdmittedBidWasSealed(t, members, commits, revealed, y);
    assert x.commit.commitment != y.commit.commitment ==> x.commit.actor in MultiCommitters(commits);
  }

  // ---- the first matching commitment decides

  ghost predicate HasTimelyCommit(t: Terms, commits: seq<Commit>, r: Reveal) {
    exists c :: c in commits && Opens(r, c) && InWindow(t, c)
  }

  ghost predicate FirstIsTimely(t: Terms, commits: seq<Commit>, r: Reveal) {
    FirstOpened(commits, r).Some? && InWindow(t, FirstOpened(commits, r).value)
  }

  /** The window is held against the first commitment a reveal opens; a reveal with a commitment in
      the window passes for every arrangement of the record exactly when none of its commitments
      lies outside. */
  lemma AnyArrangementPassesIff(t: Terms, commits: seq<Commit>, r: Reveal)
    requires HasTimelyCommit(t, commits, r)
    ensures (forall order :: multiset(order) == multiset(commits) ==> FirstIsTimely(t, order, r))
            <==> (forall c :: c in commits && Opens(r, c) ==> InWindow(t, c))
  {
    if forall c :: c in commits && Opens(r, c) ==> InWindow(t, c) {
      forall order | multiset(order) == multiset(commits) ensures FirstIsTimely(t, order, r) {
        FirstOpenedMeans(order, r);
        var good :| good in commits && Opens(r, good) && InWindow(t, good);
        assert good in multiset(order);
        if FirstOpened(order, r).Some? {
          assert FirstOpened(order, r).value in multiset(commits);
        }
      }
    } else {
      var bad :| bad in commits && Opens(r, bad) && !InWindow(t, bad);
      var order := MoveToFront(commits, bad);
      assert FirstOpened(order, r) == Some(bad);
      assert !FirstIsTimely(t, order, r);
    }
  }

  lemma MoveToFront(commits: seq<Commit>, c: Commit) returns (order: seq<Commit>)
    requires c in commits
    ensures order != [] && order[0] == c && multiset(order) == multiset(commits)
  {
    var j :| 0 <= j < |commits| && commits[j] == c;
    order := [c] + commits[..j] + commits[j + 1..];
    assert commits == commits[..j] + [c] + commits[j + 1..];
  }

  /** A bid committed too early and then again inside the window is kept out. */
  lemma EarlierDuplicateShutsOut() returns (t: Terms, commits: seq<Commit>, r: Reveal)
    ensures HasTimelyCommit(t, commits, r) && VerdictOf(t, commits, r).Matched?
    ensures MultiCommitters(commits) == {}
    ensures PoolOf(t, {r.actor}, commits, [r]) == []
  {
    t := Terms("t", Some(10), Some(20), {}, {}, false, {});
    var early, timely := Commit("a", "t", "d", Some(5)), Commit("a", "t", "d", Some(15));
    commits := [early, timely];
    r := Reveal("a", Payload("t", Some("a"), "d"), Some(25));
    assert timely in commits && Opens(r, timely) && InWindow(t, timely);
    assert FirstOpened(commits, r) == Some(early);
    var pool := PoolOf(t, {r.actor}, commits, [r]);
    if pool != [] {
      PoolIsTheAdmitted(t, {r.actor}, commits, [r], pool[0]);
    }
  }

  // ---- a closed award stays recomputable

  function MembersAt(hub: string, record: seq<M.Activity>, at: int): set<string> {
    var roles := M.RolesAt(hub, record, at);
    set agent | agent in roles && roles[agent] == "member"
  }

  /** Membership acts after the award's instant leave its pool alone: a bidder that resigns or is
      expelled later stays a bidder of this award. */
  lemma ClosedAwardIsStable(t: Terms, hub: string, record: seq<M.Activity>, later: seq<M.Activity>, at: int,
                            activities: seq<Activity>)
    requires forall a :: a in later ==> a.published > at && !MT.Deciding(a)
    ensures Pool(t, MembersAt(hub, record + later, at), activities) == Pool(t, MembersAt(hub, record, at), activities)
  {
    MT.PinnedRoundIsStable(hub, record, later, at, []);
  }
}
