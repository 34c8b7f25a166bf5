/** Equivocation: the conviction predicate, the replay-wide scan for concealed
    convictions, and who inherits a stalled round. */
module Equivocation {
  import opened Prelude

  /** An `afp:Vote` activity, with the fields the Level-1 rules read. */
  datatype Vote = Vote(actor: Option<string>, round: Option<string>, phase: Option<string>, seqNo: Scalar,
                       value: string, proposalHash: Option<string>, digest: string)

  /** `(actor, round, phase, seqNo)`. */
  datatype Slot = Slot(actor: string, round: string, phase: string, seqNo: int)

  function SlotOf(v: Vote): Option<Slot> {
    if v.actor.None? || v.round.None? || v.phase.None? then None
    else if !v.seqNo.IntVal? || v.seqNo.n < 1 then None
    else Some(Slot(v.actor.value, v.round.value, v.phase.value, v.seqNo.n))
  }

  predicate Convicts(a: Vote, b: Vote) {
    && SlotOf(a).Some? && SlotOf(a) == SlotOf(b)
    && (a.value != b.value || a.proposalHash != b.proposalHash)
  }

  /** An `afp:EquivocationProof`: the round it names and the votes it embeds. */
  datatype Proof = Proof(round: Option<string>, votes: seq<Vote>)

  // ---- convictions on record, and succession

  method ConvictedActorsInRound(round: string, proofs: seq<Proof>) returns (convicted: set<string>)
    ensures convicted == ConvictedIn(round, proofs)
  {
    convicted := {};
    for i := 0 to |proofs|
      invariant convicted == ConvictedIn(round, proofs[..i])
    {
      var p := proofs[i];
      assert proofs[..i+1] == proofs[..i] + [p];
      if p.round != Some(round) || |p.votes| != 2 {
        continue;
      }
      for j := 0 to |p.votes|
        invariant convicted == ConvictedIn(round, proofs[..i]) + ActorsOf(p.votes[..j])
      {
        assert p.votes[..j+1] == p.votes[..j] + [p.votes[j]];
        if p.votes[j].actor.Some? {
          convicted := convicted + {p.votes[j].actor.value};
        }
      }
      assert p.votes[..|p.votes|] == p.votes;
    }
    assert proofs[..|proofs|] == proofs;
  }

  function ActorsOf(votes: seq<Vote>): set<string> {
    set v | v in votes && v.actor.Some? :: v.actor.value
  }

  /** Every actor some well-formed proof names for the round. */
  function ConvictedIn(round: string, proofs: seq<Proof>): set<string> {
    set p, v | p in proofs && p.round == Some(round) && |p.votes| == 2 && v in p.votes && v.actor.Some? :: v.actor.value
  }

  /** What `check_equivocation_proof` demands of a proof, signatures aside. */
  predicate ProofHolds(p: Proof) {
    |p.votes| == 2 && p.votes[0].round == p.round && Convicts(p.votes[0], p.votes[1])
  }

  /** If every proof of a round passes its check, each convicted actor really cast two votes
      in that round, in one slot, that say different things. */
  lemma ConvictionsAreReal(round: string, proofs: seq<Proof>, actor: string)
    requires forall p :: p in proofs && p.round == Some(round) ==> ProofHolds(p)
    ensures actor in ConvictedIn(round, proofs) <==>
              exists p :: p in proofs && p.round == Some(round) && |p.votes| == 2
                && SlotOf(p.votes[0]).Some? && SlotOf(p.votes[0]).value.actor == actor
                && SlotOf(p.votes[0]).value.round == round && Convicts(p.votes[0], p.votes[1])
  {
    if actor in ConvictedIn(round, proofs) {
      var p, v :| p in proofs && p.round == Some(round) && |p.votes| == 2 && v in p.votes && v.actor == Some(actor);
      assert ProofHolds(p);
      assert v == p.votes[0] || v == p.votes[1];
    }
    if p :| p in proofs && p.round == Some(round) && |p.votes| == 2 && SlotOf(p.votes[0]).Some?
            && SlotOf(p.votes[0]).value.actor == actor {
      assert p.votes[0] in p.votes;
    }
  }

  /** The pinned voters, rotated to start after the proposer. */
  function Rotated(voters: seq<string>, proposer: string): seq<string> {
    var start := StartAfter(voters, proposer);
    voters[start..] + voters[..start]
  }

  function IndexOf(voters: seq<string>, v: string): (i: nat)
    requires v in voters
    ensures i < |voters| && voters[i] == v && v !in voters[..i]
  {
    if voters[0] == v then 0
    else
      assert voters == [voters[0]] + voters[1..];
      var i := 1 + IndexOf(voters[1..], v);
      assert voters[..i] == [voters[0]] + voters[1..][..i-1];
      i
  }

  function StartAfter(voters: seq<string>, proposer: string): (start: nat)
    ensures start <= |voters|
  {
    if proposer in voters then IndexOf(voters, proposer) + 1 else 0
  }

  method Successor(voters: seq<string>, proposer: string, convicted: set<string>, silent: set<string>)
    returns (next: Option<string>)
    ensures next.None? <==> forall v :: v in voters ==> v in convicted || v in silent
    ensures next.Some? ==>
              exists k :: 0 <= k < |voters| && Rotated(voters, proposer)[k] == next.value
                && next.value !in convicted && next.value !in silent
                && forall j :: 0 <= j < k ==> Rotated(voters, proposer)[j] in convicted + silent
  {
    if voters == [] {
      return None;
    }
    var order := Rotated(voters, proposer);
    RotationKeepsVoters(voters, proposer);
    for k := 0 to |order|
      invariant forall j :: 0 <= j < k ==> order[j] in convicted + silent
    {
      if order[k] in convicted || order[k] in silent {
        continue;
      }
      assert order[k] in order;
      return Some(order[k]);
    }
    forall v | v in voters ensures v in convicted || v in silent {
      var j :| 0 <= j < |order| && order[j] == v;
    }
    return None;
  }

  lemma RotatedAt(voters: seq<string>, start: nat, k: nat)
    requires start <= |voters| && k < |voters|
    ensures (voters[start..] + voters[..start])[k] == voters[(start + k) % |voters|]
  {
    if start + k < |voters| {
      SmallMod(start + k, 0, |voters|);
    } else {
      SmallMod(start + k - |voters|, 1, |voters|);
    }
  }

  /** Position `k` of the rotation is `k` seats after the proposer, counted cyclically. */
  lemma RotationKeepsVoters(voters: seq<string>, proposer: string)
    ensures |Rotated(voters, proposer)| == |voters|
    ensures forall v :: v in Rotated(voters, proposer) <==> v in voters
    ensures forall k :: 0 <= k < |voters| ==>
              Rotated(voters, proposer)[k] == voters[(StartAfter(voters, proposer) + k) % |voters|]
  {
    var start := StartAfter(voters, proposer);
    assert voters == voters[..start] + voters[start..];
    forall k | 0 <= k < |voters|
      ensures Rotated(voters, proposer)[k] == voters[(start + k) % |voters|]
    {
      RotatedAt(voters, start, k);
    }
  }

  lemma SmallMod(r: nat, q: nat, n: nat)
    requires r < n && q <= 1
    ensures (r + q * n) % n == r
  {
  }

  // ---- the scan

  datatype Entry = Entry(domain: string, vote: Vote)

  datatype Finding = Finding(domain: string, round: string, actor: string)

  ghost predicate CollisionFree(entries: seq<Entry>) {
    forall e, f :: e in entries && f in entries && e.vote.digest == f.vote.digest ==> e.vote == f.vote
  }

  /** `(round, actor)` pairs some announced proof names. */
  function Announced(proofs: seq<Proof>): set<(string, string)> {
    set p, v | p in proofs && p.round.Some? && |p.votes| == 2 && v in p.votes && v.actor.Some?
      :: (p.round.value, v.actor.value)
  }

  /** The all-pairs specification: who equivocated anywhere in the pool without an announced proof. */
  ghost function Concealed(entries: seq<Entry>, announced: set<(string, string)>): set<(string, string)> {
    set e, f | e in entries && f in entries && Convicts(e.vote, f.vote)
               && (SlotOf(e.vote).value.round, SlotOf(e.vote).value.actor) !in announced
      :: (SlotOf(e.vote).value.round, SlotOf(e.vote).value.actor)
  }

  /** The vote groups: per slot the distinct digests in order of arrival, the vote behind each
      digest, and the domains whose bundle holds it. */
  datatype Groups = Groups(order: seq<Slot>, digests: map<Slot, seq<string>>,
                           byDigest: map<string, Vote>, holders: map<string, set<string>>)

  function AddVote(g: Groups, e: Entry): Groups {
    match SlotOf(e.vote)
    case None => g
    case Some(slot) =>
      var digest := e.vote.digest;
      var known := if slot in g.digests then g.digests[slot] else [];
      Groups(if slot in g.digests then g.order else g.order + [slot],
             g.digests[slot := if digest in known then known else known + [digest]],
             g.byDigest[digest := e.vote],
             g.holders[digest := (if digest in g.holders then g.holders[digest] else {}) + {e.domain}])
  }

  function GroupsOf(entries: seq<Entry>): Groups {
    if entries == [] then Groups([], map[], map[], map[])
    else AddVote(GroupsOf(entries[..|entries|-1]), entries[|entries|-1])
  }

  /** The grouping pass. */
  method GroupVotes(entries: seq<Entry>) returns (g: Groups)
    ensures g == GroupsOf(entries)
  {
    var order: seq<Slot>, digests: map<Slot, seq<string>> := [], map[];
    var byDigest: map<string, Vote>, holders: map<string, set<string>> := map[], map[];
    for i := 0 to |entries|
      invariant Groups(order, digests, byDigest, holders) == GroupsOf(entries[..i])
    {
      var e := entries[i];
      assert entries[..i+1][..i] == entries[..i];
      if SlotOf(e.vote).None? {
        continue;
      }
      var slot, digest := SlotOf(e.vote).value, e.vote.digest;
      var known := if slot in digests then digests[slot] else [];
      if slot !in digests {
        order := order + [slot];
      }
      digests := digests[slot := if digest in known then known else known + [digest]];
      byDigest := byDigest[digest := e.vote];
      holders := holders[digest := (if digest in holders then holders[digest] else {}) + {e.domain}];
    }
    assert entries[..|entries|] == entries;
    g := Groups(order, digests, byDigest, holders);
  }

  lemma {:induction false} SlotsMean(entries: seq<Entry>, slot: Slot)
    ensures slot in GroupsOf(entries).order <==> exists e :: e in entries && SlotOf(e.vote) == Some(slot)
    ensures slot in GroupsOf(entries).order <==> slot in GroupsOf(entries).digests
  {
    if entries != [] {
      var k := |entries| - 1;
      SlotsMean(entries[..k], slot);
      assert entries == entries[..k] + [entries[k]];
    }
  }

  ghost predicate Listed(g: Groups, slot: Slot, digest: string) {
    slot in g.digests && digest in g.digests[slot]
  }

  lemma {:induction false} DigestsMean(entries: seq<Entry>, slot: Slot, digest: string)
    ensures Listed(GroupsOf(entries), slot, digest) <==>
              exists e :: e in entries && SlotOf(e.vote) == Some(slot) && e.vote.digest == digest
  {
    if entries != [] {
      var k := |entries| - 1;
      DigestsMean(entries[..k], slot, digest);
      assert entries == entries[..k] + [entries[k]];
    }
  }

  ghost predicate Held(g: Groups, digest: string, domain: string) {
    digest in g.holders && domain in g.holders[digest]
  }

  lemma {:induction false} HoldersMean(entries: seq<Entry>, digest: string, domain: string)
    ensures Held(GroupsOf(entries), digest, domain) <==>
              exists e :: e in entries && SlotOf(e.vote).Some? && e.vote.digest == digest && e.domain == domain
    ensures digest in GroupsOf(entries).byDigest <==> digest in GroupsOf(entries).holders
  {
    if entries != [] {
      var k := |entries| - 1;
      HoldersMean(entries[..k], digest, domain);
      assert entries == entries[..k] + [entries[k]];
    }
  }

  lemma {:induction false} ByDigestMeans(entries: seq<Entry>, e: Entry)
    requires CollisionFree(entries) && e in entries && SlotOf(e.vote).Some?
    ensures e.vote.digest in GroupsOf(entries).byDigest
    ensures GroupsOf(entries).byDigest[e.vote.digest] == e.vote
  {
    var k := |entries| - 1;
    if e != entries[k] {
      assert entries == entries[..k] + [entries[k]];
      assert forall f :: f in entries[..k] ==> f in entries;
      ByDigestMeans(entries[..k], e);
    }
  }

  /** Some two votes of one slot, anywhere in the pool, convict. */
  ghost predicate SlotConvicts(entries: seq<Entry>, slot: Slot) {
    exists e, f :: e in entries && f in entries && SlotOf(e.vote) == Some(slot) && Convicts(e.vote, f.vote)
  }

  ghost predicate PairConvicts(digests: seq<string>, byDigest: map<string, Vote>, i: int, j: int) {
    0 <= i < j < |digests| && digests[i] in byDigest && digests[j] in byDigest
    && Convicts(byDigest[digests[i]], byDigest[digests[j]])
  }

  ghost predicate PairHeldBy(digests: seq<string>, byDigest: map<string, Vote>, holders: map<string, set<string>>,
                             i: int, j: int, o: string) {
    && PairConvicts(digests, byDigest, i, j)
    && digests[i] in holders && digests[j] in holders
    && o in holders[digests[i]] + holders[digests[j]]
  }

  /** All pairs of one group: does any convict, and who holds the votes that do. */
  method ScanGroup(digests: seq<string>, byDigest: map<string, Vote>, holders: map<string, set<string>>)
    returns (convicted: bool, held: set<string>)
    requires forall d :: d in digests ==> d in byDigest && d in holders
    ensures convicted <==> exists i, j :: PairConvicts(digests, byDigest, i, j)
    ensures forall o :: o in held <==> exists i, j :: PairHeldBy(digests, byDigest, holders, i, j, o)
  {
    convicted, held := false, {};
    for i := 0 to |digests|
      invariant convicted <==> exists k, l :: k < i && PairConvicts(digests, byDigest, k, l)
      invariant forall o :: o in held <==> exists k, l :: k < i && PairHeldBy(digests, byDigest, holders, k, l, o)
    {
      var found, who := ScanRow(digests, byDigest, holders, i);
      convicted := convicted || found;
      held := held + who;
    }
  }

  /** The pairs of one vote with the later ones of its group. */
  method ScanRow(digests: seq<string>, byDigest: map<string, Vote>, holders: map<string, set<string>>, i: nat)
    returns (convicted: bool, held: set<string>)
    requires i < |digests| && forall d :: d in digests ==> d in byDigest && d in holders
    ensures convicted <==> exists j :: PairConvicts(digests, byDigest, i, j)
    ensures forall o :: o in held <==> exists j :: PairHeldBy(digests, byDigest, holders, i, j, o)
  {
    convicted, held := false, {};
    for j := i + 1 to |digests|
      invariant convicted <==> exists l :: l < j && PairConvicts(digests, byDigest, i, l)
      invariant forall o :: o in held <==> exists l :: l < j && PairHeldBy(digests, byDigest, holders, i, l, o)
    {
      assert Convicts(byDigest[digests[i]], byDigest[digests[j]]) <==> PairConvicts(digests, byDigest, i, j);
      assert forall o :: PairHeldBy(digests, byDigest, holders, i, j, o) <==>
               PairConvicts(digests, byDigest, i, j) && o in holders[digests[i]] + holders[digests[j]];
      if Convicts(byDigest[digests[i]], byDigest[digests[j]]) {
        convicted := true;
        held := held + (holders[digests[i]] + holders[digests[j]]);
      }
    }
  }

  /** Two convicting votes of a slot are a pair of its group. */
  lemma PlacesOf(entries: seq<Entry>, slot: Slot, e: Entry, f: Entry) returns (i: nat, j: nat)
    requires CollisionFree(entries) && e in entries && f in entries
    requires SlotOf(e.vote) == Some(slot) && Convicts(e.vote, f.vote)
    ensures var g := GroupsOf(entries);
            slot in g.digests && PairConvicts(g.digests[slot], g.byDigest, i, j)
            && (g.digests[slot][i] == e.vote.digest || g.digests[slot][j] == e.vote.digest)
  {
    var g := GroupsOf(entries);
    ListedPair(entries, slot, e);
    ListedPair(entries, slot, f);
    var ds := g.digests[slot];
    var m :| 0 <= m < |ds| && ds[m] == e.vote.digest;
    var n :| 0 <= n < |ds| && ds[n] == f.vote.digest;
    i, j := if m < n then m else n, if m < n then n else m;
  }

  /** The grouped scan of one slot finds exactly what comparing all pairs of votes would. */
  lemma GroupScanIsAllPairs(entries: seq<Entry>, slot: Slot)
    requires CollisionFree(entries) && slot in GroupsOf(entries).digests
    ensures var g := GroupsOf(entries);
            (exists i, j :: PairConvicts(g.digests[slot], g.byDigest, i, j)) <==> SlotConvicts(entries, slot)
  {
    var g := GroupsOf(entries);
    var ds := g.digests[slot];
    if SlotConvicts(entries, slot) {
      var e, f :| e in entries && f in entries && SlotOf(e.vote) == Some(slot) && Convicts(e.vote, f.vote);
      var _, _ := PlacesOf(entries, slot, e, f);
    }
    if i, j :| PairConvicts(ds, g.byDigest, i, j) {
      var e := ListedVote(entries, slot, ds[i]);
      var f := ListedVote(entries, slot, ds[j]);
      assert Convicts(e.vote, f.vote);
    }
  }

  lemma ListedPair(entries: seq<Entry>, slot: Slot, e: Entry)
    requires CollisionFree(entries) && e in entries && SlotOf(e.vote) == Some(slot)
    ensures Listed(GroupsOf(entries), slot, e.vote.digest)
    ensures e.vote.digest in GroupsOf(entries).byDigest && GroupsOf(entries).byDigest[e.vote.digest] == e.vote
  {
    DigestsMean(entries, slot, e.vote.digest);
    ByDigestMeans(entries, e);
  }

  lemma ListedVote(entries: seq<Entry>, slot: Slot, digest: string) returns (e: Entry)
    requires CollisionFree(entries) && Listed(GroupsOf(entries), slot, digest)
    ensures e in entries && SlotOf(e.vote) == Some(slot) && e.vote.digest == digest
    ensures digest in GroupsOf(entries).byDigest && GroupsOf(entries).byDigest[digest] == e.vote
    ensures digest in GroupsOf(entries).holders
  {
    DigestsMean(entries, slot, digest);
    e :| e in entries && SlotOf(e.vote) == Some(slot) && e.vote.digest == digest;
    ByDigestMeans(entries, e);
    HoldersMean(entries, digest, e.domain);
  }

  /** A group convicts if and only if some vote of it differs from the first in value or
      proposal hash; re-signed copies of one statement never convict. */
  lemma GroupConvictsIffSomeVoteDiffers(entries: seq<Entry>, slot: Slot, first: Entry)
    requires first in entries && SlotOf(first.vote) == Some(slot)
    ensures SlotConvicts(entries, slot) <==>
              exists e :: e in entries && SlotOf(e.vote) == Some(slot)
                && (e.vote.value != first.vote.value || e.vote.proposalHash != first.vote.proposalHash)
  {
    if e, f :| e in entries && f in entries && SlotOf(e.vote) == Some(slot) && Convicts(e.vote, f.vote) {
      assert (e.vote.value != first.vote.value || e.vote.proposalHash != first.vote.proposalHash)
          || (f.vote.value != first.vote.value || f.vote.proposalHash != first.vote.proposalHash);
    }
    if e :| e in entries && SlotOf(e.vote) == Some(slot)
            && (e.vote.value != first.vote.value || e.vote.proposalHash != first.vote.proposalHash) {
      assert Convicts(first.vote, e.vote);
    }
  }

  ghost function ReportedBy(entries: seq<Entry>, announced: set<(string, string)>, order: seq<Slot>)
    : set<(string, string)>
  {
    if order == [] then {}
    else
      var k := |order| - 1;
      var pair := (order[k].round, order[k].actor);
      ReportedBy(entries, announced, order[..k])
      + if pair !in announced && SlotConvicts(entries, order[k]) then {pair} else {}
  }

  /** The domains holding one of two convicting votes of a slot. */
  ghost function HoldersIn(entries: seq<Entry>, slot: Slot): set<string> {
    set e, f | e in entries && f in entries && SlotOf(e.vote) == Some(slot) && Convicts(e.vote, f.vote) :: e.domain
  }

  /** One finding per holder of the first convicting slot of each unannounced (round, actor). */
  ghost function FindingsBy(entries: seq<Entry>, announced: set<(string, string)>, order: seq<Slot>): set<Finding> {
    if order == [] then {}
    else FindingsBy(entries, announced, order[..|order|-1]) + LastFindings(entries, announced, order)
  }

  ghost function LastFindings(entries: seq<Entry>, announced: set<(string, string)>, order: seq<Slot>): set<Finding>
    requires order != []
  {
    var k := |order| - 1;
    var pair := (order[k].round, order[k].actor);
    if pair in announced || pair in ReportedBy(entries, announced, order[..k]) then {}
    else FindingsFor(order[k], HoldersIn(entries, order[k]))
  }

  /** The joint-replay scan.  It reports a (round, actor) pair exactly when two votes somewhere
      in the merged pool convict that actor in that round and no announced proof names it. */
  method EquivocationScan(entries: seq<Entry>, proofs: seq<Proof>)
    returns (reported: set<(string, string)>, findings: set<Finding>)
    requires CollisionFree(entries)
    ensures reported == Concealed(entries, Announced(proofs))
    ensures findings == FindingsBy(entries, Announced(proofs), GroupsOf(entries).order)
  {
    var announced := Announced(proofs);
    var g := GroupVotes(entries);
    reported, findings := {}, {};
    for k := 0 to |g.order|
      invariant reported == ReportedBy(entries, announced, g.order[..k])
      invariant findings == FindingsBy(entries, announced, g.order[..k])
    {
      var slot := g.order[k];
      var pair := (slot.round, slot.actor);
      ReportedStep(entries, announced, g.order, k);
      if pair in announced || pair in reported {
        continue;
      }
      SlotsMean(entries, slot);
      var convicted, held := ScanOneSlot(entries, g, slot);
      if !convicted {
        continue;
      }
      reported := reported + {pair};
      findings := findings + FindingsFor(slot, held);
    }
    assert g.order[..|g.order|] == g.order;
    ReportedIsConcealed(entries, announced, g.order);
  }

  function FindingsFor(slot: Slot, held: set<string>): set<Finding> {
    set o | o in held :: Finding(o, slot.round, slot.actor)
  }

  lemma ReportedStep(entries: seq<Entry>, announced: set<(string, string)>, order: seq<Slot>, k: nat)
    requires k < |order|
    ensures var pair := (order[k].round, order[k].actor);
            var before := ReportedBy(entries, announced, order[..k]);
            var after := ReportedBy(entries, announced, order[..k+1]);
            && (pair in announced || pair in before || !SlotConvicts(entries, order[k]) ==> after == before)
            && (pair !in announced && SlotConvicts(entries, order[k]) ==> after == before + {pair})
    ensures var pair := (order[k].round, order[k].actor);
            var before := FindingsBy(entries, announced, order[..k]);
            var after := FindingsBy(entries, announced, order[..k+1]);
            if pair in announced || pair in ReportedBy(entries, announced, order[..k])
                || !SlotConvicts(entries, order[k])
            then after == before
            else after == before + FindingsFor(order[k], HoldersIn(entries, order[k]))
  {
    assert order[..k+1][..k] == order[..k];
    if !SlotConvicts(entries, order[k]) {
      assert HoldersIn(entries, order[k]) == {};
      assert FindingsFor(order[k], {}) == {};
    }
  }

  method ScanOneSlot(ghost entries: seq<Entry>, g: Groups, slot: Slot) returns (convicted: bool, held: set<string>)
    requires CollisionFree(entries) && g == GroupsOf(entries) && slot in g.digests
    ensures convicted <==> SlotConvicts(entries, slot)
    ensures held == HoldersIn(entries, slot)
  {
    var ds := g.digests[slot];
    forall d | d in ds ensures d in g.byDigest && d in g.holders {
      var e := ListedVote(entries, slot, d);
    }
    convicted, held := ScanGroup(ds, g.byDigest, g.holders);
    GroupScanIsAllPairs(entries, slot);
    forall o ensures o in held <==> o in HoldersIn(entries, slot) {
      PairsHoldExactly(entries, slot, o);
    }
  }

  /** A domain holds a vote of some convicting pair of the group exactly when it holds one of two
      convicting votes of the slot. */
  lemma PairsHoldExactly(entries: seq<Entry>, slot: Slot, o: string)
    requires CollisionFree(entries) && slot in GroupsOf(entries).digests
    ensures var g := GroupsOf(entries);
            (exists i, j :: PairHeldBy(g.digests[slot], g.byDigest, g.holders, i, j, o))
                <==> o in HoldersIn(entries, slot)
  {
    var g := GroupsOf(entries);
    var ds := g.digests[slot];
    if i, j :| PairHeldBy(ds, g.byDigest, g.holders, i, j, o) {
      HolderOfPair(entries, slot, ds[i], ds[j], o);
      HolderOfPair(entries, slot, ds[j], ds[i], o);
    }
    if o in HoldersIn(entries, slot) {
      PairOfHolder(entries, slot, o);
    }
  }

  lemma PairOfHolder(entries: seq<Entry>, slot: Slot, o: string)
    requires CollisionFree(entries) && slot in GroupsOf(entries).digests && o in HoldersIn(entries, slot)
    ensures var g := GroupsOf(entries);
            exists i, j :: PairHeldBy(g.digests[slot], g.byDigest, g.holders, i, j, o)
  {
    var g := GroupsOf(entries);
    var e, f :| e in entries && f in entries && SlotOf(e.vote) == Some(slot) && Convicts(e.vote, f.vote)
        && e.domain == o;
    HoldersMean(entries, e.vote.digest, o);
    var i, j := PlacesOf(entries, slot, e, f);
    var _ := ListedVote(entries, slot, g.digests[slot][i]);
    var _ := ListedVote(entries, slot, g.digests[slot][j]);
    assert PairHeldBy(g.digests[slot], g.byDigest, g.holders, i, j, o);
  }

  lemma HolderOfPair(entries: seq<Entry>, slot: Slot, d: string, d': string, o: string)
    requires CollisionFree(entries)
    requires Listed(GroupsOf(entries), slot, d) && Listed(GroupsOf(entries), slot, d')
    ensures var g := GroupsOf(entries);
            d in g.byDigest && d' in g.byDigest
            && (Held(g, d, o) && Convicts(g.byDigest[d], g.byDigest[d']) ==> o in HoldersIn(entries, slot))
  {
    var e := ListedVote(entries, slot, d);
    var f := ListedVote(entries, slot, d');
    HoldersMean(entries, d, o);
    if Held(GroupsOf(entries), d, o) {
      var h :| h in entries && SlotOf(h.vote).Some? && h.vote.digest == d && h.domain == o;
      assert h.vote == e.vote;
    }
  }

  lemma {:induction false} ReportedByMeans(entries: seq<Entry>, announced: set<(string, string)>, order: seq<Slot>,
                                           r: (string, string))
    ensures r in ReportedBy(entries, announced, order) <==>
              r !in announced && exists s: Slot :: s in order && SlotConvicts(entries, s) && r == (s.round, s.actor)
  {
    if order != [] {
      ReportedByMeans(entries, announced, order[..|order|-1], r);
      assert order == order[..|order|-1] + [order[|order|-1]];
    }
  }

  lemma ReportedIsConcealed(entries: seq<Entry>, announced: set<(string, string)>, order: seq<Slot>)
    requires order == GroupsOf(entries).order
    ensures ReportedBy(entries, announced, order) == Concealed(entries, announced)
  {
    forall r ensures r in ReportedBy(entries, announced, order) <==> r in Concealed(entries, announced) {
      ReportedByMeans(entries, announced, order, r);
      if r in Concealed(entries, announced) {
        var e, f :| e in entries && f in entries && Convicts(e.vote, f.vote)
                    && r == (SlotOf(e.vote).value.round, SlotOf(e.vote).value.actor) && r !in announced;
        SlotsMean(entries, SlotOf(e.vote).value);
      }
    }
  }

  /** Position `i` holds the first convicting slot of its (round, actor). */
  ghost predicate FirstConvicting(entries: seq<Entry>, order: seq<Slot>, i: nat) {
    && i < |order| && SlotConvicts(entries, order[i])
    && forall j :: 0 <= j < i && SlotConvicts(entries, order[j])
         ==> (order[j].round, order[j].actor) != (order[i].round, order[i].actor)
  }

  ghost predicate NamedBy(entries: seq<Entry>, order: seq<Slot>, i: nat, f: Finding) {
    && FirstConvicting(entries, order, i)
    && order[i].round == f.round && order[i].actor == f.actor && f.domain in HoldersIn(entries, order[i])
  }

  lemma NamedByPrefix(entries: seq<Entry>, order: seq<Slot>, i: nat, f: Finding)
    requires i < |order| - 1
    ensures NamedBy(entries, order, i, f) <==> NamedBy(entries, order[..|order|-1], i, f)
  {
    assert forall j :: 0 <= j <= i ==> order[..|order|-1][j] == order[j];
  }

  lemma NamedByLast(entries: seq<Entry>, announced: set<(string, string)>, order: seq<Slot>, f: Finding)
    requires order != []
    ensures f in LastFindings(entries, announced, order) <==>
              (f.round, f.actor) !in announced && NamedBy(entries, order, |order| - 1, f)
  {
    var k := |order| - 1;
    ReportedByMeans(entries, announced, order[..k], (order[k].round, order[k].actor));
    assert forall j :: 0 <= j < k ==> order[..k][j] == order[j];
    if f.domain in HoldersIn(entries, order[k]) {
      assert SlotConvicts(entries, order[k]);
    }
  }

  ghost predicate Named(entries: seq<Entry>, order: seq<Slot>, f: Finding) {
    exists i: nat :: NamedBy(entries, order, i, f)
  }

  lemma NamedSnoc(entries: seq<Entry>, order: seq<Slot>, f: Finding)
    requires order != []
    ensures Named(entries, order, f) <==>
              Named(entries, order[..|order|-1], f) || NamedBy(entries, order, |order| - 1, f)
  {
    if i: nat :| NamedBy(entries, order, i, f) && i < |order| - 1 {
      NamedByPrefix(entries, order, i, f);
    }
    var front := order[..|order|-1];
    if i: nat :| NamedBy(entries, front, i, f) {
      NamedByPrefix(entries, order, i, f);
    }
  }

  /** Who is named: every holder of the first convicting slot of each concealed pair, and no
      holder of a later slot of the same pair only. */
  lemma {:induction false} FindingsNameFirstHolders(entries: seq<Entry>, announced: set<(string, string)>,
                                                    order: seq<Slot>, f: Finding)
    ensures f in FindingsBy(entries, announced, order) <==> (f.round, f.actor) !in announced && Named(entries, order, f)
  {
    if order != [] {
      FindingsNameFirstHolders(entries, announced, order[..|order|-1], f);
      NamedByLast(entries, announced, order, f);
      NamedSnoc(entries, order, f);
    }
  }

  lemma {:induction false} FirstSlotFirst(entries: seq<Entry>)
    requires entries != [] && SlotOf(entries[0].vote).Some?
    ensures GroupsOf(entries).order != [] && GroupsOf(entries).order[0] == SlotOf(entries[0].vote).value
  {
    var k := |entries| - 1;
    SlotsMean(entries[..k], SlotOf(entries[0].vote).value);
    if k > 0 {
      FirstSlotFirst(entries[..k]);
    }
  }

  /** When the slot of the first vote of all convicts, only its holders are named for its
      (round, actor), whoever holds convicting votes of a later slot. */
  lemma OnlyFirstHoldersNamed(entries: seq<Entry>, announced: set<(string, string)>, first: Slot, o: string)
    requires entries != [] && SlotOf(entries[0].vote) == Some(first) && SlotConvicts(entries, first)
    requires forall e :: e in entries && SlotOf(e.vote) == Some(first) ==> e.domain != o
    ensures Finding(o, first.round, first.actor) !in FindingsBy(entries, announced, GroupsOf(entries).order)
  {
    var order := GroupsOf(entries).order;
    var f := Finding(o, first.round, first.actor);
    FirstSlotFirst(entries);
    FindingsNameFirstHolders(entries, announced, order, f);
    if Named(entries, order, f) {
      var i: nat :| NamedBy(entries, order, i, f);
      FirstIsOnly(entries, order, i, f);
    }
  }

  lemma FirstIsOnly(entries: seq<Entry>, order: seq<Slot>, i: nat, f: Finding)
    requires order != [] && SlotConvicts(entries, order[0]) && NamedBy(entries, order, i, f)
    requires order[0].round == f.round && order[0].actor == f.actor
    ensures i == 0 && f.domain in HoldersIn(entries, order[0])
  {
  }

  function VoteOf(seqNo: int, value: string, digest: string): Vote {
    Vote(Some("a"), Some("r"), Some("p"), IntVal(seqNo), value, None, digest)
  }

  lemma TwoConvict(entries: seq<Entry>, e: Entry, f: Entry, slot: Slot)
    requires e in entries && f in entries && SlotOf(e.vote) == Some(slot) && Convicts(e.vote, f.vote)
    ensures SlotConvicts(entries, slot) && e.domain in HoldersIn(entries, slot)
  {
  }

  lemma FourEntries(one: Entry, two: Entry, three: Entry, four: Entry) returns (entries: seq<Entry>)
    requires one.vote.digest == "1" && two.vote.digest == "2" && three.vote.digest == "3" && four.vote.digest == "4"
    ensures CollisionFree(entries) && entries != [] && entries[0] == one
    ensures one in entries && two in entries && three in entries && four in entries
    ensures forall e :: e in entries ==> e == one || e == two || e == three || e == four
  {
    entries := [one, two, three, four];
    assert forall e :: e in entries ==> e == one || e == two || e == three || e == four;
  }

  /** Two convicting slots, the first held by one domain only, the second by another. */
  lemma TwoSlots(one: Entry, two: Entry, three: Entry, four: Entry, first: Slot, slot: Slot)
    returns (entries: seq<Entry>)
    requires one.vote.digest == "1" && two.vote.digest == "2" && three.vote.digest == "3" && four.vote.digest == "4"
    requires SlotOf(one.vote) == Some(first) && Convicts(one.vote, two.vote)
    requires SlotOf(three.vote) == SlotOf(four.vote) == Some(slot) && slot != first && Convicts(three.vote, four.vote)
    requires one.domain != three.domain && two.domain != three.domain
    ensures CollisionFree(entries) && SlotConvicts(entries, slot) && three.domain in HoldersIn(entries, slot)
    ensures entries != [] && entries[0] == one && SlotConvicts(entries, first)
    ensures forall e :: e in entries && SlotOf(e.vote) == Some(first) ==> e.domain != three.domain
  {
    entries := FourEntries(one, two, three, four);
    TwoConvict(entries, one, two, first);
    TwoConvict(entries, three, four, slot);
  }

  /** A domain that holds a concealed conviction of a later slot only goes unnamed. */
  lemma LaterHolderGoesUnnamed() returns (entries: seq<Entry>, slot: Slot)
    ensures CollisionFree(entries) && SlotConvicts(entries, slot) && "later" in HoldersIn(entries, slot)
    ensures Finding("later", slot.round, slot.actor) !in FindingsBy(entries, {}, GroupsOf(entries).order)
  {
    var one, two := Entry("first", VoteOf(1, "yes", "1")), Entry("first", VoteOf(1, "no", "2"));
    var three, four := Entry("later", VoteOf(2, "yes", "3")), Entry("later", VoteOf(2, "no", "4"));
    var first := Slot("a", "r", "p", 1);
    slot := Slot("a", "r", "p", 2);
    entries := TwoSlots(one, two, three, four, first, slot);
    OnlyFirstHoldersNamed(entries, {}, first, "later");
  }
}
