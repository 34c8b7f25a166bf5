/** What equivocation says of the votes' and the proofs' own fields. */
module EquivocationMeaning {
  import opened Prelude
  import opened Equivocation

  /** Two votes of one actor in one round, phase and positive sequence number. */
  ghost predicate SamePlace(v: Vote, u: Vote) {
    && v.actor.Some? && v.actor == u.actor
    && v.round.Some? && v.round == u.round
    && v.phase.Some? && v.phase == u.phase
    && exists n :: n >= 1 && v.seqNo == IntVal(n) && u.seqNo == IntVal(n)
  }

  ghost predicate Contradict(v: Vote, u: Vote) {
    SamePlace(v, u) && (v.value != u.value || v.proposalHash != u.proposalHash)
  }

  /** Conviction is contradiction in one place. */
  lemma ConvictsMeans(v: Vote, u: Vote)
    ensures Convicts(v, u) <==> Contradict(v, u)
  {
    if Convicts(v, u) {
      assert v.seqNo == IntVal(v.seqNo.n) && u.seqNo == IntVal(v.seqNo.n);
    }
  }

  /** A proof on record for the round with two votes, one of them the actor's. */
  ghost predicate ProofNames(proofs: seq<Proof>, round: string, actor: string) {
    exists p :: p in proofs && p.round == Some(round) && |p.votes| == 2
                && (p.votes[0].actor == Some(actor) || p.votes[1].actor == Some(actor))
  }

  lemma NamedByProofMeans(proofs: seq<Proof>, round: string, actor: string)
    ensures actor in ConvictedIn(round, proofs) <==> ProofNames(proofs, round, actor)
    ensures (round, actor) in Announced(proofs) <==> ProofNames(proofs, round, actor)
  {
    if p :| p in proofs && p.round == Some(round) && |p.votes| == 2
            && (p.votes[0].actor == Some(actor) || p.votes[1].actor == Some(actor)) {
      assert p.votes[0] in p.votes && p.votes[1] in p.votes;
    }
  }

  /** What the scan reports: a (round, actor) pair exactly when no proof on record names it and two
      votes of that actor in that round, anywhere in the pool, contradict each other. */
  lemma ScanMeans(entries: seq<Entry>, proofs: seq<Proof>, round: string, actor: string)
    ensures (round, actor) in Concealed(entries, Announced(proofs)) <==>
              && !ProofNames(proofs, round, actor)
              && exists e, f :: e in entries && f in entries && Contradict(e.vote, f.vote)
                                && e.vote.actor == Some(actor) && e.vote.round == Some(round)
  {
    NamedByProofMeans(proofs, round, actor);
    forall v: Vote, u: Vote ensures Convicts(v, u) <==> Contradict(v, u) {
      ConvictsMeans(v, u);
    }
  }

  /** The domains a finding on a slot names hold one of two contradicting votes in that very place. */
  lemma HoldersMean(entries: seq<Entry>, slot: Slot, domain: string)
    ensures domain in HoldersIn(entries, slot) <==>
              exists e, f :: && e in entries && f in entries && e.domain == domain && Contradict(e.vote, f.vote)
                             && e.vote.actor == Some(slot.actor) && e.vote.round == Some(slot.round)
                             && e.vote.phase == Some(slot.phase) && e.vote.seqNo == IntVal(slot.seqNo)
  {
    forall v: Vote, u: Vote ensures Convicts(v, u) <==> Contradict(v, u) {
      ConvictsMeans(v, u);
    }
  }

  /** The votes of a place, in order of arrival: what the first `k` votes list comes first. */
  lemma {:induction false} SlotsInOrderOfArrival(entries: seq<Entry>, k: nat)
    requires k <= |entries|
    ensures GroupsOf(entries[..k]).order <= GroupsOf(entries).order
  {
    if k == |entries| {
      assert entries[..k] == entries;
    } else {
      var front := entries[..|entries|-1];
      assert front[..k] == entries[..k];
      SlotsInOrderOfArrival(front, k);
    }
  }

  // ---- succession

  /** The rotation starts after the proposer's first place, or with the first voter when the
      proposer is none. */
  lemma RotationStartsAfterProposer(voters: seq<string>, proposer: string, i: nat)
    requires i < |voters| && voters[i] == proposer && proposer !in voters[..i]
    ensures Rotated(voters, proposer) == voters[i + 1..] + voters[..i + 1]
  {
    assert StartAfter(voters, proposer) == i + 1;
  }

  lemma RotationWithoutProposer(voters: seq<string>, proposer: string)
    requires proposer !in voters
    ensures Rotated(voters, proposer) == voters
  {
  }
}
