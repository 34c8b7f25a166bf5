/** What a round's arithmetic says of the proposal's, the votes' and the record's own fields. */
module RoundMeaning {
  import opened Prelude
  import opened Ordering
  import opened Sums
  import opened Round

  // ---- the bar

  /** An explicit threshold that counts: a positive integer, or a float of that value. */
  predicate Declares(threshold: Scalar, n: int) {
    n >= 1 && (threshold == IntVal(n) || threshold == FloatVal(n as real))
  }

  /** The rule sets a bar at all. */
  ghost predicate SetsBar(r: Rule) {
    || r.form == "majority-of-total"
    || r.form == "two-thirds-of-total"
    || (r.form == "explicit" && exists n :: Declares(r.threshold, n))
  }

  /** A weight that meets the rule for a pinned total: more than a half, more than two thirds, or no
      less than the declared number. */
  ghost predicate Meets(r: Rule, total: int, weight: int) {
    || (r.form == "majority-of-total" && 2 * weight > total)
    || (r.form == "two-thirds-of-total" && 3 * weight > 2 * total)
    || (r.form == "explicit" && exists n :: Declares(r.threshold, n) && weight >= n)
  }

  lemma DeclaredOnce(threshold: Scalar, m: int, n: int)
    requires Declares(threshold, m) && Declares(threshold, n)
    ensures m == n
  {
    if threshold.FloatVal? {
      assert threshold.r.Floor == m && threshold.r.Floor == n;
    }
  }

  lemma BarMeans(r: Rule, total: int, weight: int)
    ensures BarOf(Some(r), total).Some? <==> SetsBar(r)
    ensures BarOf(Some(r), total).Some? ==> (weight >= BarOf(Some(r), total).value <==> Meets(r, total, weight))
  {
    if r.form == "explicit" {
      var bar := BarOf(Some(r), total);
      if bar.Some? {
        assert Declares(r.threshold, bar.value);
        forall n | Declares(r.threshold, n) ensures n == bar.value {
          DeclaredOnce(r.threshold, n, bar.value);
        }
      }
      if n :| Declares(r.threshold, n) {
        assert r.threshold.FloatVal? ==> r.threshold.r.Floor == n;
        assert WholeNumber(r.threshold) == Some(n);
      }
    }
  }

  /** Who is pinned: the listed voters, or without a list everyone with a declared weight. */
  ghost predicate IsPinned(p: Proposal, v: string) {
    if p.voters == [] then v in p.weights else v in p.voters
  }

  /** What an option holds clears the bar exactly when it meets the pinned rule. */
  lemma ClearsMeans(p: Proposal, tally: map<string, int>, option: string)
    ensures Clears(p, tally, option) <==>
              p.rule.Some? && SetsBar(p.rule.value) && Meets(p.rule.value, Total(p.weights), At(tally, option))
  {
    if p.rule.Some? {
      BarMeans(p.rule.value, Total(p.weights), At(tally, option));
    }
  }

  /** Everyone a proposal names, as a voter or by a weight. */
  function Named(p: Proposal): set<string> {
    p.weights.Keys + set v | v in p.voters
  }

  /** The weight of the pinned voters that have neither a counted vote nor a proof against them. */
  ghost function StillOut(p: Proposal, counted: set<string>, convicted: set<string>): int {
    var out := set v | v in Named(p) && IsPinned(p, v) && v !in counted && v !in convicted;
    SumOver(out, p.weights)
  }

  lemma StillOutIsReserve(p: Proposal, counted: set<string>, convicted: set<string>)
    ensures StillOut(p, counted, convicted) == Reserve(p, counted, convicted)
  {
    assert (set v | v in Named(p) && IsPinned(p, v) && v !in counted && v !in convicted)
        == Undecided(p, counted, convicted);
  }

  /** A round is doomed exactly when its rule sets a bar, it has options, and no option would meet
      the rule with all the weight that is still out. */
  lemma DoomedMeans(p: Proposal, tally: map<string, int>, counted: set<string>, convicted: set<string>)
    ensures Doomed(p, tally, counted, convicted) <==>
              && p.rule.Some? && SetsBar(p.rule.value) && p.options != []
              && forall o :: o in p.options ==>
                   !Meets(p.rule.value, Total(p.weights), At(tally, o) + StillOut(p, counted, convicted))
  {
    StillOutIsReserve(p, counted, convicted);
    if p.rule.Some? {
      forall o | o in p.options
        ensures ThresholdOf(p.rule, p.weights).Some? ==>
                  (At(tally, o) + Reserve(p, counted, convicted) >= ThresholdOf(p.rule, p.weights).value
                   <==> Meets(p.rule.value, Total(p.weights), At(tally, o) + StillOut(p, counted, convicted)))
      {
        BarMeans(p.rule.value, Total(p.weights), At(tally, o) + Reserve(p, counted, convicted));
      }
      BarMeans(p.rule.value, Total(p.weights), 0);
    }
  }

  /** `threshold-not-met` is justified exactly when there is no bar to meet, no option meets it, or
      abstention outweighs every option. */
  lemma NotMetMeans(p: Proposal, tally: map<string, int>)
    requires "abstain" !in p.options
    ensures ThresholdNotMet(p, tally) <==>
              || p.rule.None? || !SetsBar(p.rule.value)
              || (forall o :: o in p.options ==> !Meets(p.rule.value, Total(p.weights), At(tally, o)))
              || (forall o :: o in p.options ==> At(tally, o) < At(tally, "abstain"))
  {
    ThresholdNotMetMeans(p, tally);
    forall o ensures Clears(p, tally, o) <==>
                       p.rule.Some? && SetsBar(p.rule.value) && Meets(p.rule.value, Total(p.weights), At(tally, o)) {
      ClearsMeans(p, tally, o);
    }
  }

  /** An electorate is exhausted exactly when somebody was recused and either there is no rule and
      no voter, or the whole pinned weight fails the bar the rule sets. */
  lemma ExhaustedMeans(p: Proposal)
    ensures ElectorateExhausted(p) <==>
              && (exists e :: e in p.excluded && e.status == "recused")
              && (if p.rule.None? then p.voters == []
                  else SetsBar(p.rule.value) && !Meets(p.rule.value, Total(p.weights), Total(p.weights)))
  {
    if p.rule.Some? {
      BarMeans(p.rule.value, Total(p.weights), Total(p.weights));
    }
  }

  /** Under an explicit rule for `n`, written as an integer or as a float, the number itself is the bar. */
  lemma ExplicitBarIsTheNumber(p: Proposal, n: int, tally: map<string, int>, counted: set<string>,
                               convicted: set<string>, option: string)
    requires p.rule.Some? && p.rule.value.form == "explicit" && n >= 1
    requires p.rule.value.threshold == IntVal(n) || p.rule.value.threshold == FloatVal(n as real)
    ensures Clears(p, tally, option) <==> At(tally, option) >= n
    ensures Doomed(p, tally, counted, convicted) <==>
              p.options != [] && forall o :: o in p.options ==> At(tally, o) + Reserve(p, counted, convicted) < n
  {
    assert Declares(p.rule.value.threshold, n);
    forall m | Declares(p.rule.value.threshold, m) ensures m == n {
      DeclaredOnce(p.rule.value.threshold, m, n);
    }
    ClearsMeans(p, tally, option);
    DoomedMeans(p, tally, counted, convicted);
    StillOutIsReserve(p, counted, convicted);
  }

  /** Without a bar nothing clears and nothing is doomed: no rule, an unknown form, or an explicit
      threshold that is a boolean, missing, a fraction or below one. */
  lemma NoBarDecidesNothing(p: Proposal, tally: map<string, int>, counted: set<string>, convicted: set<string>,
                            option: string)
    requires p.rule.Some? ==>
               var r := p.rule.value;
               && r.form != "majority-of-total" && r.form != "two-thirds-of-total"
               && (r.form == "explicit" ==>
                     match r.threshold
                     case IntVal(n) => n < 1
                     case FloatVal(x) => x < 1.0 || x.Floor as real != x
                     case _ => true)
    ensures !Clears(p, tally, option) && !Doomed(p, tally, counted, convicted)
  {
    if p.rule.Some? {
      assert !SetsBar(p.rule.value);
    }
    ClearsMeans(p, tally, option);
    DoomedMeans(p, tally, counted, convicted);
  }

  // ---- the tally

  /** The weight a ballot puts behind an option. */
  function Behind(w: map<string, int>, option: string): Ballot -> int {
    (b: Ballot) => if b.value == option then if b.actor in w then w[b.actor] else 0 else 0
  }

  /** An option holds the weights of the ballots for it, every ballot counting. */
  lemma {:induction false} TallyIsSum(w: map<string, int>, ballots: seq<Ballot>, option: string)
    ensures At(TallyOf(w, ballots), option) == SumBy(Behind(w, option), ballots)
  {
    if ballots != [] {
      TallyIsSum(w, ballots[..|ballots|-1], option);
    }
  }

  /** Only `abstain` differs once the silent seats are in: by the weight of the pinned voters that
      cast nothing. */
  lemma FinalTallyMeans(p: Proposal, ballots: seq<Ballot>, option: string)
    ensures At(FinalTally(p, ballots), option)
         == SumBy(Behind(p.weights, option), ballots)
            + if option == "abstain" then StillOut(p, VotersOf(ballots), {}) else 0
  {
    TallyIsSum(p.weights, ballots, option);
    StillOutIsReserve(p, VotersOf(ballots), {});
    assert Undecided(p, VotersOf(ballots), {}) == p.Pinned() - VotersOf(ballots);
  }

  function IsMissing(votes: map<string, Ballot>): string -> bool {
    (h: string) => h !in votes
  }

  function IsUnsigned(votes: map<string, Ballot>, received: set<string>): string -> bool {
    (h: string) => h in votes && !votes[h].signed && h !in received
  }

  ghost function IsOutside(p: Proposal, votes: map<string, Ballot>, received: set<string>): string -> bool {
    (h: string) => h in votes && (votes[h].signed || h in received) && !IsPinned(p, votes[h].actor)
  }

  ghost function IsLateOne(p: Proposal, votes: map<string, Ballot>, received: set<string>): string -> bool {
    (h: string) => h in votes && (votes[h].signed || h in received) && IsPinned(p, votes[h].actor)
                   && p.deadline.Some? && p.deadline.value < votes[h].published
  }

  lemma JudgeMeans(p: Proposal, votes: map<string, Ballot>, received: set<string>, h: string)
    ensures var verdict := Judge(p, votes, received, h);
            && (verdict.Missing? <==> IsMissing(votes)(h))
            && (verdict.Unsigned? <==> IsUnsigned(votes, received)(h))
            && (verdict.Outside? <==> IsOutside(p, votes, received)(h))
            && (verdict.Counted? && IsLate(p, verdict.ballot) <==> IsLateOne(p, votes, received)(h))
  {
  }

  /** Each finding lists exactly the hashes it is about, in the record's order. */
  lemma {:induction false} FindingsMean(p: Proposal, votes: map<string, Ballot>, received: set<string>,
                                        hashes: seq<string>)
    ensures var r := RecountOf(p, votes, received, hashes);
            && r.missing == Filter(IsMissing(votes), hashes)
            && r.unsigned == Filter(IsUnsigned(votes, received), hashes)
            && r.outside == Filter(IsOutside(p, votes, received), hashes)
            && r.late == Filter(IsLateOne(p, votes, received), hashes)
  {
    if hashes != [] {
      FindingsMean(p, votes, received, hashes[..|hashes|-1]);
      JudgeMeans(p, votes, received, hashes[|hashes|-1]);
    }
  }

  ghost function IsCounted(p: Proposal, votes: map<string, Ballot>, received: set<string>): string -> bool {
    (h: string) => h in votes && (votes[h].signed || h in received) && IsPinned(p, votes[h].actor)
  }

  /** The weight the vote behind a hash puts behind an option. */
  function BehindHash(w: map<string, int>, votes: map<string, Ballot>, option: string): string -> int {
    (h: string) =>
      if h in votes && votes[h].value == option && votes[h].actor in w then w[votes[h].actor] else 0
  }

  lemma {:induction false} CountedSum(p: Proposal, votes: map<string, Ballot>, received: set<string>,
                                      hashes: seq<string>, option: string)
    ensures SumBy(Behind(p.weights, option), CountedBallots(p, votes, received, hashes))
         == SumBy(BehindHash(p.weights, votes, option), Filter(IsCounted(p, votes, received), hashes))
  {
    if hashes != [] {
      var k := |hashes| - 1;
      CountedSum(p, votes, received, hashes[..k], option);
      CountedSnoc(p, votes, received, hashes);
      var before := CountedBallots(p, votes, received, hashes[..k]);
      var kept := Filter(IsCounted(p, votes, received), hashes[..k]);
      var verdict := Judge(p, votes, received, hashes[k]);
      CountedBehind(p, votes, received, hashes[k], option);
      if verdict.Counted? {
        SumOneMore(Behind(p.weights, option), before, verdict.ballot);
        SumOneMore(BehindHash(p.weights, votes, option), kept, hashes[k]);
      } else {
        assert Filter(IsCounted(p, votes, received), hashes) == kept;
      }
    }
  }

  lemma CountedBehind(p: Proposal, votes: map<string, Ballot>, received: set<string>, h: string, option: string)
    ensures var verdict := Judge(p, votes, received, h);
            && (verdict.Counted? <==> IsCounted(p, votes, received)(h))
            && (verdict.Counted? ==>
                  Behind(p.weights, option)(verdict.ballot) == BehindHash(p.weights, votes, option)(h))
  {
  }

  lemma SumOneMore<T>(f: T -> int, s: seq<T>, x: T)
    ensures SumBy(f, s + [x]) == SumBy(f, s) + f(x)
  {
    assert (s + [x])[..|s|] == s;
  }

  /** The recomputed tally gives an option the weights of exactly the hashes that resolve to a vote
      for it by a pinned voter, signed or received. */
  lemma RecountedTallyMeans(p: Proposal, votes: map<string, Ballot>, received: set<string>, hashes: seq<string>,
                            option: string)
    ensures At(RecountOf(p, votes, received, hashes).tally, option)
         == SumBy(BehindHash(p.weights, votes, option), Filter(IsCounted(p, votes, received), hashes))
  {
    RecountTally(p, votes, received, hashes);
    TallyIsSum(p.weights, CountedBallots(p, votes, received, hashes), option);
    CountedSum(p, votes, received, hashes, option);
  }

  // ---- the winner

  ghost predicate FirstGreatest(tally: map<string, int>, candidates: seq<string>, i: int, l: Standing) {
    && 0 <= i < |candidates| && l == Leads(candidates[i], At(tally, candidates[i]))
    && (forall j :: 0 <= j < i ==> At(tally, candidates[j]) < l.weight)
    && (forall j :: i <= j < |candidates| ==> At(tally, candidates[j]) <= l.weight)
  }

  /** The winner is the first of the greatest. */
  lemma {:induction false} LeaderIsFirst(tally: map<string, int>, candidates: seq<string>)
    requires candidates != []
    ensures var l := LeaderOf(tally, candidates);
            l.Leads? && exists i :: FirstGreatest(tally, candidates, i, l)
  {
    var k := |candidates| - 1;
    var front := candidates[..k];
    if k > 0 {
      LeaderIsFirst(tally, front);
      assert forall j :: 0 <= j < k ==> candidates[j] == front[j];
      var i :| FirstGreatest(tally, front, i, LeaderOf(tally, front));
      var l := LeaderOf(tally, candidates);
      assert FirstGreatest(tally, candidates, if l == LeaderOf(tally, front) then i else k, l);
    } else {
      assert FirstGreatest(tally, candidates, 0, LeaderOf(tally, candidates));
    }
  }
}
