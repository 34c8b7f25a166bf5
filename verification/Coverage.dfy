/** The `coverage` selection rule: a minimum set cover found by enumerating bit masks,
    with a deterministic tie-break. */
module Coverage {
  import opened Prelude
  import opened Ordering
  import opened Arithmetic

  /** A hex sha256, as `tie_break_digest` returns it. */
  type HexDigest = s: string | |s| == 64 witness seq(64, _ => '0')

  /** A revealed bid: its bidder, payload digest and declared confidence per domain. */
  datatype Bid = Bid(bidder: string, digest: string, coverage: map<string, int>)

  /** A bid with the announced domains it covers and its tie-break key. */
  datatype Entry = Entry(bid: Bid, covers: seq<string>, key: HexDigest)

  datatype Selection = Selection(performers: seq<string>, synthesizer: Option<string>, winning: seq<string>)

  const NOBODY := Selection([], None, [])

  predicate Eligible(bid: Bid, domain: string, minConfidence: int) {
    (if domain in bid.coverage then bid.coverage[domain] else 0) >= minConfidence
  }

  function EntryOf(bid: Bid, domains: seq<string>, minConfidence: int, key: string -> HexDigest): Entry {
    Entry(bid, Filter(d => Eligible(bid, d, minConfidence), domains), key(bid.bidder))
  }

  function EntriesOf(bids: seq<Bid>, domains: seq<string>, minConfidence: int, key: string -> HexDigest): seq<Entry> {
    seq(|bids|, i requires 0 <= i < |bids| => EntryOf(bids[i], domains, minConfidence, key))
  }

  // ---- subsets and masks

  /** `[entries[i] for i in range(len(entries)) if mask & (1 << i)]`. */
  function Subset(entries: seq<Entry>, mask: nat): seq<Entry> {
    if entries == [] then []
    else (if mask % 2 == 1 then [entries[0]] else []) + Subset(entries[1..], mask / 2)
  }

  /** The same subset, given as one choice per entry. */
  function Chosen(entries: seq<Entry>, choice: seq<bool>): seq<Entry>
    requires |choice| == |entries|
  {
    if entries == [] then []
    else (if choice[0] then [entries[0]] else []) + Chosen(entries[1..], choice[1..])
  }

  function MaskOf(choice: seq<bool>): nat {
    if choice == [] then 0 else (if choice[0] then 1 else 0) + 2 * MaskOf(choice[1..])
  }

  function ChoiceOf(n: nat, mask: nat): (c: seq<bool>)
    ensures |c| == n
  {
    if n == 0 then [] else [mask % 2 == 1] + ChoiceOf(n - 1, mask / 2)
  }

  /** Every choice is enumerated by some mask. */
  lemma {:induction false} MaskOfChoice(entries: seq<Entry>, choice: seq<bool>)
    requires |choice| == |entries|
    ensures Subset(entries, MaskOf(choice)) == Chosen(entries, choice)
    ensures MaskOf(choice) < Pow(2, |choice|)
    ensures Chosen(entries, choice) != [] ==> MaskOf(choice) > 0
  {
    if entries != [] {
      MaskOfChoice(entries[1..], choice[1..]);
      var rest := MaskOf(choice[1..]);
      assert MaskOf(choice) / 2 == rest;
    }
  }

  /** And every mask stands for a choice. */
  lemma {:induction false} ChoiceOfMask(entries: seq<Entry>, mask: nat)
    ensures Subset(entries, mask) == Chosen(entries, ChoiceOf(|entries|, mask))
  {
    if entries != [] {
      ChoiceOfMask(entries[1..], mask / 2);
      assert ChoiceOf(|entries|, mask)[1..] == ChoiceOf(|entries| - 1, mask / 2);
    }
  }

  // ---- the ranking of covering subsets

  function Covered(subset: seq<Entry>): set<string> {
    set e, d | e in subset && d in e.covers :: d
  }

  function Keys(subset: seq<Entry>): seq<string> {
    seq(|subset|, i requires 0 <= i < |subset| => subset[i].key)
  }

  function JoinedKeys(subset: seq<Entry>): string {
    Joined(Sort(StrLe, Keys(subset)))
  }

  /** `key < best_key` on `(len(subset), joined keys)` pairs. */
  predicate Better(a: seq<Entry>, b: seq<Entry>) {
    |a| < |b| || (|a| == |b| && StrLe(JoinedKeys(a), JoinedKeys(b)) && JoinedKeys(a) != JoinedKeys(b))
  }

  function EntryLe(a: Entry, b: Entry): bool {
    StrLe(a.key, b.key)
  }

  /** `min(ordered, key=(-len(covers), key))`: the first of the least. */
  predicate Precedes(a: Entry, b: Entry) {
    |a.covers| > |b.covers| || (|a.covers| == |b.covers| && StrLe(a.key, b.key) && a.key != b.key)
  }

  function Lead(ordered: seq<Entry>): Entry
    requires ordered != []
  {
    if |ordered| == 1 then ordered[0]
    else
      var m := Lead(ordered[..|ordered|-1]);
      if Precedes(ordered[|ordered|-1], m) then ordered[|ordered|-1] else m
  }

  function Bidders(subset: seq<Entry>): seq<string> {
    seq(|subset|, i requires 0 <= i < |subset| => subset[i].bid.bidder)
  }

  function BidDigests(subset: seq<Entry>): seq<string> {
    seq(|subset|, i requires 0 <= i < |subset| => subset[i].bid.digest)
  }

  /** The selection announced for a best subset. */
  function Announce(best: seq<Entry>): Selection
    requires best != []
  {
    var ordered := Sort(EntryLe, best);
    if |ordered| > 1 then Selection(Bidders(ordered), Some(Lead(ordered).bid.bidder), BidDigests(ordered))
    else Selection(Bidders(ordered), None, BidDigests(ordered))
  }

  ghost predicate Covers(entries: seq<Entry>, domains: seq<string>, choice: seq<bool>) {
    |choice| == |entries| && Covered(Chosen(entries, choice)) == set d | d in domains
  }

  /** `best` is a covering subset no other covering subset beats. */
  ghost predicate Optimal(entries: seq<Entry>, domains: seq<string>, best: seq<Entry>) {
    && (exists choice :: Covers(entries, domains, choice) && Chosen(entries, choice) == best)
    && (forall choice :: Covers(entries, domains, choice) ==> !Better(Chosen(entries, choice), best))
  }

  /** What the rule announces: nobody when no subset covers the domains, else an optimum. */
  ghost predicate Selects(entries: seq<Entry>, domains: seq<string>, s: Selection) {
    if domains == [] || forall choice :: !Covers(entries, domains, choice) then s == NOBODY
    else exists best :: best != [] && Optimal(entries, domains, best) && s == Announce(best)
  }

  method SelectCoverage(bids: seq<Bid>, domains: seq<string>, minConfidence: int, key: string -> HexDigest)
    returns (s: Selection)
    ensures Selects(EntriesOf(bids, domains, minConfidence, key), domains, s)
  {
    if domains == [] {
      return NOBODY;
    }
    var entries: seq<Entry> := [];
    for i := 0 to |bids|
      invariant entries == EntriesOf(bids[..i], domains, minConfidence, key)
    {
      entries := entries + [EntryOf(bids[i], domains, minConfidence, key)];
    }
    assert bids[..|bids|] == bids;
    var best := BestCover(entries, domains);
    match best {
      case None =>
        s := NOBODY;
      case Some(b) =>
        s := Announce(b);
    }
  }

  /** The mask loop. */
  method BestCover(entries: seq<Entry>, domains: seq<string>) returns (best: Option<seq<Entry>>)
    requires domains != []
    ensures best.None? <==> forall choice :: !Covers(entries, domains, choice)
    ensures best.Some? ==> best.value != [] && Optimal(entries, domains, best.value)
  {
    var domainSet := set d | d in domains;
    var limit := Pow(2, |entries|);
    best := None;
    var mask := 1;
    PowPositive(2, |entries|);
    while mask < limit
      invariant 1 <= mask <= limit
      invariant best.None? ==> forall m :: 1 <= m < mask ==> Covered(Subset(entries, m)) != domainSet
      invariant best.Some? ==>
                  exists m :: 1 <= m < mask && Subset(entries, m) == best.value && Covered(best.value) == domainSet
      invariant best.Some? ==>
                  forall m :: 1 <= m < mask && Covered(Subset(entries, m)) == domainSet
                      ==> !Better(Subset(entries, m), best.value)
      decreases limit - mask
    {
      var subset := Subset(entries, mask);
      if Covered(subset) == domainSet && (best.None? || Better(subset, best.value)) {
        if best.Some? {
          forall m | 1 <= m < mask && Covered(Subset(entries, m)) == domainSet
            ensures !Better(Subset(entries, m), subset)
          {
            if Better(Subset(entries, m), subset) {
              BetterTransitive(Subset(entries, m), subset, best.value);
            }
          }
        }
        BetterIrreflexive(subset);
        best := Some(subset);
      }
      mask := mask + 1;
    }
    MasksAreChoices(entries, domains, domainSet, limit, best);
  }

  lemma BetterIrreflexive(a: seq<Entry>)
    ensures !Better(a, a)
  {
  }

  lemma BetterTransitive(a: seq<Entry>, b: seq<Entry>, c: seq<Entry>)
    requires Better(b, c) && Better(a, b)
    ensures Better(a, c)
  {
    StrLeTotalOrder();
  }

  /** Quantifying over masks is quantifying over choices. */
  lemma MasksAreChoices(entries: seq<Entry>, domains: seq<string>, domainSet: set<string>, limit: nat,
                        best: Option<seq<Entry>>)
    requires domains != [] && domainSet == set d | d in domains
    requires limit == Pow(2, |entries|)
    requires best.None? ==> forall m :: 1 <= m < limit ==> Covered(Subset(entries, m)) != domainSet
    requires best.Some? ==>
               exists m :: 1 <= m < limit && Subset(entries, m) == best.value && Covered(best.value) == domainSet
    requires best.Some? ==>
               forall m :: 1 <= m < limit && Covered(Subset(entries, m)) == domainSet
                   ==> !Better(Subset(entries, m), best.value)
    ensures best.None? <==> forall choice :: !Covers(entries, domains, choice)
    ensures best.Some? ==> best.value != [] && Optimal(entries, domains, best.value)
  {
    assert domains[0] in domainSet;
    forall choice | Covers(entries, domains, choice)
      ensures best.Some? && !Better(Chosen(entries, choice), best.value)
    {
      assert Chosen(entries, choice) != [];
      MaskOfChoice(entries, choice);
      var m := MaskOf(choice);
      assert Subset(entries, m) == Chosen(entries, choice);
    }
    if best.Some? {
      var m :| 1 <= m < limit && Subset(entries, m) == best.value && Covered(best.value) == domainSet;
      ChoiceOfMask(entries, m);
      assert Covers(entries, domains, ChoiceOf(|entries|, m));
    }
  }

  // ---- what an optimal cover is

  function Count(choice: seq<bool>): nat {
    if choice == [] then 0 else (if choice[0] then 1 else 0) + Count(choice[1..])
  }

  lemma {:induction false} ChosenSize(entries: seq<Entry>, choice: seq<bool>)
    requires |choice| == |entries|
    ensures |Chosen(entries, choice)| == Count(choice)
  {
    if entries != [] {
      ChosenSize(entries[1..], choice[1..]);
    }
  }

  lemma {:induction false} ChosenMembers(entries: seq<Entry>, choice: seq<bool>, e: Entry)
    requires |choice| == |entries|
    ensures e in Chosen(entries, choice) <==> exists i :: 0 <= i < |entries| && choice[i] && entries[i] == e
  {
    if entries != [] {
      ChosenMembers(entries[1..], choice[1..], e);
      if e in Chosen(entries[1..], choice[1..]) {
        var i :| 0 <= i < |entries| - 1 && choice[1..][i] && entries[1..][i] == e;
        assert choice[i+1] && entries[i+1] == e;
      }
      if i :| 0 < i < |entries| && choice[i] && entries[i] == e {
        assert choice[1..][i-1] && entries[1..][i-1] == e;
      }
    }
  }

  lemma {:induction false} CountUpdate(choice: seq<bool>, i: nat, b: bool)
    requires i < |choice|
    ensures Count(choice[i := b]) == Count(choice) - (if choice[i] then 1 else 0) + (if b then 1 else 0)
  {
    if i > 0 {
      CountUpdate(choice[1..], i - 1, b);
      assert choice[i := b][1..] == choice[1..][i-1 := b];
    } else {
      assert choice[0 := b][1..] == choice[1..];
    }
  }

  /** The optimum has the fewest bids of all covering subsets. */
  lemma OptimalIsSmallest(entries: seq<Entry>, domains: seq<string>, best: seq<Entry>, choice: seq<bool>)
    requires Optimal(entries, domains, best) && Covers(entries, domains, choice)
    ensures |best| <= Count(choice)
    ensures |best| == Count(choice) ==> StrLe(JoinedKeys(best), JoinedKeys(Chosen(entries, choice)))
  {
    ChosenSize(entries, choice);
    StrLeTotalOrder();
  }

  /** No bid of the optimum can be spared. */
  lemma OptimalIsIrredundant(entries: seq<Entry>, domains: seq<string>, best: seq<Entry>, choice: seq<bool>, i: nat)
    requires Optimal(entries, domains, best)
    requires Covers(entries, domains, choice) && Chosen(entries, choice) == best
    requires i < |choice| && choice[i]
    ensures !Covers(entries, domains, choice[i := false])
  {
    CountUpdate(choice, i, false);
    ChosenSize(entries, choice);
    if Covers(entries, domains, choice[i := false]) {
      OptimalIsSmallest(entries, domains, best, choice[i := false]);
    }
  }

  ghost predicate CoveredBy(entries: seq<Entry>, choice: seq<bool>, d: string)
    requires |choice| == |entries|
  {
    exists i :: 0 <= i < |entries| && choice[i] && d in entries[i].covers
  }

  lemma CoveredMeans(entries: seq<Entry>, choice: seq<bool>, d: string)
    requires |choice| == |entries|
    ensures d in Covered(Chosen(entries, choice)) <==> CoveredBy(entries, choice, d)
  {
    if d in Covered(Chosen(entries, choice)) {
      var e :| e in Chosen(entries, choice) && d in e.covers;
      ChosenMembers(entries, choice, e);
    }
    if i :| 0 <= i < |entries| && choice[i] && d in entries[i].covers {
      ChosenMembers(entries, choice, entries[i]);
    }
  }

  /** One covering bid per domain suffices. */
  lemma {:induction false} OnePerDomain(entries: seq<Entry>, wanted: set<string>) returns (choice: seq<bool>)
    requires forall d :: d in wanted ==> exists i :: 0 <= i < |entries| && d in entries[i].covers
    ensures |choice| == |entries| && Count(choice) <= |wanted|
    ensures forall d :: d in wanted ==> CoveredBy(entries, choice, d)
    decreases wanted
  {
    if wanted == {} {
      choice := seq(|entries|, _ => false);
      CountNone(choice);
    } else {
      var d :| d in wanted;
      var before := OnePerDomain(entries, wanted - {d});
      var i :| 0 <= i < |entries| && d in entries[i].covers;
      choice := before[i := true];
      CountUpdate(before, i, true);
      assert choice[i] && CoveredBy(entries, choice, d);
      forall x | x in wanted && x != d ensures CoveredBy(entries, choice, x) {
        assert x in wanted - {d};
        var j :| 0 <= j < |entries| && before[j] && x in entries[j].covers;
        assert choice[j];
      }
    }
  }

  lemma {:induction false} CountNone(choice: seq<bool>)
    requires forall i :: 0 <= i < |choice| ==> !choice[i]
    ensures Count(choice) == 0
  {
    if choice != [] {
      CountNone(choice[1..]);
    }
  }

  ghost predicate CoversDeclared(entries: seq<Entry>, domains: seq<string>) {
    forall e, d :: e in entries && d in e.covers ==> d in domains
  }

  /** The optimum never has more bids than there are domains. */
  lemma OptimalIsNoLargerThanDomains(entries: seq<Entry>, domains: seq<string>, best: seq<Entry>)
    requires Optimal(entries, domains, best) && CoversDeclared(entries, domains)
    ensures |best| <= |set d | d in domains|
  {
    var wanted := set d | d in domains;
    var choice :| Covers(entries, domains, choice) && Chosen(entries, choice) == best;
    forall d | d in wanted ensures exists i :: 0 <= i < |entries| && d in entries[i].covers {
      CoveredMeans(entries, choice, d);
    }
    var few := OnePerDomain(entries, wanted);
    forall d ensures d in Covered(Chosen(entries, few)) <==> d in wanted {
      CoveredMeans(entries, few, d);
    }
    assert Covers(entries, domains, few);
    OptimalIsSmallest(entries, domains, best, few);
  }

  lemma EntriesCoverDeclared(bids: seq<Bid>, domains: seq<string>, minConfidence: int, key: string -> HexDigest)
    ensures CoversDeclared(EntriesOf(bids, domains, minConfidence, key), domains)
  {
    var entries := EntriesOf(bids, domains, minConfidence, key);
    forall e, d | e in entries && d in e.covers ensures d in domains {
      var i :| 0 <= i < |entries| && entries[i] == e;
      FilterMembers(d => Eligible(bids[i], d, minConfidence), domains);
    }
  }

  // ---- independence of the order of the bids

  /** A selection never names more performers than there are announced domains. */
  lemma SelectionIsNoLargerThanDomains(bids: seq<Bid>, domains: seq<string>, minConfidence: int,
                                       key: string -> HexDigest, s: Selection)
    requires Selects(EntriesOf(bids, domains, minConfidence, key), domains, s)
    ensures |s.performers| == |s.winning| <= |set d | d in domains|
  {
    var entries := EntriesOf(bids, domains, minConfidence, key);
    if s != NOBODY {
      var best :| best != [] && Optimal(entries, domains, best) && s == Announce(best);
      EntriesCoverDeclared(bids, domains, minConfidence, key);
      OptimalIsNoLargerThanDomains(entries, domains, best);
      KeyPreorder();
      SortProperties(EntryLe, best);
    }
  }

  lemma KeyPreorder()
    ensures TotalPreorder(EntryLe)
  {
    StrLeTotalOrder();
  }

  /** Distinct entries have distinct tie-break keys. */
  ghost predicate KeysSeparate(entries: seq<Entry>) {
    forall a, b :: a in entries && b in entries && a.key == b.key ==> a == b
  }

  lemma {:induction false} ChosenHasNoCopies(entries: seq<Entry>, choice: seq<bool>)
    requires |choice| == |entries| && NoCopies(entries)
    ensures NoCopies(Chosen(entries, choice))
    ensures forall e :: e in Chosen(entries, choice) ==> e in entries
  {
    if entries != [] {
      assert NoCopies(entries[1..]);
      ChosenHasNoCopies(entries[1..], choice[1..]);
      assert entries == [entries[0]] + entries[1..];
      assert entries[0] !in entries[1..];
    }
  }

  /** A subset of one arrangement is a subset of any other. */
  lemma Transport(a: seq<Entry>, b: seq<Entry>, choice: seq<bool>) returns (other: seq<bool>)
    requires |choice| == |a| && NoCopies(a) && NoCopies(b) && forall e :: e in a <==> e in b
    ensures |other| == |b| && multiset(Chosen(b, other)) == multiset(Chosen(a, choice))
  {
    var chosen := Chosen(a, choice);
    other := seq(|b|, i requires 0 <= i < |b| => b[i] in chosen);
    ChosenHasNoCopies(a, choice);
    ChosenHasNoCopies(b, other);
    forall e ensures e in Chosen(b, other) <==> e in chosen {
      ChosenMembers(b, other, e);
    }
    SameMembersNoCopies(Chosen(b, other), chosen);
  }

  lemma KeysHaveNoCopies(s: seq<Entry>)
    requires NoCopies(s) && KeysSeparate(s)
    ensures NoCopies(Keys(s))
    ensures forall k :: k in Keys(s) <==> exists e :: e in s && e.key == k
  {
    forall i, j | 0 <= i < j < |s| ensures Keys(s)[i] != Keys(s)[j] {
      assert s[i] in s && s[j] in s;
    }
    forall k ensures k in Keys(s) <==> exists e :: e in s && e.key == k {
      if e :| e in s && e.key == k {
        var i :| 0 <= i < |s| && s[i] == e;
        assert Keys(s)[i] == k;
      }
    }
  }

  /** Rearranging a subset changes neither its domains nor its ranking key. */
  lemma RankForgetsOrder(a: seq<Entry>, b: seq<Entry>)
    requires multiset(a) == multiset(b) && NoCopies(a) && NoCopies(b) && KeysSeparate(a) && KeysSeparate(b)
    ensures |a| == |b| && Covered(a) == Covered(b) && JoinedKeys(a) == JoinedKeys(b)
  {
    SameMembers(a, b);
    KeysHaveNoCopies(a);
    KeysHaveNoCopies(b);
    SameMembersNoCopies(Keys(a), Keys(b));
    StrLeTotalOrder();
    SortForgetsOrder(StrLe, Keys(a), Keys(b));
  }

  /** Joining digests of one length with commas loses nothing. */
  lemma {:induction false} JoinInjective(a: seq<string>, b: seq<string>)
    requires |a| == |b| && Joined(a) == Joined(b)
    requires (forall i :: 0 <= i < |a| ==> |a[i]| == 64) && (forall i :: 0 <= i < |b| ==> |b[i]| == 64)
    ensures a == b
  {
    if |a| == 1 {
      assert a == [a[0]] && b == [b[0]];
    } else if |a| > 1 {
      assert Joined(a) == a[0] + ("," + Joined(a[1..])) && Joined(b) == b[0] + ("," + Joined(b[1..]));
      assert Joined(a)[..64] == a[0] && Joined(b)[..64] == b[0];
      assert Joined(a)[65..] == Joined(a[1..]) && Joined(b)[65..] == Joined(b[1..]);
      JoinInjective(a[1..], b[1..]);
      assert a == [a[0]] + a[1..] && b == [b[0]] + b[1..];
    }
  }

  /** Equal ranking keys mean the same bids. */
  lemma SameRankSameBids(a: seq<Entry>, b: seq<Entry>, entries: seq<Entry>)
    requires |a| == |b| && JoinedKeys(a) == JoinedKeys(b)
    requires NoCopies(a) && NoCopies(b) && KeysSeparate(entries)
    requires (forall e :: e in a ==> e in entries) && (forall e :: e in b ==> e in entries)
    ensures multiset(a) == multiset(b)
  {
    StrLeTotalOrder();
    SortProperties(StrLe, Keys(a));
    SortProperties(StrLe, Keys(b));
    KeysHaveNoCopies(a);
    KeysHaveNoCopies(b);
    forall i | 0 <= i < |a| ensures |Sort(StrLe, Keys(a))[i]| == 64 && |Sort(StrLe, Keys(b))[i]| == 64 {
      assert Sort(StrLe, Keys(a))[i] in Keys(a) && Sort(StrLe, Keys(b))[i] in Keys(b);
    }
    JoinInjective(Sort(StrLe, Keys(a)), Sort(StrLe, Keys(b)));
    forall e ensures e in a <==> e in b {
      if e in a {
        assert e.key in Keys(b);
      }
      if e in b {
        assert e.key in Keys(a);
      }
    }
    SameMembersNoCopies(a, b);
  }

  lemma OptimalAcrossOrders(p: seq<Entry>, q: seq<Entry>, domains: seq<string>, a: seq<Entry>, b: seq<Entry>)
    requires NoCopies(p) && NoCopies(q) && KeysSeparate(p) && forall e :: e in p <==> e in q
    requires Optimal(p, domains, a) && Optimal(q, domains, b)
    ensures !Better(b, a) && NoCopies(a) && (forall e :: e in a ==> e in p)
  {
    var ca :| Covers(p, domains, ca) && Chosen(p, ca) == a;
    var cb :| Covers(q, domains, cb) && Chosen(q, cb) == b;
    ChosenHasNoCopies(p, ca);
    ChosenHasNoCopies(q, cb);
    var moved := Transport(q, p, cb);
    ChosenHasNoCopies(p, moved);
    RankForgetsOrder(Chosen(p, moved), b);
    assert Covers(p, domains, moved);
    assert !Better(Chosen(p, moved), a);
  }

  /** The announced selection does not depend on the order in which bids were revealed. */
  lemma SelectionForgetsOrder(p: seq<Entry>, q: seq<Entry>, domains: seq<string>, s: Selection, t: Selection)
    requires NoCopies(p) && NoCopies(q) && KeysSeparate(p) && forall e :: e in p <==> e in q
    ensures Selects(p, domains, s) && Selects(q, domains, t) ==> s == t
  {
    if Selects(p, domains, s) && Selects(q, domains, t) {
      if exists choice :: Covers(p, domains, choice) {
        CoverableInAnyOrder(p, q, domains);
      }
      if exists choice :: Covers(q, domains, choice) {
        CoverableInAnyOrder(q, p, domains);
      }
      if domains != [] && exists choice :: Covers(p, domains, choice) {
        var a :| a != [] && Optimal(p, domains, a) && s == Announce(a);
        var b :| b != [] && Optimal(q, domains, b) && t == Announce(b);
        SameAnnouncement(p, q, domains, a, b);
      }
    }
  }

  lemma SameAnnouncement(p: seq<Entry>, q: seq<Entry>, domains: seq<string>, a: seq<Entry>, b: seq<Entry>)
    requires NoCopies(p) && NoCopies(q) && KeysSeparate(p) && forall e :: e in p <==> e in q
    requires Optimal(p, domains, a) && Optimal(q, domains, b)
    ensures Sort(EntryLe, a) == Sort(EntryLe, b)
  {
    OptimalAcrossOrders(p, q, domains, a, b);
    OptimalAcrossOrders(q, p, domains, b, a);
    StrLeTotalOrder();
    SameRankSameBids(a, b, p);
    SortForgetsOrder(EntryLe, a, b);
  }

  lemma CoverableInAnyOrder(p: seq<Entry>, q: seq<Entry>, domains: seq<string>)
    requires NoCopies(p) && NoCopies(q) && KeysSeparate(p) && forall e :: e in p <==> e in q
    requires exists choice :: Covers(p, domains, choice)
    ensures exists choice :: Covers(q, domains, choice)
  {
    var c :| Covers(p, domains, c);
    var moved := Transport(p, q, c);
    SameMembers(Chosen(p, c), Chosen(q, moved));
    assert Covered(Chosen(q, moved)) == Covered(Chosen(p, c));
    assert Covers(q, domains, moved);
  }

  /** Bids whose bidders have distinct tie-break digests make separate entries. */
  lemma DistinctBiddersSeparate(bids: seq<Bid>, domains: seq<string>, minConfidence: int, key: string -> HexDigest)
    requires forall i, j :: 0 <= i < j < |bids| ==> key(bids[i].bidder) != key(bids[j].bidder)
    ensures NoCopies(EntriesOf(bids, domains, minConfidence, key))
    ensures KeysSeparate(EntriesOf(bids, domains, minConfidence, key))
  {
    var entries := EntriesOf(bids, domains, minConfidence, key);
    forall i, j | 0 <= i < j < |entries| ensures entries[i].key != entries[j].key {
      assert key(bids[i].bidder) != key(bids[j].bidder);
    }
  }

  /** The synthesizer covers the most domains, and has the lowest key among those. */
  lemma {:induction false} LeadCoversMost(ordered: seq<Entry>)
    requires ordered != []
    ensures Lead(ordered) in ordered
    ensures forall e :: e in ordered ==>
              |e.covers| < |Lead(ordered).covers|
              || (|e.covers| == |Lead(ordered).covers| && StrLe(Lead(ordered).key, e.key))
  {
    StrLeTotalOrder();
    if |ordered| > 1 {
      var k := |ordered| - 1;
      LeadCoversMost(ordered[..k]);
      assert ordered == ordered[..k] + [ordered[k]];
    }
  }
}
