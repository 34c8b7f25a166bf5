/** What a coverage award says of the bids, the announced domains and the confidence floor. */
module CoverageMeaning {
  import opened Prelude
  import opened Ordering
  import opened Coverage

  /** What a bid claims on a domain; nothing declared is a claim of zero. */
  ghost predicate Claims(b: Bid, d: string, floor: int) {
    if d in b.coverage then b.coverage[d] >= floor else 0 >= floor
  }

  /** The bids a choice takes. */
  function Taken(bids: seq<Bid>, choice: seq<bool>): seq<Bid>
    requires |choice| == |bids|
  {
    if bids == [] then [] else (if choice[0] then [bids[0]] else []) + Taken(bids[1..], choice[1..])
  }

  ghost predicate CoverAll(team: seq<Bid>, domains: seq<string>, floor: int) {
    forall d :: d in domains ==> exists b :: b in team && Claims(b, d, floor)
  }

  lemma EntriesTail(bids: seq<Bid>, domains: seq<string>, floor: int, key: string -> HexDigest)
    requires bids != []
    ensures EntriesOf(bids, domains, floor, key)[1..] == EntriesOf(bids[1..], domains, floor, key)
  {
  }

  /** Choosing entries is taking their bids. */
  lemma {:induction false} ChosenAreTaken(bids: seq<Bid>, domains: seq<string>, floor: int, key: string -> HexDigest,
                                          choice: seq<bool>)
    requires |choice| == |bids|
    ensures Chosen(EntriesOf(bids, domains, floor, key), choice) == EntriesOf(Taken(bids, choice), domains, floor, key)
  {
    var entries := EntriesOf(bids, domains, floor, key);
    if bids != [] {
      EntriesTail(bids, domains, floor, key);
      ChosenAreTaken(bids[1..], domains, floor, key, choice[1..]);
      var rest := Taken(bids[1..], choice[1..]);
      if choice[0] {
        assert EntriesOf([bids[0]] + rest, domains, floor, key) == [entries[0]] + EntriesOf(rest, domains, floor, key);
      }
    }
  }

  lemma EntryCovers(b: Bid, domains: seq<string>, floor: int, key: string -> HexDigest, d: string)
    ensures d in EntryOf(b, domains, floor, key).covers <==> d in domains && Claims(b, d, floor)
  {
    FilterMembers(d => Eligible(b, d, floor), domains);
  }

  /** Covered exactly when every announced domain is claimed at the floor by a taken bid. */
  lemma CoversMeans(bids: seq<Bid>, domains: seq<string>, floor: int, key: string -> HexDigest, choice: seq<bool>)
    requires |choice| == |bids|
    ensures Covers(EntriesOf(bids, domains, floor, key), domains, choice)
        <==> CoverAll(Taken(bids, choice), domains, floor)
  {
    var team := Taken(bids, choice);
    var entries := EntriesOf(team, domains, floor, key);
    ChosenAreTaken(bids, domains, floor, key, choice);
    forall d ensures d in Covered(entries) <==> d in domains && exists b :: b in team && Claims(b, d, floor) {
      forall b ensures d in EntryOf(b, domains, floor, key).covers <==> d in domains && Claims(b, d, floor) {
        EntryCovers(b, domains, floor, key, d);
      }
      if e :| e in entries && d in e.covers {
        var i :| 0 <= i < |entries| && entries[i] == e;
        assert team[i] in team;
      }
      if b :| b in team && d in domains && Claims(b, d, floor) {
        var i :| 0 <= i < |team| && team[i] == b;
        assert entries[i] in entries;
      }
    }
    if Covered(entries) == set d | d in domains {
      assert CoverAll(team, domains, floor);
    }
  }

  lemma {:induction false} TakeAll(bids: seq<Bid>)
    ensures Taken(bids, seq(|bids|, _ => true)) == bids
  {
    if bids != [] {
      assert seq(|bids|, _ => true)[1..] == seq(|bids| - 1, _ => true);
      TakeAll(bids[1..]);
    }
  }

  lemma {:induction false} TakenAreBids(bids: seq<Bid>, choice: seq<bool>)
    requires |choice| == |bids|
    ensures forall b :: b in Taken(bids, choice) ==> b in bids
    ensures |Taken(bids, choice)| == Count(choice)
  {
    if bids != [] {
      TakenAreBids(bids[1..], choice[1..]);
    }
  }

  /** Some choice covers exactly when every announced domain is claimed at the floor by some bid. */
  lemma CoverableIff(bids: seq<Bid>, domains: seq<string>, floor: int, key: string -> HexDigest)
    ensures (exists choice :: Covers(EntriesOf(bids, domains, floor, key), domains, choice)) <==>
              CoverAll(bids, domains, floor)
  {
    var entries := EntriesOf(bids, domains, floor, key);
    if choice :| Covers(entries, domains, choice) {
      CoversMeans(bids, domains, floor, key, choice);
      TakenAreBids(bids, choice);
    }
    if CoverAll(bids, domains, floor) {
      var all := seq(|bids|, _ => true);
      TakeAll(bids);
      CoversMeans(bids, domains, floor, key, all);
    }
  }

  /** Nobody is awarded exactly when nothing was announced, or some announced domain is claimed at the
      floor by no bid. */
  lemma NobodyMeans(bids: seq<Bid>, domains: seq<string>, floor: int, key: string -> HexDigest, s: Selection)
    requires Selects(EntriesOf(bids, domains, floor, key), domains, s)
    ensures s == NOBODY <==>
              domains == [] || exists d :: d in domains && forall b :: b in bids ==> !Claims(b, d, floor)
  {
    var entries := EntriesOf(bids, domains, floor, key);
    CoverableIff(bids, domains, floor, key);
    if domains != [] && exists choice :: Covers(entries, domains, choice) {
      var best :| best != [] && Optimal(entries, domains, best) && s == Announce(best);
      EntryPreorder();
      SortProperties(EntryLe, best);
      assert |s.performers| == |best|;
    }
  }

  lemma EntryPreorder()
    ensures TotalPreorder(EntryLe)
  {
    StrLeTotalOrder();
  }

  function KeysOf(team: seq<Bid>, key: string -> HexDigest): seq<string> {
    seq(|team|, i requires 0 <= i < |team| => key(team[i].bidder))
  }

  /** How many announced domains a bid claims at the floor. */
  ghost function ClaimCount(b: Bid, domains: seq<string>, floor: int): nat {
    if domains == [] then 0
    else ClaimCount(b, domains[..|domains|-1], floor) + if Claims(b, domains[|domains|-1], floor) then 1 else 0
  }

  lemma {:induction false} CoversCount(b: Bid, domains: seq<string>, floor: int, key: string -> HexDigest)
    ensures |EntryOf(b, domains, floor, key).covers| == ClaimCount(b, domains, floor)
  {
    if domains != [] {
      CoversCount(b, domains[..|domains|-1], floor, key);
    }
  }

  /** The selection announces the team in the order of its tie-break digests, and as synthesizer of more
      than one its lead. */
  ghost predicate AnnouncesTeam(domains: seq<string>, floor: int, key: string -> HexDigest, s: Selection,
                                team: seq<Bid>) {
    && s.performers == seq(|team|, i requires 0 <= i < |team| => team[i].bidder)
    && s.winning == seq(|team|, i requires 0 <= i < |team| => team[i].digest)
    && (forall i, j :: 0 <= i < j < |team| ==> StrLe(key(team[i].bidder), key(team[j].bidder)))
    && (if |team| == 1 then s.synthesizer == None
        else exists i :: 0 <= i < |team| && s.synthesizer == Some(team[i].bidder)
                       && Leads(domains, floor, key, team, i))
  }

  /** A team of bids that covers the announced domains, and that no choice of bids betters. */
  ghost predicate BestTeam(bids: seq<Bid>, domains: seq<string>, floor: int, key: string -> HexDigest, team: seq<Bid>) {
    && team != [] && (forall b :: b in team ==> b in bids)
    && CoverAll(team, domains, floor)
    && (forall choice: seq<bool> :: |choice| == |bids| && CoverAll(Taken(bids, choice), domains, floor) ==>
          NoWorse(bids, key, team, choice))
  }

  /** No larger than another choice, nor behind it by the comma-joined sorted tie-break digests. */
  ghost predicate NoWorse(bids: seq<Bid>, key: string -> HexDigest, team: seq<Bid>, choice: seq<bool>)
    requires |choice| == |bids|
  {
    var other := Taken(bids, choice);
    |team| < |other| || (|team| == |other| && StrLe(Joined(KeysOf(team, key)), Joined(Sort(StrLe, KeysOf(other, key)))))
  }

  /** Claims the most domains, and among those has the lowest tie-break digest. */
  ghost predicate Leads(domains: seq<string>, floor: int, key: string -> HexDigest, team: seq<Bid>, i: int)
    requires 0 <= i < |team|
  {
    forall j :: 0 <= j < |team| ==>
      var x, y := ClaimCount(team[i], domains, floor), ClaimCount(team[j], domains, floor);
      x > y || (x == y && StrLe(key(team[i].bidder), key(team[j].bidder)))
  }

  lemma {:induction false} LeadPlace(ordered: seq<Entry>) returns (i: nat)
    requires ordered != []
    ensures i < |ordered| && ordered[i] == Lead(ordered)
    ensures forall j :: 0 <= j < |ordered| ==> !Precedes(ordered[j], ordered[i])
  {
    var k := |ordered| - 1;
    StrLeTotalOrder();
    if k == 0 {
      i := 0;
    } else {
      i := LeadPlace(ordered[..k]);
      assert forall j :: 0 <= j < k ==> ordered[j] == ordered[..k][j];
      if Precedes(ordered[k], ordered[i]) {
        i := k;
      }
    }
  }

  lemma SortedKeys(best: seq<Entry>)
    ensures Keys(Sort(EntryLe, best)) == Sort(StrLe, Keys(best))
  {
    EntryPreorder();
    StrLeTotalOrder();
    SortProperties(EntryLe, best);
    var ordered := Sort(EntryLe, best);
    SortProperties(StrLe, Keys(best));
    SameKeys(ordered, best);
    SortedUnique(StrLe, Keys(ordered), Sort(StrLe, Keys(best)));
  }

  lemma {:induction false} SameKeys(a: seq<Entry>, b: seq<Entry>)
    requires multiset(a) == multiset(b)
    ensures multiset(Keys(a)) == multiset(Keys(b))
    decreases |a|
  {
    SameMembers(a, b);
    if a != [] {
      var k := |a| - 1;
      var j := MatchLast(a, b);
      SameKeys(a[..k], b[..j] + b[j + 1..]);
      assert Keys(a) == Keys(a[..k]) + [a[k].key];
      assert Keys(b) == Keys(b[..j]) + [b[j].key] + Keys(b[j + 1..]);
      assert Keys(b[..j] + b[j + 1..]) == Keys(b[..j]) + Keys(b[j + 1..]);
    } else {
      assert Keys(a) == [] && Keys(b) == [];
    }
  }

  lemma KeysOfEntries(team: seq<Bid>, domains: seq<string>, floor: int, key: string -> HexDigest)
    ensures Keys(EntriesOf(team, domains, floor, key)) == KeysOf(team, key)
  {
  }

  function BidsOf(entries: seq<Entry>): seq<Bid> {
    seq(|entries|, i requires 0 <= i < |entries| => entries[i].bid)
  }

  /** Who is awarded: a best team, announced with its lead. */
  lemma AwardMeans(bids: seq<Bid>, domains: seq<string>, floor: int, key: string -> HexDigest, s: Selection)
    returns (team: seq<Bid>)
    requires Selects(EntriesOf(bids, domains, floor, key), domains, s) && s != NOBODY
    ensures BestTeam(bids, domains, floor, key, team) && AnnouncesTeam(domains, floor, key, s, team)
  {
    var best :| best != [] && Optimal(EntriesOf(bids, domains, floor, key), domains, best) && s == Announce(best);
    team := TeamOf(bids, domains, floor, key, best);
    TeamIsAnnounced(domains, floor, key, best, team);
  }

  lemma TeamOf(bids: seq<Bid>, domains: seq<string>, floor: int, key: string -> HexDigest, best: seq<Entry>)
    returns (team: seq<Bid>)
    requires best != [] && Optimal(EntriesOf(bids, domains, floor, key), domains, best)
    ensures BestTeam(bids, domains, floor, key, team)
    ensures Sort(EntryLe, best) == EntriesOf(team, domains, floor, key) && |team| == |best|
  {
    var entries := EntriesOf(bids, domains, floor, key);
    var choice :| Covers(entries, domains, choice) && Chosen(entries, choice) == best;
    ChosenAreTaken(bids, domains, floor, key, choice);
    CoversMeans(bids, domains, floor, key, choice);
    TakenAreBids(bids, choice);
    EntryPreorder();
    SortProperties(EntryLe, best);
    var ordered := Sort(EntryLe, best);
    team := BidsOf(ordered);
    OrderedTeam(Taken(bids, choice), domains, floor, key, ordered);
    NoneIsBetter(bids, domains, floor, key, best, team);
  }

  lemma NamesOfTeam(domains: seq<string>, floor: int, key: string -> HexDigest, team: seq<Bid>)
    ensures var entries := EntriesOf(team, domains, floor, key);
            && Bidders(entries) == seq(|team|, i requires 0 <= i < |team| => team[i].bidder)
            && BidDigests(entries) == seq(|team|, i requires 0 <= i < |team| => team[i].digest)
            && BidsOf(entries) == team
  {
  }

  lemma KeysInOrder(domains: seq<string>, floor: int, key: string -> HexDigest, team: seq<Bid>)
    requires SortedBy(EntryLe, EntriesOf(team, domains, floor, key))
    ensures forall i, j :: 0 <= i < j < |team| ==> StrLe(key(team[i].bidder), key(team[j].bidder))
  {
    var entries := EntriesOf(team, domains, floor, key);
    forall i, j | 0 <= i < j < |team| ensures StrLe(key(team[i].bidder), key(team[j].bidder)) {
      assert EntryLe(entries[i], entries[j]);
    }
  }

  lemma TeamIsAnnounced(domains: seq<string>, floor: int, key: string -> HexDigest, best: seq<Entry>, team: seq<Bid>)
    requires best != [] && Sort(EntryLe, best) == EntriesOf(team, domains, floor, key) && |team| == |best|
    ensures AnnouncesTeam(domains, floor, key, Announce(best), team)
  {
    var ordered := EntriesOf(team, domains, floor, key);
    EntryPreorder();
    SortProperties(EntryLe, best);
    NamesOfTeam(domains, floor, key, team);
    KeysInOrder(domains, floor, key, team);
    if |team| > 1 {
      var i := LeadPlace(ordered);
      LeadMeans(domains, floor, key, ordered, i);
      assert ordered[i].bid == team[i];
    }
  }

  lemma OrderedTeam(taken: seq<Bid>, domains: seq<string>, floor: int, key: string -> HexDigest, ordered: seq<Entry>)
    requires multiset(ordered) == multiset(EntriesOf(taken, domains, floor, key)) && SortedBy(EntryLe, ordered)
    ensures ordered == EntriesOf(BidsOf(ordered), domains, floor, key)
    ensures forall b :: b in BidsOf(ordered) <==> b in taken
    ensures forall i, j :: 0 <= i < j < |ordered| ==>
              StrLe(key(BidsOf(ordered)[i].bidder), key(BidsOf(ordered)[j].bidder))
  {
    var entries := EntriesOf(taken, domains, floor, key);
    SameMembers(ordered, entries);
    forall i | 0 <= i < |ordered| ensures ordered[i] == EntryOf(ordered[i].bid, domains, floor, key) {
      assert ordered[i] in entries;
    }
    forall b ensures b in BidsOf(ordered) <==> b in taken {
      if b in BidsOf(ordered) {
        var i :| 0 <= i < |ordered| && BidsOf(ordered)[i] == b;
        assert ordered[i] in entries;
      }
      if b in taken {
        var i :| 0 <= i < |taken| && taken[i] == b;
        assert entries[i] in ordered;
        var j :| 0 <= j < |ordered| && ordered[j] == entries[i];
        assert BidsOf(ordered)[j] == b;
      }
    }
  }

  lemma NoneIsBetter(bids: seq<Bid>, domains: seq<string>, floor: int, key: string -> HexDigest, best: seq<Entry>,
                     team: seq<Bid>)
    requires Optimal(EntriesOf(bids, domains, floor, key), domains, best)
    requires Sort(EntryLe, best) == EntriesOf(team, domains, floor, key)
    ensures forall choice: seq<bool> :: |choice| == |bids| && CoverAll(Taken(bids, choice), domains, floor) ==>
              NoWorse(bids, key, team, choice)
  {
    EntryPreorder();
    SortProperties(EntryLe, best);
    SortedKeys(best);
    KeysOfEntries(team, domains, floor, key);
    forall choice: seq<bool> | |choice| == |bids| && CoverAll(Taken(bids, choice), domains, floor)
      ensures NoWorse(bids, key, team, choice)
    {
      var entries := EntriesOf(bids, domains, floor, key);
      CoversMeans(bids, domains, floor, key, choice);
      ChosenAreTaken(bids, domains, floor, key, choice);
      KeysOfEntries(Taken(bids, choice), domains, floor, key);
      StrLeTotalOrder();
      assert !Better(Chosen(entries, choice), best);
    }
  }

  lemma LeadMeans(domains: seq<string>, floor: int, key: string -> HexDigest, ordered: seq<Entry>, i: nat)
    requires i < |ordered| && ordered == EntriesOf(BidsOf(ordered), domains, floor, key)
    requires forall j :: 0 <= j < |ordered| ==> !Precedes(ordered[j], ordered[i])
    ensures Leads(domains, floor, key, BidsOf(ordered), i)
  {
    var team := BidsOf(ordered);
    StrLeTotalOrder();
    forall j | 0 <= j < |team|
      ensures var x, y := ClaimCount(team[i], domains, floor), ClaimCount(team[j], domains, floor);
              x > y || (x == y && StrLe(key(team[i].bidder), key(team[j].bidder)))
    {
      CoversCount(team[i], domains, floor, key);
      CoversCount(team[j], domains, floor, key);
      assert ordered[i] == EntryOf(team[i], domains, floor, key) && ordered[j] == EntryOf(team[j], domains, floor, key);
      assert !Precedes(ordered[j], ordered[i]);
    }
  }
}
