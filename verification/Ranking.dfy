/** The `ranking` selection rule: the highest linear score, ties by the lower tie-break digest. */
module Ranking {
  import opened Prelude
  import opened Ordering
  import opened Coverage

  /** A stated latency, or one that does not parse and counts as infinite. */
  datatype Latency = Seconds(s: real) | Unparseable

  datatype Offer =
    Offer(bidder: string, digest: string, capability: real, cost: real, latency: Latency, reputation: real)

  datatype RankWeights = RankWeights(capability: real, cost: real, latency: real, reputation: real)

  /** A score: a finite one, or one that an infinite latency has taken to either end. */
  datatype Score = Bottom | Finite(r: real) | Top

  function Term(weight: real, value: real): real {
    if weight != 0.0 then weight * value else 0.0
  }

  /** A zero weight contributes nothing, whatever the value. */
  function LatencyTerm(weight: real, latency: Latency): Score {
    if weight == 0.0 then Finite(0.0)
    else
      match latency
      case Seconds(s) => Finite(weight * s)
      case Unparseable => if weight > 0.0 then Top else Bottom
  }

  function StatedTerms(w: RankWeights, o: Offer): real {
    Term(w.capability, o.capability) + Term(w.cost, o.cost) + Term(w.reputation, o.reputation)
  }

  function ScoreOf(w: RankWeights, o: Offer): Score {
    match LatencyTerm(w.latency, o.latency)
    case Finite(r) => Finite(StatedTerms(w, o) + r)
    case end => end
  }

  predicate Higher(a: Score, b: Score) {
    match (a, b)
    case (Finite(x), Finite(y)) => x > y
    case (Top, _) => b != Top
    case (_, Bottom) => a != Bottom
    case (_, _) => false
  }

  /** `key < best_key` on `(-score, tie-break digest)` pairs. */
  predicate Beats(w: RankWeights, key: string -> HexDigest, a: Offer, b: Offer) {
    var x, y := ScoreOf(w, a), ScoreOf(w, b);
    Higher(x, y) || (x == y && StrLe(key(a.bidder), key(b.bidder)) && key(a.bidder) != key(b.bidder))
  }

  /** The first offer no other beats. */
  function Champion(w: RankWeights, key: string -> HexDigest, offers: seq<Offer>): Offer
    requires offers != []
  {
    var k := |offers| - 1;
    if k == 0 then offers[0]
    else
      var best := Champion(w, key, offers[..k]);
      if Beats(w, key, offers[k], best) then offers[k] else best
  }

  function Ranked(w: RankWeights, key: string -> HexDigest, offers: seq<Offer>): Selection {
    if offers == [] then NOBODY
    else
      var best := Champion(w, key, offers);
      Selection([best.bidder], None, [best.digest])
  }

  method SelectRanking(w: RankWeights, key: string -> HexDigest, offers: seq<Offer>) returns (r: Selection)
    ensures r == Ranked(w, key, offers)
  {
    var best: Option<Offer> := None;
    for i := 0 to |offers|
      invariant best == if i == 0 then None else Some(Champion(w, key, offers[..i]))
    {
      assert offers[..i + 1][..i] == offers[..i];
      if best.None? || Beats(w, key, offers[i], best.value) {
        best := Some(offers[i]);
      }
    }
    assert offers[..|offers|] == offers;
    match best
    case None => return NOBODY;
    case Some(o) => return Selection([o.bidder], None, [o.digest]);
  }

  lemma HigherIsOrder(a: Score, b: Score, c: Score)
    ensures Higher(a, b) || Higher(b, a) || a == b
    ensures !(Higher(a, b) && Higher(b, a))
    ensures Higher(a, b) && Higher(b, c) ==> Higher(a, c)
  {
  }

  /** At least as good: not beaten. */
  lemma NotBeatenIsTransitive(w: RankWeights, key: string -> HexDigest, a: Offer, b: Offer, c: Offer)
    requires !Beats(w, key, b, a) && !Beats(w, key, c, b)
    ensures !Beats(w, key, c, a)
  {
    StrLeTotalOrder();
    HigherIsOrder(ScoreOf(w, a), ScoreOf(w, b), ScoreOf(w, c));
    HigherIsOrder(ScoreOf(w, b), ScoreOf(w, c), ScoreOf(w, a));
  }

  /** The winner is one of the offers, and no offer beats it. */
  lemma {:induction false} ChampionIsUnbeaten(w: RankWeights, key: string -> HexDigest, offers: seq<Offer>)
    requires offers != []
    ensures Champion(w, key, offers) in offers
    ensures forall o :: o in offers ==> !Beats(w, key, o, Champion(w, key, offers))
  {
    var k := |offers| - 1;
    var last, won := offers[k], Champion(w, key, offers);
    StrLeTotalOrder();
    if k > 0 {
      var best := Champion(w, key, offers[..k]);
      ChampionIsUnbeaten(w, key, offers[..k]);
      forall o | o in offers ensures !Beats(w, key, o, won) {
        if o in offers[..k] {
          BeatsIsAsymmetric(w, key, won, best);
          NotBeatenIsTransitive(w, key, won, best, o);
        } else {
          assert o == last;
        }
      }
    }
  }

  lemma BeatsIsAsymmetric(w: RankWeights, key: string -> HexDigest, a: Offer, b: Offer)
    requires Beats(w, key, a, b) || a == b
    ensures !Beats(w, key, b, a)
  {
    StrLeTotalOrder();
    HigherIsOrder(ScoreOf(w, a), ScoreOf(w, b), ScoreOf(w, a));
  }

  /** Different offers come from bidders with different tie-break digests. */
  ghost predicate KeysTellApart(key: string -> HexDigest, offers: seq<Offer>) {
    forall a, b :: a in offers && b in offers && key(a.bidder) == key(b.bidder) ==> a == b
  }

  /** The award is a function of the pool, not of the order it was rebuilt in. */
  lemma RankingForgetsOrder(w: RankWeights, key: string -> HexDigest, a: seq<Offer>, b: seq<Offer>)
    requires multiset(a) == multiset(b) && KeysTellApart(key, a)
    ensures Ranked(w, key, a) == Ranked(w, key, b)
  {
    SameMembers(a, b);
    if a != [] {
      ChampionIsUnbeaten(w, key, a);
      ChampionIsUnbeaten(w, key, b);
      var x, y := Champion(w, key, a), Champion(w, key, b);
      StrLeTotalOrder();
      HigherIsOrder(ScoreOf(w, x), ScoreOf(w, y), ScoreOf(w, x));
    }
  }

  ghost predicate Unbeaten(w: RankWeights, key: string -> HexDigest, offers: seq<Offer>, o: Offer) {
    o in offers && forall x :: x in offers ==> !Beats(w, key, x, o)
  }

  lemma {:induction false} FrontRunnerStays(w: RankWeights, key: string -> HexDigest, offers: seq<Offer>)
    requires offers != [] && Unbeaten(w, key, offers, offers[0])
    ensures Champion(w, key, offers) == offers[0]
  {
    var k := |offers| - 1;
    if k > 0 {
      forall x | x in offers[..k] ensures !Beats(w, key, x, offers[0]) {
        assert x in offers;
      }
      FrontRunnerStays(w, key, offers[..k]);
    }
  }

  /** Any offer that none beats wins in some order of the pool. */
  lemma UnbeatenCanWin(w: RankWeights, key: string -> HexDigest, offers: seq<Offer>, o: Offer)
    returns (order: seq<Offer>)
    requires Unbeaten(w, key, offers, o)
    ensures multiset(order) == multiset(offers) && Ranked(w, key, order) == Selection([o.bidder], None, [o.digest])
  {
    var j :| 0 <= j < |offers| && offers[j] == o;
    order := [o] + offers[..j] + offers[j + 1..];
    assert offers == offers[..j] + [o] + offers[j + 1..];
    SameMembers(order, offers);
    FrontRunnerStays(w, key, order);
  }

  /** The award is the same for every order of the pool if and only if all unbeaten offers name one
      bidder and one payload. */
  lemma RankingForgetsOrderIff(w: RankWeights, key: string -> HexDigest, offers: seq<Offer>)
    ensures (forall order :: multiset(order) == multiset(offers) ==> Ranked(w, key, order) == Ranked(w, key, offers))
            <==> forall a, b :: Unbeaten(w, key, offers, a) && Unbeaten(w, key, offers, b)
                   ==> a.bidder == b.bidder && a.digest == b.digest
  {
    if forall a, b :: Unbeaten(w, key, offers, a) && Unbeaten(w, key, offers, b)
         ==> a.bidder == b.bidder && a.digest == b.digest {
      forall order | multiset(order) == multiset(offers) ensures Ranked(w, key, order) == Ranked(w, key, offers) {
        SameMembers(order, offers);
        if offers != [] {
          ChampionIsUnbeaten(w, key, offers);
          ChampionIsUnbeaten(w, key, order);
          assert Unbeaten(w, key, offers, Champion(w, key, offers));
          assert Unbeaten(w, key, offers, Champion(w, key, order));
        }
      }
    } else {
      var a, b :| Unbeaten(w, key, offers, a) && Unbeaten(w, key, offers, b)
                  && !(a.bidder == b.bidder && a.digest == b.digest);
      var m := UnbeatenCanWin(w, key, offers, a);
      var n := UnbeatenCanWin(w, key, offers, b);
      assert Ranked(w, key, m) != Ranked(w, key, n);
    }
  }

  /** An offer wins exactly when it beats every other one. */
  lemma WinsIffBeatsAll(w: RankWeights, key: string -> HexDigest, offers: seq<Offer>, o: Offer)
    requires o in offers && KeysTellApart(key, offers)
    ensures Champion(w, key, offers) == o <==> forall x :: x in offers && x != o ==> Beats(w, key, o, x)
  {
    ChampionIsUnbeaten(w, key, offers);
    var best := Champion(w, key, offers);
    forall x | x in offers && x != best ensures Beats(w, key, best, x) {
      StrLeTotalOrder();
      HigherIsOrder(ScoreOf(w, best), ScoreOf(w, x), ScoreOf(w, best));
    }
    if forall x :: x in offers && x != o ==> Beats(w, key, o, x) {
      assert best == o || Beats(w, key, o, best);
    }
  }

  /** An offer whose latency does not parse loses to every stated one when latency is penalised,
      wins over every stated one when it is rewarded, and otherwise its latency has no effect. */
  lemma UnparseableLatency(w: RankWeights, key: string -> HexDigest, offers: seq<Offer>)
    requires exists o :: o in offers && o.latency.Seconds?
    requires exists o :: o in offers && o.latency.Unparseable?
    ensures w.latency < 0.0 ==> Champion(w, key, offers).latency.Seconds?
    ensures w.latency > 0.0 ==> Champion(w, key, offers).latency.Unparseable?
    ensures w.latency == 0.0 ==> forall o, l :: o in offers ==> ScoreOf(w, o.(latency := l)) == ScoreOf(w, o)
  {
    ChampionIsUnbeaten(w, key, offers);
    var best := Champion(w, key, offers);
    var stated :| stated in offers && stated.latency.Seconds?;
    var unstated :| unstated in offers && unstated.latency.Unparseable?;
    assert !Beats(w, key, stated, best) && !Beats(w, key, unstated, best);
  }

  function Scaled(c: real, w: RankWeights): RankWeights {
    RankWeights(c * w.capability, c * w.cost, c * w.latency, c * w.reputation)
  }

  function ScaledScore(c: real, s: Score): Score {
    match s
    case Finite(r) => Finite(c * r)
    case end => end
  }

  lemma TermScales(c: real, weight: real, value: real)
    requires c > 0.0
    ensures Term(c * weight, value) == c * Term(weight, value)
  {
    if weight != 0.0 {
      NonZeroProduct(c, weight);
      assert (c * weight) * value == c * (weight * value);
    } else {
      assert c * weight == 0.0;
    }
  }

  lemma NonZeroProduct(c: real, x: real)
    requires c > 0.0
    ensures x > 0.0 ==> c * x > 0.0
    ensures x < 0.0 ==> c * x < 0.0
    ensures x == 0.0 ==> c * x == 0.0
  {
  }

  lemma ScoreScales(c: real, w: RankWeights, o: Offer)
    requires c > 0.0
    ensures ScoreOf(Scaled(c, w), o) == ScaledScore(c, ScoreOf(w, o))
  {
    TermScales(c, w.capability, o.capability);
    TermScales(c, w.cost, o.cost);
    TermScales(c, w.reputation, o.reputation);
    NonZeroProduct(c, w.latency);
    var p, q, r := Term(w.capability, o.capability), Term(w.cost, o.cost), Term(w.reputation, o.reputation);
    assert StatedTerms(Scaled(c, w), o) == c * (p + q + r) by {
      assert c * (p + q + r) == c * p + c * q + c * r;
    }
    match o.latency
    case Seconds(s) =>
      TermScales(c, w.latency, s);
      assert c * (p + q + r + Term(w.latency, s)) == c * (p + q + r) + c * Term(w.latency, s);
    case Unparseable =>
      assert c * (p + q + r + 0.0) == c * (p + q + r);
  }

  lemma HigherScales(c: real, a: Score, b: Score)
    requires c > 0.0
    ensures Higher(ScaledScore(c, a), ScaledScore(c, b)) == Higher(a, b)
    ensures ScaledScore(c, a) == ScaledScore(c, b) <==> a == b
  {
    if a.Finite? && b.Finite? {
      NonZeroProduct(c, a.r - b.r);
      assert c * (a.r - b.r) == c * a.r - c * b.r;
    }
  }

  /** Only the proportions of the published weights matter. */
  lemma {:induction false} RankingIsScaleFree(c: real, w: RankWeights, key: string -> HexDigest, offers: seq<Offer>)
    requires c > 0.0 && offers != []
    ensures Champion(Scaled(c, w), key, offers) == Champion(w, key, offers)
  {
    var k := |offers| - 1;
    if k > 0 {
      RankingIsScaleFree(c, w, key, offers[..k]);
      var best := Champion(w, key, offers[..k]);
      ScoreScales(c, w, best);
      ScoreScales(c, w, offers[k]);
      HigherScales(c, ScoreOf(w, offers[k]), ScoreOf(w, best));
    }
  }

  // ---- what a score says of the offer's own fields

  /** The stated fields by the published weights. */
  function Linear(w: RankWeights, o: Offer): real {
    w.capability * o.capability + w.cost * o.cost + w.reputation * o.reputation
  }

  function LinearWithLatency(w: RankWeights, o: Offer): real {
    Linear(w, o) + if o.latency.Seconds? then w.latency * o.latency.s else 0.0
  }

  /** Ahead on score: by the weighted fields when latency does not matter or both state it, and
      otherwise by which side of every finite score the missing latency puts an offer. */
  predicate Ahead(w: RankWeights, a: Offer, b: Offer) {
    if w.latency == 0.0 then Linear(w, a) > Linear(w, b)
    else if a.latency.Seconds? && b.latency.Seconds? then LinearWithLatency(w, a) > LinearWithLatency(w, b)
    else if a.latency.Seconds? then w.latency < 0.0
    else b.latency.Seconds? && w.latency > 0.0
  }

  lemma ScoreIsLinear(w: RankWeights, o: Offer)
    ensures StatedTerms(w, o) == Linear(w, o)
    ensures w.latency == 0.0 ==> ScoreOf(w, o) == Finite(Linear(w, o))
    ensures w.latency != 0.0 && o.latency.Seconds? ==> ScoreOf(w, o) == Finite(LinearWithLatency(w, o))
  {
  }

  lemma AheadMeans(w: RankWeights, a: Offer, b: Offer)
    ensures Higher(ScoreOf(w, a), ScoreOf(w, b)) <==> Ahead(w, a, b)
    ensures ScoreOf(w, a) == ScoreOf(w, b) <==> !Ahead(w, a, b) && !Ahead(w, b, a)
  {
    ScoreIsLinear(w, a);
    ScoreIsLinear(w, b);
    HigherIsOrder(ScoreOf(w, a), ScoreOf(w, b), ScoreOf(w, a));
  }

  /** Nobody is ahead of the winner, and among those level with it none has a lower tie-break digest. */
  lemma WinnerMeans(w: RankWeights, key: string -> HexDigest, offers: seq<Offer>, x: Offer)
    requires x in offers
    ensures var best := Champion(w, key, offers);
            best in offers && !Ahead(w, x, best)
            && (!Ahead(w, best, x) ==> StrLe(key(best.bidder), key(x.bidder)))
  {
    var best := Champion(w, key, offers);
    ChampionIsUnbeaten(w, key, offers);
    AheadMeans(w, x, best);
    StrLeTotalOrder();
  }

  /** No worse in any field by the sign of that field's own weight. */
  predicate Improves(w: RankWeights, o: Offer, better: Offer) {
    && w.capability * better.capability >= w.capability * o.capability
    && w.cost * better.cost >= w.cost * o.cost
    && w.reputation * better.reputation >= w.reputation * o.reputation
    && (o.latency == better.latency
        || (o.latency.Seconds? && better.latency.Seconds? && w.latency * better.latency.s >= w.latency * o.latency.s)
        || (o.latency.Unparseable? && better.latency.Seconds? && w.latency <= 0.0)
        || (o.latency.Seconds? && better.latency.Unparseable? && w.latency >= 0.0))
  }

  /** What decides whether an offer is ahead: its weighted fields, and whether it states a latency. */
  predicate AheadBy(latency: real, stated: bool, fields: real, full: real, stated': bool, fields': real, full': real) {
    if latency == 0.0 then fields > fields'
    else if stated && stated' then full > full'
    else if stated then latency < 0.0
    else stated' && latency > 0.0
  }

  lemma AheadIsBy(w: RankWeights, a: Offer, b: Offer)
    ensures Ahead(w, a, b) <==> AheadBy(w.latency, a.latency.Seconds?, Linear(w, a), LinearWithLatency(w, a),
                                        b.latency.Seconds?, Linear(w, b), LinearWithLatency(w, b))
  {
  }

  lemma ImprovedFields(w: RankWeights, o: Offer, better: Offer)
    requires Improves(w, o, better)
    ensures Linear(w, better) >= Linear(w, o)
    ensures o.latency.Seconds? && better.latency.Seconds? ==> LinearWithLatency(w, better) >= LinearWithLatency(w, o)
  {
    LinearGrows(w, o, better);
    if o.latency.Seconds? && better.latency.Seconds? {
      LatencyGrows(w, o, better, Linear(w, o), Linear(w, better));
    }
  }

  lemma LinearGrows(w: RankWeights, o: Offer, better: Offer)
    requires w.capability * better.capability >= w.capability * o.capability
    requires w.cost * better.cost >= w.cost * o.cost
    requires w.reputation * better.reputation >= w.reputation * o.reputation
    ensures Linear(w, better) >= Linear(w, o)
  {
  }

  lemma LatencyGrows(w: RankWeights, o: Offer, better: Offer, f: real, f': real)
    requires o.latency.Seconds? && better.latency.Seconds? && w.latency * better.latency.s >= w.latency * o.latency.s
    requires f == Linear(w, o) && f' == Linear(w, better) && f' >= f
    ensures LinearWithLatency(w, better) >= LinearWithLatency(w, o)
  {
  }

  lemma ImprovedBy(latency: real, s: bool, f: real, g: real, s': bool, f': real, g': real, t: bool, h: real, k: real)
    requires f' >= f && (s && s' ==> g' >= g)
    requires (s && !s' ==> latency >= 0.0) && (!s && s' ==> latency <= 0.0)
    ensures AheadBy(latency, s, f, g, t, h, k) ==> AheadBy(latency, s', f', g', t, h, k)
    ensures !AheadBy(latency, t, h, k, s, f, g) ==> !AheadBy(latency, t, h, k, s', f', g')
  {
  }

  lemma ImprovedScore(w: RankWeights, o: Offer, better: Offer, x: Offer)
    requires Improves(w, o, better)
    ensures Ahead(w, o, x) ==> Ahead(w, better, x)
    ensures !Ahead(w, x, o) ==> !Ahead(w, x, better)
  {
    ImprovedFields(w, o, better);
    AheadIsBy(w, o, x);
    AheadIsBy(w, better, x);
    AheadIsBy(w, x, o);
    AheadIsBy(w, x, better);
    ImprovedBy(w.latency, o.latency.Seconds?, Linear(w, o), LinearWithLatency(w, o),
               better.latency.Seconds?, Linear(w, better), LinearWithLatency(w, better),
               x.latency.Seconds?, Linear(w, x), LinearWithLatency(w, x));
  }

  /** A winner that improves a field in the direction its weight asks for still wins. */
  lemma ImprovingKeepsTheAward(w: RankWeights, key: string -> HexDigest, offers: seq<Offer>, j: nat, better: Offer)
    requires KeysTellApart(key, offers) && NoCopies(offers)
    requires j < |offers| && Champion(w, key, offers) == offers[j]
    requires better.bidder == offers[j].bidder && Improves(w, offers[j], better)
    ensures Champion(w, key, offers[j := better]) == better
  {
    var o, changed := offers[j], offers[j := better];
    assert changed[j] == better;
    forall x | x in changed && x != better ensures x in offers && x != o {
      var i :| 0 <= i < |changed| && changed[i] == x;
      assert i != j && offers[i] == x;
    }
    forall x | x in changed && x != better ensures Beats(w, key, better, x) {
      WinsIffBeatsAll(w, key, offers, o);
      assert Beats(w, key, o, x);
      AheadMeans(w, o, x);
      AheadMeans(w, better, x);
      AheadMeans(w, x, o);
      AheadMeans(w, x, better);
      ImprovedScore(w, o, better, x);
    }
    forall a, b | a in changed && b in changed && key(a.bidder) == key(b.bidder) ensures a == b {
      var x, y := if a == better then o else a, if b == better then o else b;
      assert x in offers && y in offers && key(x.bidder) == key(y.bidder);
    }
    WinsIffBeatsAll(w, key, changed, better);
  }
}
