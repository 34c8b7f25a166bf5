/** A hub's own activities in a half-open interval of its chain: `hub_chain_slice`. */
module HubSlice {
  import opened Prelude

  /** How a Result names its authors. */
  datatype Attribution = Single(agent: string) | Several(agents: seq<Option<string>>) | Unattributed

  /** One entry of `afp:contributionSplit`. */
  datatype Share = Share(agent: string, amount: Scalar)

  datatype Payload =
    | Settlement(task: string, settled: seq<Option<string>>)
    | Task(id: string)
    | Result(attributedTo: Attribution, split: Option<seq<Share>>)
    | Enroll(hub: Option<string>, target: Option<string>, agent: Option<string>)
    | OtherPayload

  /** The parts of an activity the contribution summary reads. */
  datatype Activity = Activity(actor: string, digest: string, prev: Option<string>, published: int,
                               context: Option<string>, visibility: string, supersedes: bool, payload: Payload)

  /** The hub's activities by digest. */
  function ByDigest(pool: seq<Activity>, hub: string): map<string, Activity> {
    if pool == [] then map[]
    else
      var k := |pool| - 1;
      if pool[k].actor == hub then ByDigest(pool[..k], hub)[pool[k].digest := pool[k]] else ByDigest(pool[..k], hub)
  }

  lemma {:induction false} ByDigestKeys(pool: seq<Activity>, hub: string)
    ensures forall d :: d in ByDigest(pool, hub) ==>
              ByDigest(pool, hub)[d].digest == d && ByDigest(pool, hub)[d] in pool
                  && ByDigest(pool, hub)[d].actor == hub
    ensures forall a :: a in pool && a.actor == hub ==> a.digest in ByDigest(pool, hub)
  {
    if pool != [] {
      var k := |pool| - 1;
      ByDigestKeys(pool[..k], hub);
      assert pool == pool[..k] + [pool[k]];
    }
  }

  /** Digests never run in a circle: each link leads to a smaller rank. */
  ghost predicate Ranked(held: map<string, Activity>, rank: map<string, nat>) {
    forall d :: d in held ==>
      d in rank && (held[d].prev.Some? && held[d].prev.value in held && held[d].prev.value in rank
          ==> rank[held[d].prev.value] < rank[d])
  }

  /** A stretch of the chain that ends with activity `end`. */
  ghost predicate LeadsTo(held: map<string, Activity>, end: string, s: seq<Activity>) {
    && end in held
    && (s != [] ==> s[|s|-1] == held[end])
    && (forall i :: 0 <= i < |s| ==> s[i].digest in held && held[s[i].digest] == s[i])
    && (forall i :: 0 < i < |s| ==> s[i].prev == Some(s[i-1].digest))
  }

  /** The chain holds nothing before `a`. */
  predicate NothingBefore(held: map<string, Activity>, a: Activity) {
    a.prev.None? || a.prev.value !in held
  }

  /** `s` is the half-open interval after `start` up to and including `end`, in chain order;
      an empty `start` means from the oldest activity the pool can reach. */
  ghost predicate IsInterval(held: map<string, Activity>, start: string, end: string, s: seq<Activity>) {
    && LeadsTo(held, end, s)
    && (forall i :: 0 <= i < |s| ==> s[i].digest != start)
    && if s == [] then start == end
       else (s[0].prev == Some(start) && start in held) || (start == "" && NothingBefore(held, s[0]))
  }

  function Reverse(s: seq<Activity>): seq<Activity> {
    if s == [] then [] else [s[|s|-1]] + Reverse(s[..|s|-1])
  }

  /** What the backward walk has: the stretch behind it, and where it looks next. */
  ghost predicate Walking(held: map<string, Activity>, start: string, end: string, s: seq<Activity>,
                          cursor: Option<Activity>) {
    && LeadsTo(held, end, s)
    && (forall i :: 0 <= i < |s| ==> s[i].digest != start)
    && (cursor.Some? ==> cursor.value.digest in held && held[cursor.value.digest] == cursor.value)
    && if s == [] then cursor == Some(held[end])
       else if cursor.Some? then s[0].prev == Some(cursor.value.digest)
       else NothingBefore(held, s[0])
  }

  function Before(held: map<string, Activity>, a: Activity): Option<Activity> {
    if a.prev.Some? && a.prev.value in held then Some(held[a.prev.value]) else None
  }

  lemma WalkingOn(held: map<string, Activity>, start: string, end: string, s: seq<Activity>, a: Activity)
    requires Walking(held, start, end, s, Some(a)) && a.digest != start
    requires forall d :: d in held ==> held[d].digest == d
    ensures Walking(held, start, end, [a] + s, Before(held, a))
  {
    var longer := [a] + s;
    assert forall i :: 0 < i < |longer| ==> longer[i] == s[i-1];
    assert s == [] ==> longer == [a];
  }

  method HubChainSlice(pool: seq<Activity>, hub: string, start: string, end: string, ghost rank: map<string, nat>)
    returns (interval: Option<seq<Activity>>)
    requires Ranked(ByDigest(pool, hub), rank)
    ensures interval.Some? ==> IsInterval(ByDigest(pool, hub), start, end, interval.value)
    ensures interval.None? ==> forall s :: !IsInterval(ByDigest(pool, hub), start, end, s)
  {
    var held := ByDigest(pool, hub);
    ByDigestKeys(pool, hub);
    if end !in held {
      return None;
    }
    var cursor, walked := Some(held[end]), [];
    while cursor.Some?
      invariant Walking(held, start, end, Reverse(walked), cursor)
      decreases if cursor.Some? then rank[cursor.value.digest] + 1 else 0
    {
      var a := cursor.value;
      if a.digest == start {
        return Some(Reverse(walked));
      }
      WalkingOn(held, start, end, Reverse(walked), a);
      assert Reverse(walked + [a]) == [a] + Reverse(walked) by { assert (walked + [a])[..|walked|] == walked; }
      walked := walked + [a];
      cursor := if a.prev.Some? && a.prev.value in held then Some(held[a.prev.value]) else None;
    }
    if start == "" {
      return Some(Reverse(walked));
    }
    forall s ensures !IsInterval(held, start, end, s) {
      NoOtherStop(held, start, end, Reverse(walked), s);
    }
    return None;
  }

  /** Walking back from one end, two stretches show the same activities. */
  lemma {:induction false} SameBackwards(held: map<string, Activity>, end: string, s: seq<Activity>, t: seq<Activity>,
                                         k: nat)
    requires LeadsTo(held, end, s) && LeadsTo(held, end, t)
    requires k < |s| && k < |t|
    ensures s[|s|-1-k] == t[|t|-1-k]
  {
    if k > 0 {
      SameBackwards(held, end, s, t, k - 1);
    }
  }

  /** The longer of two stretches with one end goes on where the shorter stops. */
  lemma Continues(held: map<string, Activity>, end: string, s: seq<Activity>, t: seq<Activity>)
    requires LeadsTo(held, end, s) && LeadsTo(held, end, t) && 0 < |s| < |t|
    ensures var before := t[|t|-|s|-1];
            s[0].prev == Some(before.digest) && before.digest in held && !NothingBefore(held, s[0])
  {
    SameBackwards(held, end, s, t, |s| - 1);
    assert t[|t|-|s|] == s[0];
  }

  /** A walk that never met `start` and ran out rules out every interval. */
  lemma NoOtherStop(held: map<string, Activity>, start: string, end: string, f: seq<Activity>, s: seq<Activity>)
    requires LeadsTo(held, end, f) && f != [] && start != "" && NothingBefore(held, f[0])
    requires forall i :: 0 <= i < |f| ==> f[i].digest != start
    requires forall d :: d in held ==> held[d].digest == d
    ensures !IsInterval(held, start, end, s)
  {
    if IsInterval(held, start, end, s) && s != [] {
      if |s| > |f| {
        Continues(held, end, f, s);
      } else if |s| < |f| {
        Continues(held, end, s, f);
      } else {
        SameBackwards(held, end, s, f, |s| - 1);
      }
    }
  }

  /** An interval is unique: the answer cannot depend on how it was found. */
  lemma IntervalIsUnique(held: map<string, Activity>, start: string, end: string, s: seq<Activity>, t: seq<Activity>)
    requires IsInterval(held, start, end, s) && IsInterval(held, start, end, t)
    requires forall d :: d in held ==> held[d].digest == d
    ensures s == t
  {
    if s != [] && t != [] {
      if |s| < |t| {
        Continues(held, end, s, t);
      } else if |t| < |s| {
        Continues(held, end, t, s);
      } else {
        forall i | 0 <= i < |s| ensures s[i] == t[i] {
          SameBackwards(held, end, s, t, |s| - 1 - i);
        }
      }
    }
  }

  lemma {:induction false} RanksRise(held: map<string, Activity>, rank: map<string, nat>, end: string,
                                     s: seq<Activity>, i: nat, j: nat)
    requires Ranked(held, rank) && LeadsTo(held, end, s) && i <= j < |s|
    ensures s[i].digest in rank && s[j].digest in rank
    ensures rank[s[i].digest] <= rank[s[j].digest]
    ensures i < j ==> rank[s[i].digest] < rank[s[j].digest]
  {
    if i < j {
      RanksRise(held, rank, end, s, i, j - 1);
    }
  }

  /** Adjacent intervals compose: nothing is lost between them and nothing is taken twice. */
  lemma IntervalsCompose(held: map<string, Activity>, rank: map<string, nat>, a: string, b: string, c: string,
                         s: seq<Activity>, t: seq<Activity>)
    requires Ranked(held, rank) && "" !in held && forall d :: d in held ==> held[d].digest == d
    requires IsInterval(held, a, b, s) && IsInterval(held, b, c, t)
    ensures IsInterval(held, a, c, s + t)
    ensures forall x :: !(x in s && x in t)
  {
    var u := s + t;
    forall i, j | 0 <= i < |s| && 0 <= j < |t| ensures rank[s[i].digest] < rank[t[j].digest] {
      RanksRise(held, rank, b, s, i, |s| - 1);
      RanksRise(held, rank, c, t, 0, j);
    }
    forall j | 0 <= j < |t| ensures t[j].digest != a {
      RanksRise(held, rank, c, t, 0, j);
      if s != [] {
        RanksRise(held, rank, b, s, 0, |s| - 1);
      }
    }
    if t != [] && s != [] {
      assert u[0] == s[0] && u[|u|-1] == t[|t|-1];
      forall i | 0 < i < |u| ensures u[i].prev == Some(u[i-1].digest) {
        if i == |s| {
          assert t[0].prev == Some(b);
        }
      }
    } else if t == [] {
      assert u == s;
    } else {
      assert u == t;
    }
  }

  // ---- on a whole chain

  /** An actor's unbroken chain from its first activity on, digests pairwise distinct. */
  ghost predicate WholeChain(c: seq<Activity>) {
    && (forall i :: 0 <= i < |c| ==> c[i].digest != "")
    && (forall i, j :: 0 <= i < j < |c| ==> c[i].digest != c[j].digest)
    && (forall i :: 0 <= i < |c| ==> Follows(c, i))
  }

  ghost predicate Follows(c: seq<Activity>, i: nat)
    requires i < |c|
  {
    c[i].prev == if i == 0 then None else Some(c[i-1].digest)
  }

  /** A pool that holds the chain from position `k` on, and nothing else by the hub. */
  ghost predicate HoldsFrom(held: map<string, Activity>, c: seq<Activity>, k: nat) {
    && (forall i :: k <= i < |c| ==> c[i].digest in held && held[c[i].digest] == c[i])
    && (forall d :: d in held ==> held[d].digest == d && exists i :: k <= i < |c| && c[i].digest == d)
  }

  lemma SameDigestSamePlace(c: seq<Activity>, i: nat, j: nat)
    requires WholeChain(c) && i < |c| && j < |c| && c[i].digest == c[j].digest
    ensures i == j
  {
  }

  lemma Predecessor(c: seq<Activity>, m: nat, d: string)
    requires WholeChain(c) && m < |c| && c[m].prev == Some(d)
    ensures m > 0 && c[m-1].digest == d
  {
    assert Follows(c, m);
  }

  lemma HeldPositions(held: map<string, Activity>, c: seq<Activity>, k: nat, i: nat)
    requires WholeChain(c) && HoldsFrom(held, c, k) && i < |c|
    ensures c[i].digest in held <==> k <= i
  {
    if c[i].digest in held {
      var m :| k <= m < |c| && c[m].digest == c[i].digest;
      SameDigestSamePlace(c, i, m);
    }
  }

  /** On a chain held from `k` on, the interval from `c[i]` to `c[j]` is `c[i+1..j+1]`. */
  lemma IntervalOnChain(held: map<string, Activity>, c: seq<Activity>, k: nat, i: nat, j: nat)
    requires WholeChain(c) && HoldsFrom(held, c, k) && k <= i <= j < |c|
    ensures IsInterval(held, c[i].digest, c[j].digest, c[i+1..j+1])
  {
    StretchLeads(held, c, k, i + 1, j);
    var s := c[i+1..j+1];
    if s != [] {
      assert s[0] == c[i+1] && Follows(c, i + 1);
    } else {
      assert i == j;
    }
  }

  /** A stretch of a held chain leads to its last entry. */
  lemma StretchLeads(held: map<string, Activity>, c: seq<Activity>, k: nat, m: nat, j: nat)
    requires WholeChain(c) && HoldsFrom(held, c, k) && k <= m <= j + 1 && k <= j < |c|
    ensures LeadsTo(held, c[j].digest, c[m..j+1])
  {
    var s := c[m..j+1];
    forall i | 0 <= i < |s| ensures s[i].digest in held && held[s[i].digest] == s[i] {
      assert s[i] == c[m + i];
    }
    forall i | 0 < i < |s| ensures s[i].prev == Some(s[i-1].digest) {
      assert s[i] == c[m + i] && s[i-1] == c[m + i - 1] && Follows(c, m + i);
    }
  }

  /** From the empty start it is everything held up to `c[j]`, even when older entries are
      missing: a gap in the pool reads as the beginning of the chain. */
  lemma IntervalFromStart(held: map<string, Activity>, c: seq<Activity>, k: nat, j: nat)
    requires WholeChain(c) && HoldsFrom(held, c, k) && k <= j < |c|
    ensures IsInterval(held, "", c[j].digest, c[k..j+1])
    ensures c[k..j+1] == c[..j+1] <==> k == 0
  {
    StretchLeads(held, c, k, k, j);
    assert c[k..j+1][0] == c[k];
    assert Follows(c, k);
    if k > 0 {
      HeldPositions(held, c, k, k - 1);
    }
    assert |c[k..j+1]| == j + 1 - k && |c[..j+1]| == j + 1;
  }

  lemma HeldPlace(held: map<string, Activity>, c: seq<Activity>, k: nat, d: string) returns (i: nat)
    requires HoldsFrom(held, c, k) && d in held
    ensures k <= i < |c| && c[i].digest == d
  {
    i :| k <= i < |c| && c[i].digest == d;
  }

  /** Any other start leaves the interval unresolved, never empty: a named start has to be held,
      at or before the end. */
  lemma IntervalResolvesWithin(held: map<string, Activity>, c: seq<Activity>, k: nat, start: string, end: string,
                               s: seq<Activity>)
    returns (i: nat, j: nat)
    requires WholeChain(c) && HoldsFrom(held, c, k)
    requires start != "" && IsInterval(held, start, end, s)
    ensures k <= i <= j < |c| && c[i].digest == start && c[j].digest == end
  {
    j := HeldPlace(held, c, k, end);
    i := HeldPlace(held, c, k, start);
    if s == [] {
      SameDigestSamePlace(c, i, j);
    } else {
      IntervalPosition(held, c, k, end, s, j, 0);
      Predecessor(c, j + 1 - |s|, start);
      SameDigestSamePlace(c, i, j - |s|);
    }
  }

  lemma {:induction false} IntervalPosition(held: map<string, Activity>, c: seq<Activity>, k: nat, end: string,
                                            s: seq<Activity>, j: nat, i: nat)
    requires WholeChain(c) && HoldsFrom(held, c, k) && k <= j < |c| && c[j].digest == end
    requires LeadsTo(held, end, s) && i < |s|
    ensures k <= j + 1 - |s| + i <= j && s[i] == c[j + 1 - |s| + i]
    decreases |s| - i
  {
    if i < |s| - 1 {
      IntervalPosition(held, c, k, end, s, j, i + 1);
      var m := j + 1 - |s| + i + 1;
      assert s[i+1].prev == Some(s[i].digest);
      Predecessor(c, m, s[i].digest);
      HeldPositions(held, c, k, m - 1);
    }
  }
}
