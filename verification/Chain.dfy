/** One actor's hash chain: `check_chain` and `chain_head_digest`, with lawful redaction. */
module Chain {
  import opened Prelude

  /** A digest as `digest_of` writes it. */
  type Digest = s: string | "sha256:" <= s witness "sha256:"

  /** An entry of a chain: a disclosed activity, or a stub standing in for a withheld one.
      `digest` is what `digest_of` returns for the activity, `content` everything else it says. */
  datatype Entry =
    | Act(digest: Digest, prev: Option<string>, published: int, content: string)
    | Stub(declared: Option<string>)
  {
    /** The digest a following activity has to name. */
    function Names(): Option<string> {
      match this
      case Act(digest, _, _, _) => Some(digest)
      case Stub(declared) => declared
    }
  }

  datatype CheckKind = StubDeclaresDigest | DoesNotDecrease | StartsChain | LinksToRedaction | LinksToPredecessor

  datatype Check = Check(kind: CheckKind, index: nat, ok: bool)

  /** The findings of a replay, in the order they were recorded. */
  class Report {
    var checks: seq<Check>

    constructor ()
      ensures checks == []
    {
      checks := [];
    }

    method Record(kind: CheckKind, index: nat, ok: bool) returns (passed: bool)
      modifies this
      ensures checks == old(checks) + [Check(kind, index, ok)] && passed == ok
    {
      checks := checks + [Check(kind, index, ok)];
      passed := ok;
    }
  }

  predicate WellFormedDigest(d: Option<string>) {
    d.Some? && "sha256:" <= d.value
  }

  // ---- the walk

  datatype Walk =
    Walk(previousDigest: Option<string>, previousInstant: Option<int>, afterStub: bool, checks: seq<Check>)

  function InstantCheck(w: Walk, index: nat, e: Entry): seq<Check>
    requires e.Act?
  {
    if w.previousInstant.None? then [] else [Check(DoesNotDecrease, index, e.published >= w.previousInstant.value)]
  }

  function LinkCheck(w: Walk, index: nat, e: Entry): Check
    requires e.Act?
  {
    if index == 0 then Check(StartsChain, index, e.prev.None?)
    else if w.afterStub then Check(LinksToRedaction, index, e.prev == w.previousDigest)
    else Check(LinksToPredecessor, index, e.prev == w.previousDigest)
  }

  function WalkStep(w: Walk, index: nat, e: Entry): Walk {
    match e
    case Stub(declared) =>
      Walk(if declared.Some? then declared else w.previousDigest, w.previousInstant, true,
           w.checks + [Check(StubDeclaresDigest, index, WellFormedDigest(declared))])
    case Act(digest, _, published, _) =>
      Walk(Some(digest), Some(published), false, w.checks + InstantCheck(w, index, e) + [LinkCheck(w, index, e)])
  }

  function WalkOf(chain: seq<Entry>): Walk {
    if chain == [] then Walk(None, None, false, [])
    else WalkStep(WalkOf(chain[..|chain|-1]), |chain| - 1, chain[|chain|-1])
  }

  method CheckChain(report: Report, chain: seq<Entry>)
    modifies report
    ensures report.checks == old(report.checks) + WalkOf(chain).checks
  {
    var previousDigest: Option<string>, previousInstant: Option<int>, afterStub := None, None, false;
    ghost var before, w := report.checks, WalkOf([]);
    for i := 0 to |chain|
      invariant w == WalkOf(chain[..i]) && report.checks == before + w.checks
      invariant previousDigest == w.previousDigest && previousInstant == w.previousInstant && afterStub == w.afterStub
    {
      assert chain[..i+1][..i] == chain[..i];
      var e := chain[i];
      ghost var last := w;
      w := WalkStep(w, i, e);
      if e.Stub? {
        var _ := report.Record(StubDeclaresDigest, i, WellFormedDigest(e.declared));
        previousDigest := if e.declared.Some? then e.declared else previousDigest;
        afterStub := true;
        continue;
      }
      if previousInstant.Some? {
        var _ := report.Record(DoesNotDecrease, i, e.published >= previousInstant.value);
      }
      assert report.checks == before + (last.checks + InstantCheck(last, i, e));
      previousInstant := Some(e.published);
      if i == 0 {
        var _ := report.Record(StartsChain, i, e.prev.None?);
      } else if afterStub {
        var _ := report.Record(LinksToRedaction, i, e.prev == previousDigest);
      } else {
        var _ := report.Record(LinksToPredecessor, i, e.prev == previousDigest);
      }
      ConcatAssociates(before, last.checks + InstantCheck(last, i, e), [LinkCheck(last, i, e)]);
      previousDigest := Some(e.digest);
      afterStub := false;
    }
    assert chain[..|chain|] == chain;
  }

  /** The digest a next activity on this chain would have to name. */
  function ChainHeadDigest(chain: seq<Entry>): Option<string> {
    if chain == [] then None else chain[|chain|-1].Names()
  }

  ghost predicate AllOk(checks: seq<Check>) {
    forall c :: c in checks ==> c.ok
  }

  /** Every check the walk records holds. */
  ghost predicate Passes(chain: seq<Entry>) {
    AllOk(WalkOf(chain).checks)
  }

  // ---- what a passing chain is

  /** An intact chain, said position by position. */
  ghost predicate Intact(chain: seq<Entry>) {
    && (forall i :: 0 <= i < |chain| ==> Linked(chain, i))
    && (forall i, j :: 0 <= i < j < |chain| && chain[i].Act? && chain[j].Act?
          ==> chain[i].published <= chain[j].published)
  }

  ghost predicate Linked(chain: seq<Entry>, i: nat)
    requires i < |chain|
  {
    match chain[i]
    case Stub(declared) => WellFormedDigest(declared)
    case Act(_, prev, _, _) => if i == 0 then prev.None? else prev == chain[i-1].Names()
  }

  lemma IntactSnoc(chain: seq<Entry>)
    requires chain != []
    ensures var k := |chain| - 1;
            Intact(chain) <==>
              && Intact(chain[..k]) && Linked(chain, k)
              && (chain[k].Act? ==>
                    forall i :: 0 <= i < k && chain[i].Act? ==> chain[i].published <= chain[k].published)
  {
    var k := |chain| - 1;
    forall i | 0 <= i < k ensures Linked(chain, i) <==> Linked(chain[..k], i) {}
    assert forall i :: 0 <= i < k ==> chain[..k][i] == chain[i];
    if Intact(chain) {
      forall i | 0 <= i < k ensures Linked(chain[..k], i) {
        assert Linked(chain, i);
      }
    }
  }

  /** The instant the walk remembers is the latest disclosed one, in an intact chain. */
  ghost predicate Remembers(chain: seq<Entry>, w: Walk) {
    && (chain != [] ==> w.previousDigest == chain[|chain|-1].Names() && w.afterStub == chain[|chain|-1].Stub?)
    && (w.previousInstant.None? ==> forall i :: 0 <= i < |chain| ==> chain[i].Stub?)
    && (w.previousInstant.Some? ==>
          && (exists i :: 0 <= i < |chain| && chain[i].Act? && chain[i].published == w.previousInstant.value)
          && forall i :: 0 <= i < |chain| && chain[i].Act? ==> chain[i].published <= w.previousInstant.value)
  }

  /** One more entry on an intact chain. */
  lemma RemembersStep(front: seq<Entry>, w: Walk, e: Entry)
    requires Remembers(front, w) && (e.Stub? ==> WellFormedDigest(e.declared))
    requires e.Act? && w.previousInstant.Some? ==> e.published >= w.previousInstant.value
    ensures Remembers(front + [e], WalkStep(w, |front|, e))
  {
    var chain := front + [e];
    assert chain[|chain| - 1] == e && forall i :: 0 <= i < |front| ==> chain[i] == front[i];
    if w.previousInstant.Some? && e.Stub? {
      var i :| 0 <= i < |front| && front[i].Act? && front[i].published == w.previousInstant.value;
      assert chain[i].Act?;
    }
  }

  lemma InstantsRise(front: seq<Entry>, w: Walk, e: Entry)
    requires Remembers(front, w) && e.Act?
    ensures (w.previousInstant.Some? ==> e.published >= w.previousInstant.value)
            <==> (forall i :: 0 <= i < |front| && front[i].Act? ==> front[i].published <= e.published)
  {
  }

  lemma LinkedNext(front: seq<Entry>, w: Walk, e: Entry)
    requires Remembers(front, w)
    ensures Linked(front + [e], |front|) <==>
              match e
              case Stub(declared) => WellFormedDigest(declared)
              case Act(_, prev, _, _) => if front == [] then prev.None? else prev == w.previousDigest
  {
    assert front != [] ==> (front + [e])[|front| - 1] == front[|front| - 1];
  }

  /** One more entry passes exactly when it keeps the chain intact. */
  lemma PassesStep(front: seq<Entry>, w: Walk, e: Entry)
    requires AllOk(w.checks) && Intact(front) && Remembers(front, w)
    ensures AllOk(WalkStep(w, |front|, e).checks) <==> Intact(front + [e])
  {
    var chain := front + [e];
    assert chain[..|front|] == front;
    IntactSnoc(chain);
    StepChecks(w, |front|, e);
    LinkedNext(front, w, e);
    assert forall i :: 0 <= i < |front| ==> chain[i] == front[i];
    if e.Act? {
      InstantsRise(front, w, e);
    }
  }

  lemma PassesBefore(chain: seq<Entry>)
    requires chain != [] && Passes(chain)
    ensures Passes(chain[..|chain|-1])
  {
    StepChecks(WalkOf(chain[..|chain|-1]), |chain| - 1, chain[|chain|-1]);
  }

  lemma {:induction false} PassesIsIntactAux(chain: seq<Entry>)
    ensures Passes(chain) <==> Intact(chain)
    ensures Passes(chain) ==> Remembers(chain, WalkOf(chain))
  {
    if chain != [] {
      var front := chain[..|chain|-1];
      PassesIsIntactAux(front);
      var w, e := WalkOf(front), chain[|chain|-1];
      assert front + [e] == chain;
      if Passes(front) {
        PassesStep(front, w, e);
        if Passes(chain) {
          StepChecks(w, |front|, e);
          RemembersStep(front, w, e);
        }
      } else {
        if Passes(chain) {
          PassesBefore(chain);
        }
        IntactSnoc(chain);
      }
    }
  }

  lemma StepChecks(w: Walk, index: nat, e: Entry)
    ensures AllOk(WalkStep(w, index, e).checks) <==>
              AllOk(w.checks)
              && match e
                 case Stub(declared) => WellFormedDigest(declared)
                 case Act(_, prev, published, _) =>
                   && (w.previousInstant.Some? ==> published >= w.previousInstant.value)
                   && (if index == 0 then prev.None? else prev == w.previousDigest)
  {
    var more := match e
                case Stub(declared) => [Check(StubDeclaresDigest, index, WellFormedDigest(declared))]
                case Act(_, _, _, _) => InstantCheck(w, index, e) + [LinkCheck(w, index, e)];
    assert WalkStep(w, index, e).checks == w.checks + more;
    assert AllOk(more) <==> forall i :: 0 <= i < |more| ==> more[i].ok;
  }

  /** The recorded checks all hold exactly when the chain is intact. */
  lemma PassesIffIntact(chain: seq<Entry>)
    ensures Passes(chain) <==> Intact(chain)
  {
    PassesIsIntactAux(chain);
  }

  // ---- one history

  ghost predicate StubFree(chain: seq<Entry>) {
    forall i :: 0 <= i < |chain| ==> chain[i].Act?
  }

  /** No two different disclosed activities of two chains share a digest. */
  ghost predicate CollisionFree(c: seq<Entry>, d: seq<Entry>) {
    forall a, b :: a in c && b in d && a.Act? && b.Act? && a.digest == b.digest ==> a == b
  }

  lemma PrefixIntact(chain: seq<Entry>, n: nat)
    requires n <= |chain| && Intact(chain)
    ensures Intact(chain[..n])
  {
    forall i | 0 <= i < n ensures Linked(chain[..n], i) {
      assert Linked(chain, i);
    }
  }

  /** From position `m` on, nothing is redacted. */
  ghost predicate DisclosedFrom(chain: seq<Entry>, m: nat) {
    forall i :: m <= i < |chain| ==> chain[i].Act?
  }

  ghost predicate SameTail(c: seq<Entry>, d: seq<Entry>, k: nat)
    requires k <= |c| && k <= |d|
  {
    forall i :: |c| - k <= i < |c| ==> c[i] == d[i + |d| - |c|]
  }

  /** The digest the entries before position `m` lead up to. */
  function NamesBefore(c: seq<Entry>, m: nat): Option<string>
    requires m <= |c|
  {
    if m == 0 then None else c[m-1].Names()
  }

  lemma EarlierNames(c: seq<Entry>, m: nat)
    requires Intact(c) && m < |c| && c[m].Act?
    ensures NamesBefore(c, m) == c[m].prev
    ensures m == 0 <==> c[m].prev.None?
  {
    assert Linked(c, m);
    if m > 0 {
      assert Linked(c, m - 1);
    }
  }

  lemma SameEntry(c: seq<Entry>, d: seq<Entry>, m: nat, n: nat)
    requires Intact(c) && Intact(d) && CollisionFree(c, d)
    requires m < |c| && n < |d| && c[m].Act? && d[n].Act?
    requires NamesBefore(c, m + 1) == NamesBefore(d, n + 1)
    ensures c[m] == d[n] && NamesBefore(c, m) == NamesBefore(d, n) && (m == 0 <==> n == 0)
  {
    assert c[m] in c && d[n] in d && c[m].digest == d[n].digest;
    EarlierNames(c, m);
    EarlierNames(d, n);
  }

  lemma {:induction false} AgreeAux(c: seq<Entry>, d: seq<Entry>, k: nat)
    requires Intact(c) && Intact(d) && CollisionFree(c, d)
    requires ChainHeadDigest(c) == ChainHeadDigest(d) && c != [] && d != []
    requires k <= |c| && k <= |d| && DisclosedFrom(c, |c| - k) && DisclosedFrom(d, |d| - k)
    ensures SameTail(c, d, k)
    ensures NamesBefore(c, |c| - k) == NamesBefore(d, |d| - k)
    ensures k == |c| <==> k == |d|
    decreases k
  {
    if k > 0 {
      var m, n := |c| - k, |d| - k;
      AgreeAux(c, d, k - 1);
      SameEntry(c, d, m, n);
    }
  }

  /** With redactions: two passing chains with one head agree on their last `k` entries as far
      back as neither is redacted, and on the digest expected just before. */
  lemma AgreeBackToStub(c: seq<Entry>, d: seq<Entry>, k: nat)
    requires Passes(c) && Passes(d) && CollisionFree(c, d)
    requires ChainHeadDigest(c) == ChainHeadDigest(d) && c != [] && d != []
    requires k <= |c| && k <= |d| && DisclosedFrom(c, |c| - k) && DisclosedFrom(d, |d| - k)
    ensures SameTail(c, d, k)
    ensures NamesBefore(c, |c| - k) == NamesBefore(d, |d| - k)
    ensures k == |c| <==> k == |d|
  {
    PassesIffIntact(c);
    PassesIffIntact(d);
    AgreeAux(c, d, k);
  }

  lemma UniqueAux(c: seq<Entry>, d: seq<Entry>)
    requires Intact(c) && Intact(d) && StubFree(c) && StubFree(d) && CollisionFree(c, d)
    requires c != [] && d != [] && ChainHeadDigest(c) == ChainHeadDigest(d)
    ensures c == d
  {
    AgreeAux(c, d, if |c| <= |d| then |c| else |d|);
  }

  /** Two unredacted passing chains with one head are the same chain. */
  lemma UniqueHistory(c: seq<Entry>, d: seq<Entry>)
    requires Passes(c) && Passes(d) && StubFree(c) && StubFree(d) && CollisionFree(c, d)
    requires c != [] && d != [] && ChainHeadDigest(c) == ChainHeadDigest(d)
    ensures c == d
  {
    PassesIffIntact(c);
    PassesIffIntact(d);
    UniqueAux(c, d);
  }

  lemma {:induction false} DistinctAux(c: seq<Entry>, i: nat, j: nat)
    requires Intact(c) && StubFree(c) && CollisionFree(c, c)
    requires i < j < |c|
    ensures c[i].digest != c[j].digest
    decreases i
  {
    if c[i].digest == c[j].digest {
      assert c[i] in c && c[j] in c;
      EarlierNames(c, i);
      EarlierNames(c, j);
      if i > 0 {
        DistinctAux(c, i - 1, j - 1);
      }
    }
  }

  /** No activity occurs twice on an unredacted passing chain. */
  lemma DigestsAreDistinct(c: seq<Entry>, i: nat, j: nat)
    requires Passes(c) && StubFree(c) && CollisionFree(c, c)
    requires i < j < |c|
    ensures c[i].digest != c[j].digest
  {
    PassesIffIntact(c);
    DistinctAux(c, i, j);
  }

  lemma SamePosition(c: seq<Entry>, i: nat, j: nat)
    requires Intact(c) && StubFree(c) && CollisionFree(c, c)
    requires i < |c| && j < |c| && c[i].digest == c[j].digest
    ensures i == j
  {
    if i < j {
      DistinctAux(c, i, j);
    } else if j < i {
      DistinctAux(c, j, i);
    }
  }

  lemma {:induction false} RearrangementAux(c: seq<Entry>, d: seq<Entry>)
    requires Intact(c) && Intact(d) && StubFree(c) && CollisionFree(c, c)
    requires forall e :: e in d ==> e in c
    ensures d <= c
  {
    if d != [] {
      var k := |d| - 1;
      PrefixIntact(d, k);
      RearrangementAux(c, d[..k]);
      assert d[k] in c;
      var j :| 0 <= j < |c| && c[j] == d[k];
      EarlierNames(c, j);
      EarlierNames(d, k);
      if k > 0 {
        assert d[..k][k-1] == c[k-1];
        SamePosition(c, j - 1, k - 1);
      }
      assert d == d[..k] + [d[k]];
    }
  }

  /** Any passing chain made only of a passing chain's activities is a prefix of it: nothing
      can be removed from the middle, repeated or put in another order. */
  lemma RearrangementIsPrefix(c: seq<Entry>, d: seq<Entry>)
    requires Passes(c) && Passes(d) && StubFree(c) && CollisionFree(c, c)
    requires forall e :: e in d ==> e in c
    ensures d <= c
  {
    PassesIffIntact(c);
    PassesIffIntact(d);
    RearrangementAux(c, d);
  }

  /** Dropping any activity but the newest is detected. */
  lemma DeletionIsDetected(c: seq<Entry>, i: nat)
    requires Passes(c) && StubFree(c) && CollisionFree(c, c)
    requires i < |c| - 1
    ensures !Passes(c[..i] + c[i+1..])
  {
    var d := c[..i] + c[i+1..];
    DigestsAreDistinct(c, i, i + 1);
    assert d[i] == c[i+1];
    if Passes(d) {
      RearrangementIsPrefix(c, d);
    }
  }

  /** Any other order of the same activities is detected. */
  lemma ReorderingIsDetected(c: seq<Entry>, d: seq<Entry>)
    requires Passes(c) && StubFree(c) && CollisionFree(c, c)
    requires multiset(c) == multiset(d) && c != d
    ensures !Passes(d)
  {
    assert |multiset(c)| == |c| && |multiset(d)| == |d|;
    forall e | e in d ensures e in c {
      assert e in multiset(d);
    }
    if Passes(d) {
      RearrangementIsPrefix(c, d);
    }
  }

  // ---- lawful redaction

  /** Replaces the activities at `hidden` by stubs that declare their digests. */
  function Redact(chain: seq<Entry>, hidden: set<nat>): seq<Entry> {
    seq(|chain|, i requires 0 <= i < |chain| =>
      if i in hidden && chain[i].Act? then Stub(Some(chain[i].digest)) else chain[i])
  }

  /** Redaction is transparent: whatever is withheld, a passing chain still passes and keeps its head. */
  lemma RedactionIsTransparent(chain: seq<Entry>, hidden: set<nat>)
    requires Passes(chain)
    ensures Passes(Redact(chain, hidden))
    ensures ChainHeadDigest(Redact(chain, hidden)) == ChainHeadDigest(chain)
  {
    var r := Redact(chain, hidden);
    PassesIffIntact(chain);
    PassesIffIntact(r);
    forall i | 0 <= i < |chain| ensures r[i].Names() == chain[i].Names() {}
    forall i | 0 <= i < |r| ensures Linked(r, i) {
      assert Linked(chain, i);
    }
  }

  /** The limit of that: a stub's own backward link is withheld with it, so a further stub can be
      slipped in exactly at the end, before another stub, or where it names the expected digest. */
  lemma ExtraStubPassesExactlyWhere(chain: seq<Entry>, i: nat, declared: Digest)
    requires Passes(chain) && i <= |chain|
    ensures Passes(chain[..i] + [Stub(Some(declared))] + chain[i..]) <==>
              i == |chain| || chain[i].Stub? || chain[i].prev == Some(declared)
  {
    var padded := chain[..i] + [Stub(Some(declared))] + chain[i..];
    PassesIffIntact(chain);
    PassesIffIntact(padded);
    PaddedLinks(chain, i, declared);
    PaddedInstants(chain, i, declared);
    if i < |chain| {
      assert Linked(padded, i + 1) ==> chain[i].Stub? || chain[i].prev == Some(declared);
    }
  }

  /** Every entry of the padded chain but the one after the added stub is linked as before. */
  lemma PaddedLinks(chain: seq<Entry>, i: nat, declared: Digest)
    requires Intact(chain) && i <= |chain|
    ensures var padded := chain[..i] + [Stub(Some(declared))] + chain[i..];
            && (forall j :: 0 <= j < |padded| && j != i + 1 ==> Linked(padded, j))
            && (i < |chain| ==> (Linked(padded, i + 1) <==> chain[i].Stub? || chain[i].prev == Some(declared)))
  {
    var padded := chain[..i] + [Stub(Some(declared))] + chain[i..];
    forall j | 0 <= j < |padded| && j != i + 1 ensures Linked(padded, j) {
      if j < i {
        assert Linked(chain, j) && padded[j] == chain[j] && (j > 0 ==> padded[j-1] == chain[j-1]);
      } else if j > i {
        assert Linked(chain, j - 1) && padded[j] == chain[j-1] && padded[j-1] == chain[j-2];
      }
    }
    if i < |chain| {
      assert padded[i+1] == chain[i] && padded[i] == Stub(Some(declared)) && Linked(chain, i);
    }
  }

  lemma PaddedInstants(chain: seq<Entry>, i: nat, declared: Digest)
    requires Intact(chain) && i <= |chain|
    ensures var padded := chain[..i] + [Stub(Some(declared))] + chain[i..];
            forall j, k :: 0 <= j < k < |padded| && padded[j].Act? && padded[k].Act?
              ==> padded[j].published <= padded[k].published
  {
    var padded := chain[..i] + [Stub(Some(declared))] + chain[i..];
    assert forall j :: 0 <= j < i ==> padded[j] == chain[j];
    assert forall j :: i < j < |padded| ==> padded[j] == chain[j-1];
  }
}
