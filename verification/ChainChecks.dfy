/** Which finding the chain check records for each entry, on any chain, passing or not. */
module ChainChecks {
  import opened Prelude
  import opened Chain

  /** The nearest disclosed entry before position `i`. */
  ghost predicate NearestDisclosed(chain: seq<Entry>, i: int, j: int) {
    0 <= j < i <= |chain| && chain[j].Act? && forall k :: j < k < i ==> chain[k].Stub?
  }

  /** The nearest entry before position `i` whose digest is known: disclosed, or declared by a stub. */
  ghost predicate NearestKnown(chain: seq<Entry>, i: int, j: int) {
    && 0 <= j < i <= |chain|
    && (chain[j].Stub? ==> chain[j].declared.Some?)
    && forall k :: j < k < i ==> chain[k] == Stub(None)
  }

  ghost predicate NothingKnown(chain: seq<Entry>, i: int) {
    forall j :: 0 <= j < i <= |chain| ==> chain[j] == Stub(None)
  }

  ghost predicate NothingDisclosed(chain: seq<Entry>, i: int) {
    forall j :: 0 <= j < i <= |chain| ==> chain[j].Stub?
  }

  /** The digest an activity at `i` has to name. */
  ghost predicate Expected(chain: seq<Entry>, i: int, d: Option<string>) {
    && (forall j :: NearestKnown(chain, i, j) ==>
          d == if chain[j].Act? then Some(chain[j].digest) else chain[j].declared)
    && (NothingKnown(chain, i) ==> d == None)
  }

  ghost predicate LatestInstant(chain: seq<Entry>, i: int, t: Option<int>) {
    && (forall j :: NearestDisclosed(chain, i, j) ==> chain[j].Act? && t == Some(chain[j].published))
    && (NothingDisclosed(chain, i) ==> t == None)
  }

  lemma UnknownIsPassed(chain: seq<Entry>, k: nat, n: nat)
    requires n == k + 1 <= |chain| && chain[k] == Stub(None)
    ensures forall j :: NearestKnown(chain, n, j) ==> NearestKnown(chain, k, j)
    ensures NothingKnown(chain, n) ==> NothingKnown(chain, k)
  {
  }

  lemma KnownIsNearest(chain: seq<Entry>, k: nat, n: nat)
    requires n == k + 1 <= |chain| && chain[k] != Stub(None)
    ensures forall j :: NearestKnown(chain, n, j) ==> j == k
    ensures !NothingKnown(chain, n)
  {
  }

  lemma ExpectedNext(chain: seq<Entry>, k: nat, d: Option<string>)
    requires k < |chain| && Expected(chain, k, d)
    ensures Expected(chain, k + 1, if chain[k].Names().Some? then chain[k].Names() else d)
  {
    if chain[k] == Stub(None) {
      UnknownIsPassed(chain, k, k + 1);
    } else {
      KnownIsNearest(chain, k, k + 1);
    }
  }

  lemma StubIsPassed(chain: seq<Entry>, k: nat, n: nat)
    requires n == k + 1 <= |chain| && chain[k].Stub?
    ensures forall j :: NearestDisclosed(chain, n, j) ==> NearestDisclosed(chain, k, j)
    ensures NothingDisclosed(chain, n) ==> NothingDisclosed(chain, k)
  {
  }

  lemma DisclosedIsNearest(chain: seq<Entry>, k: nat, n: nat)
    requires n == k + 1 <= |chain| && chain[k].Act?
    ensures forall j :: NearestDisclosed(chain, n, j) ==> j == k
    ensures !NothingDisclosed(chain, n)
  {
  }

  lemma LatestNext(chain: seq<Entry>, k: nat, t: Option<int>)
    requires k < |chain| && LatestInstant(chain, k, t)
    ensures LatestInstant(chain, k + 1, if chain[k].Act? then Some(chain[k].published) else t)
  {
    if chain[k].Stub? {
      StubIsPassed(chain, k, k + 1);
    } else {
      DisclosedIsNearest(chain, k, k + 1);
    }
  }

  lemma {:induction false} WalkExpects(chain: seq<Entry>, k: nat)
    requires k <= |chain|
    ensures Expected(chain, k, WalkOf(chain[..k]).previousDigest)
    ensures LatestInstant(chain, k, WalkOf(chain[..k]).previousInstant)
    ensures k > 0 ==> WalkOf(chain[..k]).afterStub == chain[k-1].Stub?
  {
    if k > 0 {
      assert chain[..k][..k-1] == chain[..k-1];
      WalkExpects(chain, k - 1);
      ExpectedNext(chain, k - 1, WalkOf(chain[..k-1]).previousDigest);
      LatestNext(chain, k - 1, WalkOf(chain[..k-1]).previousInstant);
    }
  }

  /** The findings on one entry, read off the entries before it. */
  ghost predicate FindingsOn(chain: seq<Entry>, i: nat, found: seq<Check>)
    requires i < |chain|
  {
    match chain[i]
    case Stub(declared) => found == [Check(StubDeclaresDigest, i, declared.Some? && "sha256:" <= declared.value)]
    case Act(_, _, _, _) => DisclosedOn(chain, i, found)
  }

  ghost predicate DisclosedOn(chain: seq<Entry>, i: nat, found: seq<Check>)
    requires i < |chain| && chain[i].Act?
  {
    exists d, t :: Expected(chain, i, d) && LatestInstant(chain, i, t) && found == DisclosedFindings(chain, i, d, t)
  }

  /** A disclosed entry must not be dated before the latest disclosed one, and must start the chain,
      or name the expected digest behind a stub or behind its predecessor. */
  ghost function DisclosedFindings(chain: seq<Entry>, i: nat, d: Option<string>, t: Option<int>): seq<Check>
    requires i < |chain| && chain[i].Act?
  {
    (if t.Some? then [Check(DoesNotDecrease, i, t.value <= chain[i].published)] else [])
    + [if i == 0 then Check(StartsChain, 0, chain[0].prev.None?)
       else if chain[i-1].Stub? then Check(LinksToRedaction, i, chain[i].prev == d)
       else Check(LinksToPredecessor, i, chain[i].prev == d)]
  }

  ghost function AllFindings(found: seq<seq<Check>>): seq<Check> {
    if found == [] then [] else AllFindings(found[..|found|-1]) + found[|found|-1]
  }

  /** What the walk adds to the record at an entry. */
  ghost function AddedAt(chain: seq<Entry>, i: nat): seq<Check>
    requires i < |chain|
  {
    var w := WalkOf(chain[..i]);
    match chain[i]
    case Stub(declared) => [Check(StubDeclaresDigest, i, WellFormedDigest(declared))]
    case Act(_, _, _, _) => InstantCheck(w, i, chain[i]) + [LinkCheck(w, i, chain[i])]
  }

  lemma AddedMeans(chain: seq<Entry>, i: nat)
    requires i < |chain|
    ensures FindingsOn(chain, i, AddedAt(chain, i))
  {
    var w := WalkOf(chain[..i]);
    WalkExpects(chain, i);
    if chain[i].Act? {
      assert AddedAt(chain, i) == DisclosedFindings(chain, i, w.previousDigest, w.previousInstant);
    }
  }

  lemma WalkAdds(chain: seq<Entry>, i: nat, n: nat)
    requires n == i + 1 <= |chain|
    ensures WalkOf(chain[..n]).checks == WalkOf(chain[..i]).checks + AddedAt(chain, i)
  {
    var w, e := WalkOf(chain[..i]), chain[i];
    assert chain[..n][..i] == chain[..i];
    if e.Act? {
      ConcatAssociates(w.checks, InstantCheck(w, i, e), [LinkCheck(w, i, e)]);
    }
  }

  ghost function AddedUpTo(chain: seq<Entry>, n: nat): seq<seq<Check>>
    requires n <= |chain|
  {
    seq(n, i requires 0 <= i < n => AddedAt(chain, i))
  }

  lemma {:induction false} RecordIsAdded(chain: seq<Entry>, n: nat)
    requires n <= |chain|
    ensures WalkOf(chain[..n]).checks == AllFindings(AddedUpTo(chain, n))
  {
    if n > 0 {
      var k := n - 1;
      RecordIsAdded(chain, k);
      WalkAdds(chain, k, n);
      assert AddedUpTo(chain, n)[..k] == AddedUpTo(chain, k);
    }
  }

  /** The record of a chain check, entry by entry, on any chain. */
  lemma RecordMeans(chain: seq<Entry>) returns (found: seq<seq<Check>>)
    ensures |found| == |chain| && WalkOf(chain).checks == AllFindings(found)
    ensures forall i :: 0 <= i < |chain| ==> FindingsOn(chain, i, found[i])
  {
    found := AddedUpTo(chain, |chain|);
    assert chain[..|chain|] == chain;
    RecordIsAdded(chain, |chain|);
    forall i | 0 <= i < |chain| ensures FindingsOn(chain, i, found[i]) {
      AddedMeans(chain, i);
    }
  }

  lemma {:induction false} NearestKnownExists(chain: seq<Entry>, i: nat)
    requires i <= |chain|
    ensures (exists j :: NearestKnown(chain, i, j)) || NothingKnown(chain, i)
    ensures (exists j :: NearestDisclosed(chain, i, j)) || NothingDisclosed(chain, i)
  {
    if i > 0 {
      var h: nat := i - 1;
      NearestKnownExists(chain, h);
      if chain[i - 1] != Stub(None) {
        assert NearestKnown(chain, i, i - 1);
      } else {
        if j :| NearestKnown(chain, h, j) {
          assert NearestKnown(chain, i, j);
        }
      }
      if chain[i - 1].Act? {
        assert NearestDisclosed(chain, i, i - 1);
      } else {
        if j :| NearestDisclosed(chain, h, j) {
          assert NearestDisclosed(chain, i, j);
        }
      }
    }
  }

  /** What is expected at a position is one digest, and the latest instant one instant. */
  lemma ExpectedIsOne(chain: seq<Entry>, i: nat, d: Option<string>, e: Option<string>, t: Option<int>, u: Option<int>)
    requires i <= |chain|
    ensures Expected(chain, i, d) && Expected(chain, i, e) ==> d == e
    ensures LatestInstant(chain, i, t) && LatestInstant(chain, i, u) ==> t == u
  {
    NearestKnownExists(chain, i);
  }
}
