/** What a recomputed summary says of the activities' own fields. */
module SummaryMeaning {
  import opened Prelude
  import opened Ordering
  import opened Arithmetic
  import opened Sums
  import opened HubSlice
  import opened Contribution
  import opened Summary
  import opened SummaryTheorems
  import opened SummaryOrder

  // ---- the join of settlements and Results

  predicate IsAnnounce(a: Activity, task: string) {
    a.payload.Task? && a.payload.id == task
  }

  /** The last announce of the task in the pool is on the thread. */
  ghost predicate Announces(pool: seq<Activity>, task: string, thread: string) {
    exists i :: && 0 <= i < |pool| && IsAnnounce(pool[i], task) && pool[i].context == Some(thread)
                && forall j :: i < j < |pool| ==> !IsAnnounce(pool[j], task)
  }

  /** `r` is work on the task that `s` settles, and the scope lets it be read. */
  ghost predicate Joins(pool: seq<Activity>, scope: set<string>, s: Activity, r: Activity) {
    && s.payload.Settlement? && r.payload.Result?
    && r in pool && r.visibility in scope
    && r.context.Some? && Announces(pool, s.payload.task, r.context.value)
  }

  lemma {:induction false} ThreadMeans(pool: seq<Activity>, task: string, thread: string)
    ensures ThreadOf(Threads(pool), task) == Some(thread) <==> Announces(pool, task, thread)
  {
    if pool != [] {
      var k := |pool| - 1;
      var before := pool[..k];
      ThreadMeans(before, task, thread);
      assert forall i :: 0 <= i < k ==> pool[i] == before[i];
      if IsAnnounce(pool[k], task) {
        assert Announces(pool, task, thread) <==> pool[k].context == Some(thread);
      } else {
        assert Announces(pool, task, thread) <==> Announces(before, task, thread);
      }
    }
  }

  lemma JoinMeans(pool: seq<Activity>, scope: set<string>, s: Activity, r: Activity)
    requires s.payload.Settlement?
    ensures r in ResultsOn(pool, ThreadOf(Threads(pool), s.payload.task), scope) <==> Joins(pool, scope, s, r)
  {
    ResultsAreInPool(pool, ThreadOf(Threads(pool), s.payload.task), scope);
    if r.context.Some? {
      ThreadMeans(pool, s.payload.task, r.context.value);
    }
  }

  /** A digest is an input exactly when it is that of a settlement of the period or of work on a task
      that one settles. */
  lemma {:induction false} InputsMean(pool: seq<Activity>, scope: set<string>, operators: map<string, string>,
                                      slice: seq<Activity>, d: string)
    ensures d in SliceFold(pool, scope, operators, slice).inputs <==>
              exists s :: s in slice && s.payload.Settlement? && InputOf(pool, scope, s, d)
  {
    if slice != [] {
      var k := |slice| - 1;
      var s := slice[k];
      InputsMean(pool, scope, operators, slice[..k], d);
      assert slice == slice[..k] + [s];
      if s.payload.Settlement? {
        var thread := ThreadOf(Threads(pool), s.payload.task);
        var before := SliceFold(pool, scope, operators, slice[..k]);
        FoldInputs(before.(inputs := before.inputs + {s.digest}), operators, Superseded(pool, thread),
                   ResultsOn(pool, thread, scope));
        ReadDigestsMean(pool, scope, s, d);
      }
    }
  }

  ghost predicate InputOf(pool: seq<Activity>, scope: set<string>, s: Activity, d: string) {
    s.digest == d || exists r :: Joins(pool, scope, s, r) && r.digest == d
  }

  lemma ReadDigestsMean(pool: seq<Activity>, scope: set<string>, s: Activity, d: string)
    requires s.payload.Settlement?
    ensures d in DigestsOf(ResultsOn(pool, ThreadOf(Threads(pool), s.payload.task), scope))
            <==> exists r :: Joins(pool, scope, s, r) && r.digest == d
  {
    var results := ResultsOn(pool, ThreadOf(Threads(pool), s.payload.task), scope);
    DigestsMean(results, d);
    forall r ensures r in results <==> Joins(pool, scope, s, r) {
      JoinMeans(pool, scope, s, r);
    }
  }

  // ---- credit

  /** Whom an agent's credit goes to. */
  ghost predicate GoesTo(operators: map<string, string>, agent: string, operator: string) {
    if agent in operators then operator == operators[agent] else operator == agent
  }

  /** What one credit row is worth over a denominator, to one operator. */
  ghost function RowTo(operators: map<string, string>, operator: string, d: int): Row -> int {
    (row: Row) => if GoesTo(operators, row.agent, operator) && row.own > 0 then row.share * d / row.own else 0
  }

  /** What a Result is worth to an operator if it is work on what `s` settles. */
  ghost function WorkTo(pool: seq<Activity>, scope: set<string>, operators: map<string, string>, operator: string,
                        d: int, s: Activity): Activity -> int {
    (r: Activity) => if Joins(pool, scope, s, r) then SumBy(RowTo(operators, operator, d), CreditOf(r.payload)) else 0
  }

  ghost function SettledTo(pool: seq<Activity>, scope: set<string>, operators: map<string, string>, operator: string,
                           d: int): Activity -> int {
    (s: Activity) => SumBy(WorkTo(pool, scope, operators, operator, d, s), pool)
  }

  lemma {:induction false} SumByAgrees<T>(f: T -> int, g: T -> int, s: seq<T>)
    requires forall x :: x in s ==> f(x) == g(x)
    ensures SumBy(f, s) == SumBy(g, s)
  {
    if s != [] {
      SumByAgrees(f, g, s[..|s|-1]);
      assert s[|s|-1] in s;
    }
  }

  /** The rows of the filtered Results, as a sum over the whole pool. */
  lemma {:induction false} FilteredSum(f: Row -> int, test: Activity -> bool, work: Activity -> int,
                                       pool: seq<Activity>)
    requires forall r :: r in pool ==> work(r) == if test(r) then SumBy(f, CreditOf(r.payload)) else 0
    ensures SumBy(f, CreditsOf(Filter(test, pool))) == SumBy(work, pool)
  {
    if pool != [] {
      var k := |pool| - 1;
      var before := Filter(test, pool[..k]);
      FilteredSum(f, test, work, pool[..k]);
      assert pool[k] in pool;
      if test(pool[k]) {
        assert (before + [pool[k]])[..|before|] == before;
        SumByConcat(f, CreditsOf(before), CreditOf(pool[k].payload));
      } else {
        assert Filter(test, pool) == before;
      }
    }
  }

  lemma {:induction false} ZeroSum<T>(f: T -> int, s: seq<T>)
    requires forall x :: x in s ==> f(x) == 0
    ensures SumBy(f, s) == 0
  {
    if s != [] {
      ZeroSum(f, s[..|s|-1]);
      assert s[|s|-1] in s;
    }
  }

  lemma SettlementMeans(pool: seq<Activity>, scope: set<string>, operators: map<string, string>, operator: string,
                        d: int, s: Activity)
    ensures SumBy(RowTo(operators, operator, d), RowsFor(pool, scope, s))
         == SumBy(WorkTo(pool, scope, operators, operator, d, s), pool)
  {
    var f, work := RowTo(operators, operator, d), WorkTo(pool, scope, operators, operator, d, s);
    if s.payload.Settlement? {
      var thread := ThreadOf(Threads(pool), s.payload.task);
      forall r | r in pool
        ensures Joins(pool, scope, s, r) <==> thread.Some? && Readable(thread.value, scope, r)
      {
        JoinMeans(pool, scope, s, r);
        ResultsAreInPool(pool, thread, scope);
      }
      if thread.Some? {
        FilteredSum(f, ReadableIn(thread.value, scope), work, pool);
      } else {
        ZeroSum(work, pool);
      }
    } else {
      ZeroSum(work, pool);
    }
  }

  lemma {:induction false} PeriodMeans(pool: seq<Activity>, scope: set<string>, operators: map<string, string>,
                                       operator: string, d: int, slice: seq<Activity>)
    ensures SumBy(RowTo(operators, operator, d), RowsOf(pool, scope, slice))
         == SumBy(SettledTo(pool, scope, operators, operator, d), slice)
  {
    if slice != [] {
      var k := |slice| - 1;
      PeriodMeans(pool, scope, operators, operator, d, slice[..k]);
      SettlementMeans(pool, scope, operators, operator, d, slice[k]);
      SumByConcat(RowTo(operators, operator, d), RowsOf(pool, scope, slice[..k]), RowsFor(pool, scope, slice[k]));
    }
  }

  /** An operator's credit: for every settlement of the period, the shares of every readable Result on
      the settled task's thread, of the agents it operates, over the common denominator. */
  lemma CreditMeans(pool: seq<Activity>, scope: set<string>, operators: map<string, string>, operator: string,
                    slice: seq<Activity>)
    ensures PositiveOwns(RowsOf(pool, scope, slice))
    ensures var d := Denominator(RowsOf(pool, scope, slice));
            At(CreditedOf(RowsOf(pool, scope, slice), operators, d), operator)
            == SumBy(SettledTo(pool, scope, operators, operator, d), slice)
  {
    var rows := RowsOf(pool, scope, slice);
    RowsOfArePositive(pool, scope, slice);
    var d := Denominator(rows);
    CreditedIsSum(rows, operators, d, operator);
    forall row | row in rows ensures WorthTo(operators, operator, d)(row) == RowTo(operators, operator, d)(row) {
      assert row.own > 0;
    }
    SumByAgrees(WorthTo(operators, operator, d), RowTo(operators, operator, d), rows);
    PeriodMeans(pool, scope, operators, operator, d, slice);
  }

  ghost predicate CommonDenominator(rows: seq<Row>, m: int) {
    m > 0 && forall r :: r in rows ==> Divides(r.own, m)
  }

  /** The summary's denominator is the least positive number every credited row's own one divides. */
  lemma DenominatorMeans(rows: seq<Row>)
    requires PositiveOwns(rows)
    ensures CommonDenominator(rows, Denominator(rows))
    ensures forall m :: CommonDenominator(rows, m) ==> Denominator(rows) <= m
  {
    OwnsDivideDenominator(rows);
    LcmAllDivides(Owns(rows));
    forall m | CommonDenominator(rows, m) ensures Denominator(rows) <= m {
      forall i | 0 <= i < |Owns(rows)| ensures Divides(Owns(rows)[i], m) {
        assert rows[i] in rows;
      }
      DividesPositiveLe(Denominator(rows), m);
    }
  }

  // ---- what one Result credits

  function IntegerShare(s: Share): int {
    match s.amount
    case IntVal(n) => n
    case _ => 0
  }

  /** A share that is credited: an integer, or a boolean as one or nothing. */
  predicate Shares(s: Share, agent: string, amount: int) {
    s.agent == agent && match s.amount
                        case IntVal(n) => amount == n
                        case BoolVal(b) => amount == if b then 1 else 0
                        case _ => false
  }

  lemma {:induction false} SplitRowsMean(split: seq<Share>, own: int, row: Row)
    ensures row in RowsOfSplit(split, own) <==>
              row.own == own && exists s :: s in split && Shares(s, row.agent, row.share)
  {
    if split != [] {
      var k := |split| - 1;
      SplitRowsMean(split[..k], own, row);
      assert split == split[..k] + [split[k]];
      assert Shares(split[k], row.agent, row.share) <==>
               IsInt(split[k].amount) && row.agent == split[k].agent && row.share == Amount(split[k].amount);
    }
  }

  lemma SharePreorder()
    ensures TotalPreorder(ShareLe)
  {
    StrLeTotalOrder();
  }

  /** A Result of several authors with a split credits each share of it, over the sum of its integer
      shares, and nothing when that is not positive. */
  lemma SplitMeans(agents: seq<Option<string>>, split: seq<Share>, row: Row)
    requires |agents| > 1
    ensures row in CreditOf(Result(Several(agents), Some(split))) <==>
              && row.own == SumBy(IntegerShare, split) && row.own > 0
              && exists s :: s in split && Shares(s, row.agent, row.share)
  {
    SumByAgrees(Counted, IntegerShare, split);
    SharePreorder();
    SortProperties(ShareLe, split);
    SplitRowsMean(Sort(ShareLe, split), SumBy(Counted, split), row);
  }

  /** Any other Result is one whole of its author, or of the first of its authors; without a named
      author it credits nobody. */
  lemma WholeMeans(authors: Attribution, split: Option<seq<Share>>)
    requires authors.Several? && |authors.agents| > 1 ==> split.None?
    ensures CreditOf(Result(authors, split))
         == match authors
            case Single(agent) => [Row(agent, 1, 1)]
            case Several(agents) => if agents != [] && agents[0].Some? then [Row(agents[0].value, 1, 1)] else []
            case Unattributed => []
  {
  }

  // ---- unreadable and qualified work

  /** An operator an unreadable settlement is put down to: that of an agent it names, or when it names
      none that of `unattributed`. */
  ghost predicate PutDownTo(operators: map<string, string>, settled: seq<Option<string>>, operator: string) {
    || (exists agent :: Some(agent) in settled && GoesTo(operators, agent, operator))
    || ((forall agent :: Some(agent) !in settled) && GoesTo(operators, "unattributed", operator))
  }

  lemma {:induction false} NamedMean(settled: seq<Option<string>>, agent: string)
    ensures agent in NamedAgents(settled) <==> Some(agent) in settled
  {
    if settled != [] {
      var k := |settled| - 1;
      NamedMean(settled[..k], agent);
      assert settled == settled[..k] + [settled[k]];
    }
  }

  lemma AttributedMeans(operators: map<string, string>, settled: seq<Option<string>>, operator: string)
    ensures operator in Attributed(operators, settled) <==> PutDownTo(operators, settled, operator)
  {
    var named := NamedAgents(settled);
    forall agent
      ensures agent in named <==> Some(agent) in settled
      ensures GoesTo(operators, agent, operator) <==> OperatorOf(operators, agent) == operator
    {
      NamedMean(settled, agent);
    }
    if named == [] {
      assert "unattributed" in ["unattributed"];
    } else {
      assert named[0] in named;
    }
    CreditedToMeans(operators, if named == [] then ["unattributed"] else named, operator);
  }

  lemma CreditedToMeans(operators: map<string, string>, agents: seq<string>, operator: string)
    ensures operator in OperatorsIn(operators, agents) <==> exists a :: a in agents && GoesTo(operators, a, operator)
  {
    forall a ensures GoesTo(operators, a, operator) <==> OperatorOf(operators, a) == operator {}
  }

  /** A settlement of the period whose work nobody can read, put down to an operator. */
  ghost function UnreadFor(pool: seq<Activity>, scope: set<string>, operators: map<string, string>, operator: string)
    : Activity -> int
  {
    (s: Activity) =>
      if s.payload.Settlement? && (forall r :: !Joins(pool, scope, s, r))
          && PutDownTo(operators, s.payload.settled, operator)
      then 1 else 0
  }

  lemma NothingReadMeans(pool: seq<Activity>, scope: set<string>, s: Activity)
    requires s.payload.Settlement?
    ensures ResultsOn(pool, ThreadOf(Threads(pool), s.payload.task), scope) == []
        <==> forall r :: !Joins(pool, scope, s, r)
  {
    var results := ResultsOn(pool, ThreadOf(Threads(pool), s.payload.task), scope);
    forall r ensures r in results <==> Joins(pool, scope, s, r) {
      JoinMeans(pool, scope, s, r);
    }
    if results != [] {
      assert results[0] in results;
    }
  }

  lemma {:induction false} UnreadMeans(pool: seq<Activity>, scope: set<string>, operators: map<string, string>,
                                       slice: seq<Activity>, operator: string)
    ensures UnreadCount(pool, scope, operators, slice, operator)
        == SumBy(UnreadFor(pool, scope, operators, operator), slice)
  {
    if slice != [] {
      var s := slice[|slice|-1];
      UnreadMeans(pool, scope, operators, slice[..|slice|-1], operator);
      if s.payload.Settlement? {
        NothingReadMeans(pool, scope, s);
        AttributedMeans(operators, s.payload.settled, operator);
      }
    }
  }

  /** An operator's unreadable count is the number of such settlements. */
  lemma UnreadableMeans(pool: seq<Activity>, scope: set<string>, operators: map<string, string>, slice: seq<Activity>,
                        operator: string)
    ensures At(SliceFold(pool, scope, operators, slice).unreadable, operator)
         == SumBy(UnreadFor(pool, scope, operators, operator), slice)
  {
    UnreadableIsCount(pool, scope, operators, slice, operator);
    UnreadMeans(pool, scope, operators, slice, operator);
  }

  /** Somebody superseded an answer on the Result's thread. */
  ghost predicate Withdrawn(pool: seq<Activity>, r: Activity) {
    exists a :: a in pool && a.supersedes && a.context == r.context
  }

  ghost predicate Credits(operators: map<string, string>, operator: string, r: Activity) {
    exists row :: row in CreditOf(r.payload) && GoesTo(operators, row.agent, operator)
  }

  /** Work on what `s` settles that credits the operator although its thread's answer was withdrawn. */
  ghost function QualifiedWork(pool: seq<Activity>, scope: set<string>, operators: map<string, string>,
                               operator: string, s: Activity): Activity -> int {
    (r: Activity) => if Joins(pool, scope, s, r) && Withdrawn(pool, r) && Credits(operators, operator, r) then 1 else 0
  }

  ghost function QualifiedFor(pool: seq<Activity>, scope: set<string>, operators: map<string, string>, operator: string)
    : Activity -> int
  {
    (s: Activity) => SumBy(QualifiedWork(pool, scope, operators, operator, s), pool)
  }

  lemma {:induction false} FilteredCount(f: Activity -> int, test: Activity -> bool, work: Activity -> int,
                                         pool: seq<Activity>)
    requires forall r :: r in pool ==> work(r) == if test(r) then f(r) else 0
    ensures SumBy(f, Filter(test, pool)) == SumBy(work, pool)
  {
    if pool != [] {
      var k := |pool| - 1;
      var before := Filter(test, pool[..k]);
      FilteredCount(f, test, work, pool[..k]);
      assert pool[k] in pool;
      if test(pool[k]) {
        assert (before + [pool[k]])[..|before|] == before;
      } else {
        assert Filter(test, pool) == before;
      }
    }
  }

  lemma CreditsMeans(operators: map<string, string>, operator: string, r: Activity)
    ensures QualifiedBit(operators, operator)(r) == if Credits(operators, operator, r) then 1 else 0
  {
    var rows := CreditOf(r.payload);
    CreditedToMeans(operators, CreditedAgents(rows), operator);
    if row :| row in rows && GoesTo(operators, row.agent, operator) {
      var i :| 0 <= i < |rows| && rows[i] == row;
      assert CreditedAgents(rows)[i] == row.agent;
    }
    if agent :| agent in CreditedAgents(rows) && GoesTo(operators, agent, operator) {
      var i :| 0 <= i < |rows| && CreditedAgents(rows)[i] == agent;
      assert rows[i] in rows;
    }
  }

  /** One settlement adds its qualified work. */
  lemma QualifiedStep(pool: seq<Activity>, scope: set<string>, operators: map<string, string>, operator: string,
                      t: Tally, s: Activity)
    ensures At(SliceStep(t, pool, scope, operators, s).qualified, operator)
         == At(t.qualified, operator) + QualifiedFor(pool, scope, operators, operator)(s)
  {
    var work := QualifiedWork(pool, scope, operators, operator, s);
    if s.payload.Settlement? {
      var thread := ThreadOf(Threads(pool), s.payload.task);
      var results := ResultsOn(pool, thread, scope);
      var u := t.(inputs := t.inputs + {s.digest});
      forall r | r in pool
        ensures Joins(pool, scope, s, r) <==> thread.Some? && Readable(thread.value, scope, r)
        ensures QualifiedBit(operators, operator)(r) == if Credits(operators, operator, r) then 1 else 0
        ensures Joins(pool, scope, s, r) ==> (Withdrawn(pool, r) <==> Superseded(pool, thread))
      {
        JoinMeans(pool, scope, s, r);
        ResultsAreInPool(pool, thread, scope);
        CreditsMeans(operators, operator, r);
      }
      if thread.Some? && Superseded(pool, thread) {
        FilteredCount(QualifiedBit(operators, operator), ReadableIn(thread.value, scope), work, pool);
        FoldQualified(u, operators, results, operator);
      } else {
        ZeroSum(work, pool);
        FoldInputs(u, operators, false, results);
      }
    } else {
      ZeroSum(work, pool);
    }
  }

  /** An operator's qualified count is the number of pairs of a settlement and such a Result. */
  lemma {:induction false} QualifiedMeans(pool: seq<Activity>, scope: set<string>, operators: map<string, string>,
                                          slice: seq<Activity>, operator: string)
    ensures At(SliceFold(pool, scope, operators, slice).qualified, operator)
         == SumBy(QualifiedFor(pool, scope, operators, operator), slice)
  {
    if slice != [] {
      var k := |slice| - 1;
      QualifiedMeans(pool, scope, operators, slice[..k], operator);
      QualifiedStep(pool, scope, operators, operator, SliceFold(pool, scope, operators, slice[..k]), slice[k]);
    }
  }

  // ---- operators

  /** An Enroll of the agent for the hub, as its own `afp:hub` or as its target, up to an instant. */
  ghost predicate EnrolledBy(pool: seq<Activity>, hub: string, closesAt: int, agent: string, e: Activity) {
    && e in pool && e.payload.Enroll? && e.payload.agent == Some(agent)
    && (e.payload.hub == Some(hub) || e.payload.target == Some(hub))
    && e.published <= closesAt
  }

  /** An agent has an operator exactly when some Enroll up to the close names it: the signer of one
      that no other is later than. */
  lemma OperatorMeans(pool: seq<Activity>, hub: string, closesAt: int, agent: string)
    ensures var m := OperatorsOf(pool, hub, closesAt).operators;
            && (agent in m <==> exists e :: EnrolledBy(pool, hub, closesAt, agent, e))
            && (agent in m ==>
                  exists e :: && EnrolledBy(pool, hub, closesAt, agent, e) && e.actor == m[agent]
                              && forall o :: EnrolledBy(pool, hub, closesAt, agent, o) ==> o.published <= e.published)
  {
    OperatorsMean(pool, hub, closesAt, agent);
    var st := OperatorsOf(pool, hub, closesAt);
    if agent in st.seen {
      var e :| Latest(pool, hub, closesAt, agent, e) && e.actor == st.operators[agent];
      assert EnrolledBy(pool, hub, closesAt, agent, e);
      forall o | EnrolledBy(pool, hub, closesAt, agent, o) ensures o.published <= e.published {
        assert Enrolls(hub, closesAt, agent, o);
      }
    } else {
      forall o ensures !EnrolledBy(pool, hub, closesAt, agent, o) {
        assert o in pool ==> !Enrolls(hub, closesAt, agent, o);
      }
    }
  }

  // ---- the whole summary

  /** The close of a period: the instant of its newest activity; an empty period is still open. */
  ghost predicate Closes(slice: seq<Activity>, t: int) {
    t == if slice == [] then 0x4000_0000_0000_0000 else slice[|slice|-1].published
  }

  /** The recomputed summary, field by field. */
  lemma SummaryMeans(given: seq<Activity>, frame: Frame, hub: string, slice: seq<Activity>, r: Recomputed,
                     operator: string)
    requires Recomputes(given, frame, hub, slice, r) && CollisionFree(given)
    ensures var pool := Dedup(given);
            var operators := OperatorsOf(pool, hub, ClosesAt(slice)).operators;
            && SamePool(pool, given) && NoCopies(pool) && Closes(slice, ClosesAt(slice))
            && At(r.credited, operator)
                == SumBy(SettledTo(pool, frame.scope, operators, operator, r.denominator), slice)
            && At(r.unreadable, operator) == SumBy(UnreadFor(pool, frame.scope, operators, operator), slice)
            && At(r.qualified, operator) == SumBy(QualifiedFor(pool, frame.scope, operators, operator), slice)
            && (forall d :: d in r.inputs <==>
                  exists s :: s in slice && s.payload.Settlement? && InputOf(pool, frame.scope, s, d))
  {
    var pool := Dedup(given);
    var operators := OperatorsOf(pool, hub, ClosesAt(slice)).operators;
    DedupMembers(given);
    SliceFoldRows(pool, frame.scope, operators, slice);
    CreditMeans(pool, frame.scope, operators, operator, slice);
    UnreadableMeans(pool, frame.scope, operators, slice, operator);
    QualifiedMeans(pool, frame.scope, operators, slice, operator);
    forall d ensures d in r.inputs <==>
                       exists s :: s in slice && s.payload.Settlement? && InputOf(pool, frame.scope, s, d)
    {
      InputsMean(pool, frame.scope, operators, slice, d);
    }
  }

  // ---- what does not enter

  /** A Result on the thread of no task the period settles. */
  ghost predicate Unrelated(pool: seq<Activity>, slice: seq<Activity>, x: Activity) {
    && x.payload.Result?
    && forall s :: s in slice && s.payload.Settlement? && x.context.Some?
        ==> !Announces(pool, s.payload.task, x.context.value)
  }

  lemma UnrelatedIsUnread(pool: seq<Activity>, scope: set<string>, s: Activity, x: Activity)
    requires s.payload.Settlement? && Unrelated(pool, [s], x)
    ensures Threads(pool + [x]) == Threads(pool)
    ensures var thread := ThreadOf(Threads(pool), s.payload.task);
            && ResultsOn(pool + [x], thread, scope) == ResultsOn(pool, thread, scope)
            && (thread.Some? ==> (Superseded(pool + [x], thread) <==> Superseded(pool, thread)))
  {
    var thread := ThreadOf(Threads(pool), s.payload.task);
    assert (pool + [x])[..|pool|] == pool && s in [s];
    if thread.Some? {
      ThreadMeans(pool, s.payload.task, thread.value);
      assert x.context != thread;
      FilterConcat(ReadableIn(thread.value, scope), pool, [x]);
      FilterNone(ReadableIn(thread.value, scope), [x]);
    }
  }

  lemma {:induction false} UnrelatedKeepsFold(pool: seq<Activity>, scope: set<string>, operators: map<string, string>,
                                              slice: seq<Activity>, x: Activity)
    requires Unrelated(pool, slice, x)
    ensures SliceFold(pool + [x], scope, operators, slice) == SliceFold(pool, scope, operators, slice)
  {
    if slice != [] {
      var k := |slice| - 1;
      UnrelatedKeepsFold(pool, scope, operators, slice[..k], x);
      if slice[k].payload.Settlement? {
        assert Unrelated(pool, [slice[k]], x);
        UnrelatedIsUnread(pool, scope, slice[k], x);
      }
    }
  }

  /** Adding a Result on the thread of no settled task, published by somebody else than the hub, leaves
      the recomputed summary as it is. */
  lemma UnrelatedResultIsIgnored(given: seq<Activity>, frame: Frame, hub: string, slice: seq<Activity>, r: Recomputed,
                                 x: Activity)
    requires Recomputes(given, frame, hub, slice, r) && CollisionFree(given)
    requires x.actor != frame.hub && Unrelated(Dedup(given), slice, x)
    ensures Recomputes(given + [x], frame, hub, slice, r)
  {
    var pool := Dedup(given);
    assert (given + [x])[..|given|] == given;
    DedupMembers(given);
    if !Seen(given, x.digest) {
      assert Dedup(given + [x]) == pool + [x];
      assert (pool + [x])[..|pool|] == pool;
      UnrelatedKeepsFold(pool, frame.scope, OperatorsOf(pool, hub, ClosesAt(slice)).operators, slice, x);
    }
  }
}
