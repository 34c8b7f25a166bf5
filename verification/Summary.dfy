/** `recompute`: a period's credit, unreadable work and inputs, from the pool alone. */
module Summary {
  import opened Prelude
  import opened Sums
  import opened HubSlice
  import opened Contribution

  /** The declared frame: the period `(from, to]` of a hub, and the classes a computer may read. */
  datatype Frame = Frame(hub: string, start: string, end: string, scope: set<string>)

  datatype Recomputed = Recomputed(denominator: int, credited: map<string, int>, unreadable: map<string, int>,
                                   qualified: map<string, int>, inputs: set<string>)

  const MAX_MILLIS := 0x4000_0000_0000_0000

  // ---- the pool

  predicate Seen(pool: seq<Activity>, digest: string) {
    exists a :: a in pool && a.digest == digest
  }

  /** One entry per digest; an equal digest means an equal activity. */
  function Dedup(pool: seq<Activity>): seq<Activity> {
    if pool == [] then []
    else
      var k := |pool| - 1;
      if Seen(pool[..k], pool[k].digest) then Dedup(pool[..k]) else Dedup(pool[..k]) + [pool[k]]
  }

  /** task id -> thread, the last announce of a task governing. */
  function Threads(pool: seq<Activity>): map<string, Option<string>> {
    if pool == [] then map[]
    else
      var k := |pool| - 1;
      if pool[k].payload.Task? then Threads(pool[..k])[pool[k].payload.id := pool[k].context] else Threads(pool[..k])
  }

  function ThreadOf(threads: map<string, Option<string>>, task: string): Option<string> {
    if task in threads then threads[task] else None
  }

  predicate Readable(thread: string, scope: set<string>, a: Activity) {
    a.payload.Result? && a.context == Some(thread) && a.visibility in scope
  }

  function ReadableIn(thread: string, scope: set<string>): Activity -> bool {
    (a: Activity) => Readable(thread, scope, a)
  }

  /** The Results on a settlement's thread that the frame lets this computer read. */
  function ResultsOn(pool: seq<Activity>, thread: Option<string>, scope: set<string>): seq<Activity> {
    if thread.None? then [] else Filter(ReadableIn(thread.value, scope), pool)
  }

  // ---- the operator mapping

  datatype Operators = Operators(operators: map<string, string>, seen: map<string, int>)

  predicate EnrollsFor(hub: string, closesAt: int, a: Activity) {
    && a.payload.Enroll?
    && (a.payload.hub == Some(hub) || a.payload.target == Some(hub))
    && a.payload.agent.Some?
    && a.published <= closesAt
  }

  function OperatorsStep(st: Operators, hub: string, closesAt: int, a: Activity): Operators {
    if !EnrollsFor(hub, closesAt, a) then st
    else
      var agent := a.payload.agent.value;
      if agent in st.seen && st.seen[agent] > a.published then st
      else Operators(st.operators[agent := a.actor], st.seen[agent := a.published])
  }

  function OperatorsOf(pool: seq<Activity>, hub: string, closesAt: int): Operators {
    if pool == [] then Operators(map[], map[])
    else OperatorsStep(OperatorsOf(pool[..|pool|-1], hub, closesAt), hub, closesAt, pool[|pool|-1])
  }

  // ---- the pass over the slice

  datatype Tally = Tally(rows: seq<Row>, unreadable: map<string, int>, qualified: map<string, int>, inputs: set<string>)

  /** One more for every operator of a set. */
  function Bump(m: map<string, int>, operators: set<string>): map<string, int> {
    map k | k in m.Keys + operators :: At(m, k) + if k in operators then 1 else 0
  }

  function OperatorsIn(operators: map<string, string>, agents: seq<string>): set<string> {
    set a | a in agents :: OperatorOf(operators, a)
  }

  function NamedAgents(settled: seq<Option<string>>): seq<string> {
    if settled == [] then []
    else NamedAgents(settled[..|settled|-1]) + if settled[|settled|-1].Some? then [settled[|settled|-1].value] else []
  }

  /** Whom an unreadable settlement is attributed to. */
  function Attributed(operators: map<string, string>, settled: seq<Option<string>>): set<string> {
    OperatorsIn(operators, if NamedAgents(settled) == [] then ["unattributed"] else NamedAgents(settled))
  }

  function CreditedAgents(rows: seq<Row>): seq<string> {
    seq(|rows|, i requires 0 <= i < |rows| => rows[i].agent)
  }

  predicate Superseded(pool: seq<Activity>, thread: Option<string>) {
    exists a :: a in pool && a.context == thread && a.supersedes
  }

  /** One readable Result of a settlement's thread. */
  function ResultStep(t: Tally, operators: map<string, string>, superseded: bool, result: Activity): Tally {
    var credits := CreditOf(result.payload);
    Tally(t.rows + credits, t.unreadable,
          if superseded then Bump(t.qualified, OperatorsIn(operators, CreditedAgents(credits))) else t.qualified,
          t.inputs + {result.digest})
  }

  function ResultsFold(t: Tally, operators: map<string, string>, superseded: bool, results: seq<Activity>): Tally {
    if results == [] then t
    else
      var k := |results| - 1;
      ResultStep(ResultsFold(t, operators, superseded, results[..k]), operators, superseded, results[k])
  }

  /** One activity of the hub's slice. */
  function SliceStep(t: Tally, pool: seq<Activity>, scope: set<string>, operators: map<string, string>,
                     a: Activity): Tally {
    if !a.payload.Settlement? then t
    else
      var thread := ThreadOf(Threads(pool), a.payload.task);
      var results := ResultsOn(pool, thread, scope);
      var u := t.(inputs := t.inputs + {a.digest});
      if results == [] then u.(unreadable := Bump(u.unreadable, Attributed(operators, a.payload.settled)))
      else ResultsFold(u, operators, Superseded(pool, thread), results)
  }

  function SliceFold(pool: seq<Activity>, scope: set<string>, operators: map<string, string>,
                     slice: seq<Activity>): Tally {
    if slice == [] then Tally([], map[], map[], {})
    else
      var k := |slice| - 1;
      SliceStep(SliceFold(pool, scope, operators, slice[..k]), pool, scope, operators, slice[k])
  }

  function ClosesAt(slice: seq<Activity>): int {
    if slice == [] then MAX_MILLIS else slice[|slice|-1].published
  }

  /** What `recompute` makes of the interval the frame declares. */
  ghost predicate Recomputes(given: seq<Activity>, frame: Frame, hub: string, slice: seq<Activity>, r: Recomputed) {
    var pool := Dedup(given);
    var operators := OperatorsOf(pool, hub, ClosesAt(slice)).operators;
    var t := SliceFold(pool, frame.scope, operators, slice);
    && IsInterval(ByDigest(pool, frame.hub), frame.start, frame.end, slice)
    && PositiveOwns(t.rows)
    && r == Recomputed(Denominator(t.rows), CreditedOf(t.rows, operators, Denominator(t.rows)),
                       t.unreadable, t.qualified, t.inputs)
  }

  method RecomputeSummary(given: seq<Activity>, frame: Frame, hub: string, ghost rank: map<string, nat>)
    returns (r: Option<Recomputed>, ghost slice: seq<Activity>)
    requires Ranked(ByDigest(Dedup(given), frame.hub), rank)
    ensures r.None? ==> forall s :: !IsInterval(ByDigest(Dedup(given), frame.hub), frame.start, frame.end, s)
    ensures r.Some? ==> Recomputes(given, frame, hub, slice, r.value)
  {
    slice := [];
    var pool := Dedup(given);
    var interval := HubChainSlice(pool, frame.hub, frame.start, frame.end, rank);
    if interval.None? {
      return None, [];
    }
    slice := interval.value;
    var st := FoldOperators(pool, hub, ClosesAt(interval.value));
    var operators := st.operators;
    var t := Tally([], map[], map[], {});
    for i := 0 to |interval.value|
      invariant t == SliceFold(pool, frame.scope, operators, interval.value[..i])
    {
      assert interval.value[..i+1][..i] == interval.value[..i];
      var a := interval.value[i];
      if !a.payload.Settlement? {
        continue;
      }
      t := t.(inputs := t.inputs + {a.digest});
      var thread := ThreadOf(Threads(pool), a.payload.task);
      var results := ResultsOn(pool, thread, frame.scope);
      if results == [] {
        t := t.(unreadable := Bump(t.unreadable, Attributed(operators, a.payload.settled)));
        continue;
      }
      t := ReadResults(t, operators, Superseded(pool, thread), results);
    }
    assert interval.value[..|interval.value|] == interval.value;
    RowsArePositive(pool, frame.scope, operators, interval.value);
    var denominator := LcmOf(Owns(t.rows));
    var credited := Credit(t.rows, operators, denominator);
    r := Some(Recomputed(denominator, credited, t.unreadable, t.qualified, t.inputs));
  }

  method FoldOperators(pool: seq<Activity>, hub: string, closesAt: int) returns (st: Operators)
    ensures st == OperatorsOf(pool, hub, closesAt)
  {
    var operators: map<string, string>, seen: map<string, int> := map[], map[];
    for i := 0 to |pool|
      invariant Operators(operators, seen) == OperatorsOf(pool[..i], hub, closesAt)
    {
      assert pool[..i+1][..i] == pool[..i];
      var a := pool[i];
      if !EnrollsFor(hub, closesAt, a) {
        continue;
      }
      var agent := a.payload.agent.value;
      if agent in seen && seen[agent] > a.published {
        continue;
      }
      seen := seen[agent := a.published];
      operators := operators[agent := a.actor];
    }
    assert pool[..|pool|] == pool;
    st := Operators(operators, seen);
  }

  method ReadResults(t: Tally, operators: map<string, string>, superseded: bool, results: seq<Activity>)
    returns (u: Tally)
    ensures u == ResultsFold(t, operators, superseded, results)
  {
    u := t;
    for j := 0 to |results|
      invariant u == ResultsFold(t, operators, superseded, results[..j])
    {
      assert results[..j+1][..j] == results[..j];
      var credits := CreditOf(results[j].payload);
      u := u.(rows := u.rows + credits, inputs := u.inputs + {results[j].digest});
      if superseded {
        u := u.(qualified := Bump(u.qualified, OperatorsIn(operators, CreditedAgents(credits))));
      }
    }
    assert results[..|results|] == results;
  }

  method Credit(rows: seq<Row>, operators: map<string, string>, d: int) returns (credited: map<string, int>)
    ensures credited == CreditedOf(rows, operators, d)
  {
    credited := map[];
    for i := 0 to |rows|
      invariant credited == CreditedOf(rows[..i], operators, d)
    {
      assert rows[..i+1][..i] == rows[..i];
      var operator := OperatorOf(operators, rows[i].agent);
      credited := credited[operator := At(credited, operator) + Worth(rows[i], d)];
    }
    assert rows[..|rows|] == rows;
  }

  // ---- the rows of a period

  function CreditsOf(results: seq<Activity>): seq<Row> {
    if results == [] then [] else CreditsOf(results[..|results|-1]) + CreditOf(results[|results|-1].payload)
  }

  /** The rows one settlement contributes. */
  function RowsFor(pool: seq<Activity>, scope: set<string>, a: Activity): seq<Row> {
    if !a.payload.Settlement? then [] else CreditsOf(ResultsOn(pool, ThreadOf(Threads(pool), a.payload.task), scope))
  }

  function RowsOf(pool: seq<Activity>, scope: set<string>, slice: seq<Activity>): seq<Row> {
    if slice == [] then [] else RowsOf(pool, scope, slice[..|slice|-1]) + RowsFor(pool, scope, slice[|slice|-1])
  }

  lemma {:induction false} ResultsFoldRows(t: Tally, operators: map<string, string>, superseded: bool,
                                           results: seq<Activity>)
    ensures ResultsFold(t, operators, superseded, results).rows == t.rows + CreditsOf(results)
  {
    if results != [] {
      var k := |results| - 1;
      ResultsFoldRows(t, operators, superseded, results[..k]);
      ConcatAssociates(t.rows, CreditsOf(results[..k]), CreditOf(results[k].payload));
    }
  }

  /** The pass collects exactly the rows of the period, whatever the operator mapping. */
  lemma {:induction false} SliceFoldRows(pool: seq<Activity>, scope: set<string>, operators: map<string, string>,
                                         slice: seq<Activity>)
    ensures SliceFold(pool, scope, operators, slice).rows == RowsOf(pool, scope, slice)
  {
    if slice != [] {
      var k := |slice| - 1;
      var a := slice[k];
      SliceFoldRows(pool, scope, operators, slice[..k]);
      if a.payload.Settlement? {
        var thread := ThreadOf(Threads(pool), a.payload.task);
        var t := SliceFold(pool, scope, operators, slice[..k]);
        ResultsFoldRows(t.(inputs := t.inputs + {a.digest}), operators, Superseded(pool, thread),
                        ResultsOn(pool, thread, scope));
      }
    }
  }

  lemma {:induction false} CreditsArePositive(results: seq<Activity>)
    ensures PositiveOwns(CreditsOf(results))
  {
    if results != [] {
      var last := results[|results|-1].payload;
      CreditsArePositive(results[..|results|-1]);
      if CreditOf(last) != [] {
        CreditOfAddsUp(last);
      }
    }
  }

  lemma {:induction false} RowsOfArePositive(pool: seq<Activity>, scope: set<string>, slice: seq<Activity>)
    ensures PositiveOwns(RowsOf(pool, scope, slice))
  {
    if slice != [] {
      var a := slice[|slice|-1];
      RowsOfArePositive(pool, scope, slice[..|slice|-1]);
      if a.payload.Settlement? {
        CreditsArePositive(ResultsOn(pool, ThreadOf(Threads(pool), a.payload.task), scope));
      }
    }
  }

  lemma RowsArePositive(pool: seq<Activity>, scope: set<string>, operators: map<string, string>, slice: seq<Activity>)
    ensures PositiveOwns(SliceFold(pool, scope, operators, slice).rows)
    ensures AllPositive(Owns(SliceFold(pool, scope, operators, slice).rows))
  {
    SliceFoldRows(pool, scope, operators, slice);
    RowsOfArePositive(pool, scope, slice);
    var rows := SliceFold(pool, scope, operators, slice).rows;
    forall i | 0 <= i < |rows| ensures Owns(rows)[i] > 0 {
      assert rows[i] in rows;
    }
  }
}
