/** child.go: the capped breadth-first walk over a process tree. */
module ProcessTree {

  const MAX_TREE_SIZE := 256

  datatype Entry = NoEntry | Pid(pid: int)

  /** What looking a process up gives: its children, some of which may be missing, or an error. */
  datatype Lookup = Failed | Found(children: seq<Entry>)

  type Graph = int -> Lookup

  function PidsOf(entries: seq<Entry>): seq<int> {
    if entries == [] then []
    else (if entries[0].Pid? then [entries[0].pid] else []) + PidsOf(entries[1..])
  }

  function ChildrenOf(g: Graph, p: int): seq<int> {
    match g(p)
    case Failed => []
    case Found(entries) => PidsOf(entries)
  }

  /** Missing children are skipped, the others kept in order. */
  lemma {:induction false} PidsAreKept(a: seq<Entry>, b: seq<Entry>, pid: int)
    ensures PidsOf(a + b) == PidsOf(a) + PidsOf(b)
    ensures PidsOf([NoEntry]) == [] && PidsOf([Pid(pid)]) == [pid]
  {
    assert [NoEntry][1..] == [] && [Pid(pid)][1..] == [];
    if a == [] {
      assert a + b == b;
    } else {
      assert (a + b)[1..] == a[1..] + b;
      PidsAreKept(a[1..], b, pid);
    }
  }

  lemma {:induction false} PidListed(entries: seq<Entry>, c: int)
    ensures c in PidsOf(entries) <==> Pid(c) in entries
  {
    if entries != [] {
      PidListed(entries[1..], c);
      assert entries == [entries[0]] + entries[1..];
    }
  }

  /** A process leads to another exactly if its lookup succeeded and lists the other as a child. */
  lemma LeadsTo(g: Graph, p: int, c: int)
    ensures c in EdgesOf(g)(p) <==> g(p).Found? && Pid(c) in g(p).children
  {
    if g(p).Found? { PidListed(g(p).children, c); }
  }

  /** Which processes a process leads to. */
  type Edges = int -> seq<int>

  function EdgesOf(g: Graph): Edges {
    p => ChildrenOf(g, p)
  }

  /** A walk of exactly n edges leads from the root to p; edges leave processes whose lookup succeeded. */
  ghost predicate Walk(e: Edges, root: int, p: int, n: nat)
    decreases n
  {
    if n == 0 then p == root else exists q :: Walk(e, root, q, n - 1) && p in e(q)
  }

  ghost predicate Distance(e: Edges, root: int, p: int, d: nat) {
    Walk(e, root, p, d) && forall m: nat | m < d :: !Walk(e, root, p, m)
  }

  ghost predicate Reachable(e: Edges, root: int, p: int) {
    exists n: nat :: Walk(e, root, p, n)
  }

  predicate Ascending(levels: seq<nat>) {
    forall i, j | 0 <= i < j < |levels| :: levels[i] <= levels[j]
  }

  predicate NoRepeats(pids: seq<int>) {
    forall i, j | 0 <= i < j < |pids| :: pids[i] != pids[j]
  }

  /** `levels` are the distances of `pids` from the root, and they never decrease. */
  ghost predicate AtDistances(e: Edges, root: int, pids: seq<int>, levels: seq<nat>) {
    && |levels| == |pids| && Ascending(levels)
    && forall i | 0 <= i < |pids| :: Distance(e, root, pids[i], levels[i])
  }

  /** `c` is already in the result, or waits in the queue, at a level of at most `top`. */
  ghost predicate Known(c: int, top: nat, pids: seq<int>, levels: seq<nat>, queue: seq<int>, waits: seq<nat>)
    requires |levels| == |pids| && |waits| == |queue|
  {
    || (exists j | 0 <= j < |pids| :: pids[j] == c && levels[j] <= top)
    || (exists j | 0 <= j < |queue| :: queue[j] == c && waits[j] <= top)
  }

  /** Everything a listed process leads to is listed or waiting, one level further at most. */
  ghost predicate Closed(e: Edges, pids: seq<int>, levels: seq<nat>, queue: seq<int>, waits: seq<nat>)
    requires |levels| == |pids| && |waits| == |queue|
  {
    forall i, c | 0 <= i < |pids| && c in e(pids[i]) :: Known(c, levels[i] + 1, pids, levels, queue, waits)
  }

  /** `waits` are the lengths of walks to the queued processes, and they never decrease. */
  ghost predicate Waiting(e: Edges, root: int, queue: seq<int>, waits: seq<nat>) {
    && |waits| == |queue| && Ascending(waits)
    && forall i | 0 <= i < |queue| :: Walk(e, root, queue[i], waits[i])
  }

  /** The queue holds at most two levels, and none closer than what is already listed. */
  predicate TwoLevels(levels: seq<nat>, waits: seq<nat>) {
    waits != [] ==>
      && waits[|waits| - 1] <= waits[0] + 1
      && (levels != [] ==> levels[|levels| - 1] <= waits[0])
  }

  ghost predicate Started(root: int, pids: seq<int>, queue: seq<int>, waits: seq<nat>) {
    if pids == [] then queue == [root] && waits == [0] else pids[0] == root
  }

  /** Everything closer than the head of the queue, or everything at all if the queue is empty, is in the result. */
  lemma {:induction false} CloserIsDone(e: Edges, root: int, pids: seq<int>, levels: seq<nat>, queue: seq<int>,
                                        waits: seq<nat>, p: int, m: nat)
    requires |levels| == |pids| && |waits| == |queue| && Ascending(waits) && Started(root, pids, queue, waits)
    requires forall i | 0 <= i < |pids| :: Distance(e, root, pids[i], levels[i])
    requires Closed(e, pids, levels, queue, waits)
    requires Walk(e, root, p, m)
    requires queue == [] || m < waits[0]
    ensures p in pids
    decreases m
  {
    if m == 0 {
      assert pids[0] in pids;
    } else {
      var q :| Walk(e, root, q, m - 1) && p in e(q);
      CloserIsDone(e, root, pids, levels, queue, waits, q, m - 1);
      var i :| 0 <= i < |pids| && pids[i] == q;
      assert levels[i] <= m - 1 by { assert Distance(e, root, q, levels[i]); }
      KnownIsDone(p, levels[i] + 1, pids, levels, queue, waits);
    }
  }

  lemma KnownIsDone(c: int, top: nat, pids: seq<int>, levels: seq<nat>, queue: seq<int>, waits: seq<nat>)
    requires |levels| == |pids| && |waits| == |queue| && Ascending(waits)
    requires Known(c, top, pids, levels, queue, waits) && (queue == [] || top < waits[0])
    ensures c in pids
  {
    if j :| 0 <= j < |pids| && pids[j] == c {
    } else {
      assert false;
    }
  }

  /** A queued process that is already in the result can be dropped. */
  lemma DropSeen(e: Edges, root: int, pids: seq<int>, levels: seq<nat>, queue: seq<int>, waits: seq<nat>)
    requires AtDistances(e, root, pids, levels) && Waiting(e, root, queue, waits)
    requires Closed(e, pids, levels, queue, waits) && queue != [] && queue[0] in pids
    requires TwoLevels(levels, waits)
    ensures Waiting(e, root, queue[1..], waits[1..]) && TwoLevels(levels, waits[1..])
    ensures Closed(e, pids, levels, queue[1..], waits[1..])
  {
    var k :| 0 <= k < |pids| && pids[k] == queue[0];
    assert levels[k] <= waits[0] by { assert Distance(e, root, queue[0], levels[k]); }
    forall i, c | 0 <= i < |pids| && c in e(pids[i])
      ensures Known(c, levels[i] + 1, pids, levels, queue[1..], waits[1..])
    {
      KnownWithoutHead(c, levels[i] + 1, pids, levels, queue, waits, k);
    }
  }

  lemma KnownWithoutHead(c: int, top: nat, pids: seq<int>, levels: seq<nat>, queue: seq<int>, waits: seq<nat>, k: nat)
    requires |levels| == |pids| && |waits| == |queue| && queue != [] && Known(c, top, pids, levels, queue, waits)
    requires k < |pids| && pids[k] == queue[0] && levels[k] <= waits[0]
    ensures Known(c, top, pids, levels, queue[1..], waits[1..])
  {
    if j :| 0 <= j < |pids| && pids[j] == c && levels[j] <= top {
    } else {
      var j :| 0 <= j < |queue| && queue[j] == c && waits[j] <= top;
      if j > 0 { assert queue[1..][j - 1] == c && waits[1..][j - 1] <= top; }
    }
  }

  /** A new process joins the result at its distance. */
  lemma TakeNew(e: Edges, root: int, pids: seq<int>, levels: seq<nat>, queue: seq<int>, waits: seq<nat>)
    requires AtDistances(e, root, pids, levels) && Waiting(e, root, queue, waits)
    requires Closed(e, pids, levels, queue, waits) && queue != [] && queue[0] !in pids
    requires TwoLevels(levels, waits) && Started(root, pids, queue, waits)
    ensures AtDistances(e, root, pids + [queue[0]], levels + [waits[0]])
  {
    var p, d := queue[0], waits[0];
    forall m: nat | m < d ensures !Walk(e, root, p, m) {
      if Walk(e, root, p, m) { CloserIsDone(e, root, pids, levels, queue, waits, p, m); }
    }
    assert Distance(e, root, p, d);
    var pids', levels' := pids + [p], levels + [d];
    forall i | 0 <= i < |pids'| ensures Distance(e, root, pids'[i], levels'[i]) {
      if i < |pids| { assert Distance(e, root, pids[i], levels[i]); }
    }
  }

  /** Its children join the queue one level further. */
  lemma AddChildren(e: Edges, root: int, queue: seq<int>, waits: seq<nat>, levels: seq<nat>)
    requires Waiting(e, root, queue, waits) && queue != [] && TwoLevels(levels, waits)
    ensures var children := e(queue[0]);
            var waits' := waits[1..] + seq(|children|, _ => waits[0] + 1);
            Waiting(e, root, queue[1..] + children, waits') && TwoLevels(levels + [waits[0]], waits')
  {
    var p, d, children := queue[0], waits[0], e(queue[0]);
    var queue', waits' := queue[1..] + children, waits[1..] + seq(|children|, _ => d + 1);
    assert Walk(e, root, p, d);
    forall i | 0 <= i < |queue'| ensures Walk(e, root, queue'[i], waits'[i]) {
      if i < |queue| - 1 {
        assert Walk(e, root, queue[i + 1], waits[i + 1]);
      } else {
        assert queue'[i] == children[i - (|queue| - 1)] && waits'[i] == d + 1;
        assert queue'[i] in e(p);
      }
    }
    WaitsExtended(waits, levels, |children|);
  }

  lemma WaitsExtended(waits: seq<nat>, levels: seq<nat>, n: nat)
    requires waits != [] && Ascending(waits) && TwoLevels(levels, waits)
    ensures var waits' := waits[1..] + seq(n, _ => waits[0] + 1);
            Ascending(waits') && TwoLevels(levels + [waits[0]], waits')
  {
    var d, rest, more := waits[0], waits[1..], seq(n, _ => waits[0] + 1);
    TailNear(waits, levels);
    AscendingTail(waits);
    AscendingThenHigher(rest, more, d);
    NearIsTwoLevels(rest + more, levels, d);
  }

  lemma TailNear(waits: seq<nat>, levels: seq<nat>)
    requires waits != [] && Ascending(waits) && TwoLevels(levels, waits)
    ensures forall i | 0 <= i < |waits| - 1 :: waits[0] <= waits[1..][i] <= waits[0] + 1
  {
    var last := |waits| - 1;
    forall i | 0 <= i < last ensures waits[0] <= waits[1..][i] <= waits[0] + 1 {
      assert waits[0] <= waits[i + 1] && (i + 1 < last ==> waits[i + 1] <= waits[last]);
    }
  }

  lemma NearIsTwoLevels(waits: seq<nat>, levels: seq<nat>, d: nat)
    requires forall i | 0 <= i < |waits| :: d <= waits[i] <= d + 1
    ensures TwoLevels(levels + [d], waits)
  {}

  lemma AscendingTail(waits: seq<nat>)
    requires waits != [] && Ascending(waits)
    ensures Ascending(waits[1..])
  {
    forall i, j | 0 <= i < j < |waits| - 1 ensures waits[1..][i] <= waits[1..][j] { assert waits[i + 1] <= waits[j + 1]; }
  }

  lemma AscendingThenHigher(rest: seq<nat>, more: seq<nat>, d: nat)
    requires Ascending(rest) && forall i | 0 <= i < |rest| :: d <= rest[i] <= d + 1
    requires forall i | 0 <= i < |more| :: more[i] == d + 1
    ensures Ascending(rest + more) && forall i | 0 <= i < |rest + more| :: d <= (rest + more)[i] <= d + 1
  {
    forall i, j | 0 <= i < j < |rest + more| ensures (rest + more)[i] <= (rest + more)[j] {
      if j < |rest| { assert rest[i] <= rest[j]; }
    }
  }

  lemma StaysClosed(e: Edges, pids: seq<int>, levels: seq<nat>, queue: seq<int>, waits: seq<nat>)
    requires |levels| == |pids| && |waits| == |queue| && queue != [] && Closed(e, pids, levels, queue, waits)
    ensures var children := e(queue[0]);
            Closed(e, pids + [queue[0]], levels + [waits[0]], queue[1..] + children,
                   waits[1..] + seq(|children|, _ => waits[0] + 1))
  {
    var children := e(queue[0]);
    var pids', levels' := pids + [queue[0]], levels + [waits[0]];
    var queue', waits' := queue[1..] + children, waits[1..] + seq(|children|, _ => waits[0] + 1);
    forall i, c | 0 <= i < |pids'| && c in e(pids'[i])
      ensures Known(c, levels'[i] + 1, pids', levels', queue', waits')
    {
      if i == |pids| {
        var k :| 0 <= k < |children| && children[k] == c;
        assert queue'[|queue| - 1 + k] == c && waits'[|queue| - 1 + k] == waits[0] + 1;
      } else {
        assert pids'[i] == pids[i];
        StillKnown(c, levels[i] + 1, pids, levels, queue, waits, children);
      }
    }
  }

  lemma StillKnown(c: int, top: nat, pids: seq<int>, levels: seq<nat>, queue: seq<int>, waits: seq<nat>, more: seq<int>)
    requires |levels| == |pids| && |waits| == |queue| && queue != [] && Known(c, top, pids, levels, queue, waits)
    ensures Known(c, top, pids + [queue[0]], levels + [waits[0]], queue[1..] + more,
                  waits[1..] + seq(|more|, _ => waits[0] + 1))
  {
    var pids', levels' := pids + [queue[0]], levels + [waits[0]];
    var queue', waits' := queue[1..] + more, waits[1..] + seq(|more|, _ => waits[0] + 1);
    if j :| 0 <= j < |pids| && pids[j] == c && levels[j] <= top {
      assert pids'[j] == c && levels'[j] == levels[j];
    } else {
      var j :| 0 <= j < |queue| && queue[j] == c && waits[j] <= top;
      if j == 0 { assert pids'[|pids|] == c && levels'[|pids|] == waits[0]; }
      else { assert queue'[j - 1] == c && waits'[j - 1] == waits[j]; }
    }
  }

  /** What the walk has established when it stops. */
  lemma WalkDone(e: Edges, root: int, pids: seq<int>, levels: seq<nat>, queue: seq<int>, waits: seq<nat>)
    requires AtDistances(e, root, pids, levels) && |waits| == |queue| && Ascending(waits) && TwoLevels(levels, waits)
    requires Closed(e, pids, levels, queue, waits) && Started(root, pids, queue, waits) && pids != []
    ensures forall p, m: nat | Walk(e, root, p, m) && p !in pids :: levels[|levels| - 1] <= m
    ensures queue == [] ==> forall p :: p in pids <==> Reachable(e, root, p)
  {
    forall p, m: nat | Walk(e, root, p, m) && p !in pids ensures levels[|levels| - 1] <= m {
      if m < levels[|levels| - 1] { CloserIsDone(e, root, pids, levels, queue, waits, p, m); }
    }
    if queue == [] {
      forall p ensures p in pids <==> Reachable(e, root, p) {
        if n: nat :| Walk(e, root, p, n) { CloserIsDone(e, root, pids, levels, queue, waits, p, n); }
        if i :| 0 <= i < |pids| && pids[i] == p { assert Distance(e, root, p, levels[i]); }
      }
    }
  }

  /** The walk in progress. */
  ghost predicate Inv(e: Edges, root: int, pids: seq<int>, levels: seq<nat>, queue: seq<int>, waits: seq<nat>) {
    && NoRepeats(pids) && AtDistances(e, root, pids, levels) && Waiting(e, root, queue, waits)
    && TwoLevels(levels, waits) && Started(root, pids, queue, waits)
    && Closed(e, pids, levels, queue, waits)
  }

  lemma StepSeen(e: Edges, root: int, pids: seq<int>, levels: seq<nat>, queue: seq<int>, waits: seq<nat>)
    requires Inv(e, root, pids, levels, queue, waits) && queue != [] && queue[0] in pids
    ensures Inv(e, root, pids, levels, queue[1..], waits[1..])
  {
    DropSeen(e, root, pids, levels, queue, waits);
  }

  lemma StepNew(e: Edges, root: int, pids: seq<int>, levels: seq<nat>, queue: seq<int>, waits: seq<nat>)
    requires Inv(e, root, pids, levels, queue, waits) && queue != [] && queue[0] !in pids
    ensures var children := e(queue[0]);
            Inv(e, root, pids + [queue[0]], levels + [waits[0]], queue[1..] + children,
                waits[1..] + seq(|children|, _ => waits[0] + 1))
  {
    TakeNew(e, root, pids, levels, queue, waits);
    AddChildren(e, root, queue, waits, levels);
    StaysClosed(e, pids, levels, queue, waits);
  }

  // ---------------------------------------------------------------- the order of the result

  /** The children of all these processes, one process after the other. */
  function AllChildren(e: Edges, pids: seq<int>): seq<int> {
    if pids == [] then [] else AllChildren(e, pids[..|pids| - 1]) + e(pids[|pids| - 1])
  }

  /** What is left when every repetition of an earlier entry is dropped. */
  function FirstOnly(s: seq<int>): seq<int> {
    if s == [] then []
    else
      var front, last := s[..|s| - 1], s[|s| - 1];
      if last in front then FirstOnly(front) else FirstOnly(front) + [last]
  }

  /** Process k is the next new one among the root and the children of those before it. */
  ghost predicate NextAt(e: Edges, root: int, pids: seq<int>, k: nat)
    requires k < |pids|
  {
    pids[..k + 1] <= FirstOnly([root] + AllChildren(e, pids[..k]))
  }

  ghost predicate InOrder(e: Edges, root: int, pids: seq<int>) {
    forall k | 0 <= k < |pids| :: NextAt(e, root, pids, k)
  }

  /** `seen` is what has been taken from the queue. */
  ghost predicate Taken(e: Edges, root: int, pids: seq<int>, seen: seq<int>, queue: seq<int>) {
    && FirstOnly(seen) == pids && (forall p :: p in pids <==> p in seen)
    && seen + queue == [root] + AllChildren(e, pids) && InOrder(e, root, pids)
  }

  lemma {:induction false} FirstOnlyGrows(s: seq<int>, t: seq<int>)
    ensures FirstOnly(s) <= FirstOnly(s + t)
    decreases |t|
  {
    if t == [] {
      assert s + t == s;
    } else {
      FirstOnlyGrows(s, t[..|t| - 1]);
      assert (s + t)[..|s + t| - 1] == s + t[..|t| - 1];
    }
  }

  lemma TakeSeen(e: Edges, root: int, pids: seq<int>, seen: seq<int>, queue: seq<int>)
    requires Taken(e, root, pids, seen, queue) && queue != [] && queue[0] in pids
    ensures Taken(e, root, pids, seen + [queue[0]], queue[1..])
  {
    TakenNext(seen, queue);
  }

  lemma TakenNext(seen: seq<int>, queue: seq<int>)
    requires queue != []
    ensures seen + [queue[0]] + queue[1..] == seen + queue
    ensures FirstOnly(seen + [queue[0]]) == if queue[0] in seen then FirstOnly(seen) else FirstOnly(seen) + [queue[0]]
  {
    assert (seen + [queue[0]])[..|seen|] == seen;
  }

  lemma TakeNewInOrder(e: Edges, root: int, pids: seq<int>, seen: seq<int>, queue: seq<int>)
    requires Taken(e, root, pids, seen, queue) && queue != [] && queue[0] !in pids
    ensures Taken(e, root, pids + [queue[0]], seen + [queue[0]], queue[1..] + e(queue[0]))
  {
    TakenNext(seen, queue);
    FirstOnlyGrows(seen + [queue[0]], queue[1..]);
    OrderExtended(e, root, pids, queue[0]);
    ChildrenJoin(e, root, pids, queue[0], seen + [queue[0]], queue[1..]);
  }

  lemma ChildrenJoin(e: Edges, root: int, pids: seq<int>, p: int, seen: seq<int>, queue: seq<int>)
    requires seen + queue == [root] + AllChildren(e, pids)
    ensures seen + (queue + e(p)) == [root] + AllChildren(e, pids + [p])
  {
    assert (pids + [p])[..|pids|] == pids;
    Appended(seen, queue, e(p), [root], AllChildren(e, pids));
  }

  lemma Appended(a: seq<int>, b: seq<int>, more: seq<int>, c: seq<int>, d: seq<int>)
    requires a + b == c + d
    ensures a + (b + more) == c + (d + more)
  {
    assert a + (b + more) == a + b + more;
  }

  lemma OrderExtended(e: Edges, root: int, pids: seq<int>, p: int)
    requires InOrder(e, root, pids) && pids + [p] <= FirstOnly([root] + AllChildren(e, pids))
    ensures InOrder(e, root, pids + [p])
  {
    forall k | 0 <= k <= |pids| ensures NextAt(e, root, pids + [p], k) {
      assert (pids + [p])[..k] == pids[..k];
      if k < |pids| { assert NextAt(e, root, pids, k) && (pids + [p])[..k + 1] == pids[..k + 1]; } else { assert (pids + [p])[..k + 1] == pids + [p]; }
    }
  }

  /** There is one such list of each length. */
  lemma {:induction false} OrderUnique(e: Edges, root: int, a: seq<int>, b: seq<int>)
    requires InOrder(e, root, a) && InOrder(e, root, b) && |a| <= |b|
    ensures a <= b
    decreases |a|
  {
    if a != [] {
      var n := |a| - 1;
      InOrderFront(e, root, a);
      OrderUnique(e, root, a[..n], b);
      assert a[..n] == b[..n];
      assert NextAt(e, root, a, n) && NextAt(e, root, b, n);
      assert a[..n + 1] == a;
    }
  }

  lemma InOrderFront(e: Edges, root: int, a: seq<int>)
    requires InOrder(e, root, a) && a != []
    ensures InOrder(e, root, a[..|a| - 1])
  {
    var front := a[..|a| - 1];
    forall k | 0 <= k < |front| ensures NextAt(e, root, front, k) {
      assert NextAt(e, root, a, k);
      assert front[..k + 1] == a[..k + 1] && front[..k] == a[..k];
    }
  }

  // ---------------------------------------------------------------- the walk

  /** Some listed process could not be looked up. */
  predicate AnyFailed(g: Graph, pids: seq<int>) {
    exists p | p in pids :: g(p).Failed?
  }

  lemma AnyFailedSnoc(g: Graph, pids: seq<int>, p: int)
    ensures AnyFailed(g, pids + [p]) <==> AnyFailed(g, pids) || g(p).Failed?
  {
    assert forall q :: q in pids + [p] <==> q in pids || q == p;
  }

  datatype Walked = RootNotPositive | Walked(pids: seq<int>, failed: bool)

  /** `processTreePIDs`. The result lists distinct processes in order of distance, at most 256 of them, and no
      process that is left out is closer than one that is listed. `left` is the queue at the end. */
  method ProcessTreePIDs(g: Graph, root: int) returns (r: Walked, ghost levels: seq<nat>, ghost left: seq<int>)
    ensures root <= 0 <==> r.RootNotPositive?
    ensures r.Walked? ==>
              && 0 < |r.pids| <= 256 && r.pids[0] == root && NoRepeats(r.pids)
              && AtDistances(EdgesOf(g), root, r.pids, levels)
              && (r.failed <==> exists p :: p in r.pids && g(p).Failed?)
    ensures r.Walked? ==> forall p, m: nat | Walk(EdgesOf(g), root, p, m) && p !in r.pids :: levels[|levels| - 1] <= m
    ensures r.Walked? && left == [] ==> forall p :: p in r.pids <==> Reachable(EdgesOf(g), root, p)
    ensures r.Walked? && |r.pids| < 256 ==> left == []
    ensures r.Walked? ==> InOrder(EdgesOf(g), root, r.pids)
    ensures r.Walked? && left == [] ==> FirstOnly([root] + AllChildren(EdgesOf(g), r.pids)) == r.pids
  {
    levels, left := [], [];
    if root <= 0 {
      return RootNotPositive, levels, left;
    }
    var queue := [root];
    ghost var waits: seq<nat>, taken: seq<int> := [0], [];
    var seen: set<int> := {};
    var pids: seq<int> := [];
    var failed := false;
    while |queue| > 0
      invariant Inv(EdgesOf(g), root, pids, levels, queue, waits)
      invariant Taken(EdgesOf(g), root, pids, taken, queue)
      invariant forall p :: p in seen <==> p in pids
      invariant |pids| <= MAX_TREE_SIZE
      invariant failed <==> AnyFailed(g, pids)
      decreases MAX_TREE_SIZE - |pids|, |queue|
    {
      if |pids| >= MAX_TREE_SIZE {
        break;
      }
      var pid := queue[0];
      if pid in seen {
        StepSeen(EdgesOf(g), root, pids, levels, queue, waits);
        TakeSeen(EdgesOf(g), root, pids, taken, queue);
        queue, waits, taken := queue[1..], waits[1..], taken + [pid];
        continue;
      }
      StepNew(EdgesOf(g), root, pids, levels, queue, waits);
      TakeNewInOrder(EdgesOf(g), root, pids, taken, queue);
      AnyFailedSnoc(g, pids, pid);
      taken := taken + [pid];
      ghost var children := ChildrenOf(g, pid);
      levels, waits := levels + [waits[0]], waits[1..] + seq(|children|, _ => waits[0] + 1);
      queue := queue[1..];
      seen := seen + {pid};
      pids := pids + [pid];
      match g(pid)
      case Failed =>
        failed := true;
        assert queue == queue + children;
      case Found(entries) =>
        var pushed := PushChildren(queue, entries);
        queue := pushed;
    }
    left := queue;
    assert |pids| > 0;
    assert queue == [] ==> taken + queue == taken;
    r := Walked(pids, failed);
    WalkDone(EdgesOf(g), root, pids, levels, queue, waits);
  }

  /** The loop that appends the children, skipping missing entries. */
  method PushChildren(queue: seq<int>, entries: seq<Entry>) returns (q: seq<int>)
    ensures q == queue + PidsOf(entries)
  {
    q := queue;
    for i := 0 to |entries|
      invariant q + PidsOf(entries[i..]) == queue + PidsOf(entries)
    {
      assert entries[i..][1..] == entries[i + 1..];
      if entries[i].Pid? {
        q := q + [entries[i].pid];
      }
    }
  }
}
