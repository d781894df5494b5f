/**
 Adaptive log pagination: the block window halves when the node refuses a query and grows back
 after a success. The node is an arbitrary oracle, indexed by the number of the call.
 */
module LogPagination {
  import opened Wrappers

  datatype Reply<+T> = Logs(logs: seq<T>) | Failure

  type Node<!T> = (nat, int, int) -> Reply<T>

  /** All matching logs of the blocks `lo` to `hi`, in block order. */
  function Range<T>(logsAt: int -> seq<T>, lo: int, hi: int): seq<T>
    decreases hi - lo
  {
    if lo > hi then [] else Range(logsAt, lo, hi - 1) + logsAt(hi)
  }

  /** A node that answers truthfully whenever it answers. */
  ghost predicate Truthful<T(!new)>(node: Node<T>, logsAt: int -> seq<T>) {
    forall call, lo, hi :: node(call, lo, hi).Logs? ==> node(call, lo, hi).logs == Range(logsAt, lo, hi)
  }

  lemma {:induction false} RangeSplit<T>(logsAt: int -> seq<T>, lo: int, mid: int, hi: int)
    requires lo <= mid + 1 && mid <= hi
    ensures Range(logsAt, lo, mid) + Range(logsAt, mid + 1, hi) == Range(logsAt, lo, hi)
    decreases hi - mid
  {
    if mid < hi {
      RangeSplit(logsAt, lo, mid, hi - 1);
    }
  }

  function Log2(n: nat): nat
    requires n >= 1
  {
    if n == 1 then 0 else 1 + Log2(n / 2)
  }

  lemma {:induction false} Log2Monotone(m: nat, n: nat)
    requires 1 <= m <= n
    ensures Log2(m) <= Log2(n)
  {
    if m > 1 {
      Log2Monotone(m / 2, n / 2);
    }
  }

  lemma Log2Double(n: nat)
    requires n >= 1
    ensures Log2(2 * n) == Log2(n) + 1
  {
    assert 2 * n / 2 == n;
  }

  /** The node refuses, at that call, even a single block. */
  predicate Refused<T>(node: Node<T>, call: nat, block: int) {
    node(call, block, block).Failure?
  }

  function Min(a: int, b: int): int { if a <= b then a else b }

  function Max(a: int, b: int): int { if a >= b then a else b }

  /** The next window after a success, and after a failure that is not fatal. */
  function Grown(step: int, blockStep: int): int { Min(step * 2, blockStep) }

  function Halved(step: int): int
    requires step >= 0
  {
    Max(1, step / 2)
  }

  /** A success raises the potential log2(step) by at most one, a failure lowers it by one. */
  lemma GrownPotential(step: nat, blockStep: nat)
    requires 1 <= step <= blockStep
    ensures 1 <= Grown(step, blockStep) <= blockStep
    ensures Log2(Grown(step, blockStep)) <= Log2(step) + 1
  {
    Log2Double(step);
    Log2Monotone(Grown(step, blockStep), 2 * step);
  }

  lemma HalvedPotential(step: nat)
    requires step >= 2
    ensures 1 <= Halved(step) < step && Log2(Halved(step)) == Log2(step) - 1
  {
  }

  // ----- runs -----

  /** A query as the loop poses it: first block and window. */
  datatype Query = Query(block: int, window: int)

  function LastBlock(q: Query, toBlock: int): int {
    Min(q.block + q.window - 1, toBlock)
  }

  predicate Answered<T>(node: Node<T>, call: nat, q: Query, toBlock: int) {
    node(call, q.block, LastBlock(q, toBlock)).Logs?
  }

  /**
   What follows query `q` at that call. After an answer the next block comes, with the window
   doubled up to the block step; after a refusal the same block with half the window.
   */
  ghost predicate FollowedBy<T>(node: Node<T>, call: nat, q: Query, next: Query, toBlock: int, blockStep: int) {
    if Answered(node, call, q, toBlock) then
      next.block == LastBlock(q, toBlock) + 1 && next.window == if 2 * q.window <= blockStep then 2 * q.window else blockStep
    else
      q.window > 1 && next.block == q.block && next.window == q.window / 2
  }

  /** The queries of a run, as far as it has got. */
  ghost predicate IsRun<T>(node: Node<T>, fromBlock: int, toBlock: int, blockStep: int, qs: seq<Query>) {
    && (qs != [] ==> qs[0] == Query(fromBlock, blockStep))
    && (forall i :: 0 <= i < |qs| ==> qs[i].block <= toBlock)
    && forall i: nat :: i + 1 < |qs| ==> FollowedBy(node, i, qs[i], qs[i + 1], toBlock, blockStep)
  }

  /** The last query was refused although its window was down to one block. */
  ghost predicate RefusedAtOne<T>(node: Node<T>, toBlock: int, qs: seq<Query>) {
    qs != [] && qs[|qs| - 1].window <= 1 && !Answered(node, |qs| - 1, qs[|qs| - 1], toBlock)
  }

  /** Every block has been asked for: there was none, or the last query was answered up to the end. */
  ghost predicate Complete<T>(node: Node<T>, fromBlock: int, toBlock: int, qs: seq<Query>) {
    if qs == [] then fromBlock > toBlock
    else Answered(node, |qs| - 1, qs[|qs| - 1], toBlock) && LastBlock(qs[|qs| - 1], toBlock) == toBlock
  }

  ghost predicate GivesUp<T(!new)>(node: Node<T>, fromBlock: int, toBlock: int, blockStep: int) {
    exists qs :: IsRun(node, fromBlock, toBlock, blockStep, qs) && RefusedAtOne(node, toBlock, qs)
  }

  /** Runs differ in length only. */
  lemma {:induction false} RunsAgree<T>(node: Node<T>, fromBlock: int, toBlock: int, blockStep: int, a: seq<Query>, b: seq<Query>, i: nat)
    requires IsRun(node, fromBlock, toBlock, blockStep, a) && IsRun(node, fromBlock, toBlock, blockStep, b)
    requires i < |a| && i < |b|
    ensures a[i] == b[i]
  {
    if i > 0 {
      RunsAgree(node, fromBlock, toBlock, blockStep, a, b, i - 1);
      assert FollowedBy(node, i - 1, a[i - 1], a[i - 1 + 1], toBlock, blockStep);
      assert FollowedBy(node, i - 1, b[i - 1], b[i - 1 + 1], toBlock, blockStep);
    }
  }

  /** A run goes on after an answer only if the answer did not reach the end. */
  lemma GoesOnBeforeEnd<T>(node: Node<T>, fromBlock: int, toBlock: int, blockStep: int, qs: seq<Query>, n: nat)
    requires IsRun(node, fromBlock, toBlock, blockStep, qs) && n + 1 < |qs| && Answered(node, n, qs[n], toBlock)
    ensures LastBlock(qs[n], toBlock) < toBlock
  {
    assert FollowedBy(node, n, qs[n], qs[n + 1], toBlock, blockStep) && qs[n + 1].block <= toBlock;
  }

  /** A run goes on after a refusal only if the window was not down to one block. */
  lemma GoesOnAboveOne<T>(node: Node<T>, fromBlock: int, toBlock: int, blockStep: int, qs: seq<Query>, n: nat)
    requires IsRun(node, fromBlock, toBlock, blockStep, qs) && n + 1 < |qs| && !Answered(node, n, qs[n], toBlock)
    ensures qs[n].window > 1
  {
    assert FollowedBy(node, n, qs[n], qs[n + 1], toBlock, blockStep);
  }

  lemma NoLongerThanComplete<T>(node: Node<T>, fromBlock: int, toBlock: int, blockStep: int, qs: seq<Query>, other: seq<Query>)
    requires IsRun(node, fromBlock, toBlock, blockStep, qs) && Complete(node, fromBlock, toBlock, qs)
    requires IsRun(node, fromBlock, toBlock, blockStep, other)
    ensures |other| <= |qs|
  {
    var n := |qs| - 1;
    if n >= 0 && |other| > |qs| {
      RunsAgree(node, fromBlock, toBlock, blockStep, qs, other, n);
      GoesOnBeforeEnd(node, fromBlock, toBlock, blockStep, other, n);
    }
  }

  /** A complete run leaves no room for one that gives up. */
  lemma CompleteDoesNotGiveUp<T(!new)>(node: Node<T>, fromBlock: int, toBlock: int, blockStep: int, qs: seq<Query>)
    requires IsRun(node, fromBlock, toBlock, blockStep, qs) && Complete(node, fromBlock, toBlock, qs)
    ensures !GivesUp(node, fromBlock, toBlock, blockStep)
  {
    forall other: seq<Query> | IsRun(node, fromBlock, toBlock, blockStep, other) && other != []
      ensures !RefusedAtOne(node, toBlock, other)
    {
      var m := |other| - 1;
      NoLongerThanComplete(node, fromBlock, toBlock, blockStep, qs, other);
      RunsAgree(node, fromBlock, toBlock, blockStep, qs, other, m);
      if m + 1 < |qs| && !Answered(node, m, qs[m], toBlock) {
        GoesOnAboveOne(node, fromBlock, toBlock, blockStep, qs, m);
      }
    }
  }

  lemma RunSnoc<T>(node: Node<T>, fromBlock: int, toBlock: int, blockStep: int, qs: seq<Query>, q: Query)
    requires IsRun(node, fromBlock, toBlock, blockStep, qs) && q.block <= toBlock
    requires if qs == [] then q == Query(fromBlock, blockStep) else FollowedBy(node, |qs| - 1, qs[|qs| - 1], q, toBlock, blockStep)
    ensures IsRun(node, fromBlock, toBlock, blockStep, qs + [q])
  {
    var r := qs + [q];
    forall i: nat | i + 1 < |r| ensures FollowedBy(node, i, r[i], r[i + 1], toBlock, blockStep) {
      if i + 1 < |qs| {
        assert r[i] == qs[i] && r[i + 1] == qs[i + 1];
      }
    }
  }

  /** The loop between two rounds: `qs` are the queries posed, the next one would be `next`. */
  ghost predicate Reached<T>(node: Node<T>, fromBlock: int, toBlock: int, blockStep: int, qs: seq<Query>, next: Query) {
    && IsRun(node, fromBlock, toBlock, blockStep, qs)
    && if qs == [] then next == Query(fromBlock, blockStep) else FollowedBy(node, |qs| - 1, qs[|qs| - 1], next, toBlock, blockStep)
  }

  lemma AfterAnswer<T>(node: Node<T>, fromBlock: int, toBlock: int, blockStep: int, qs: seq<Query>, q: Query, next: Query)
    requires Reached(node, fromBlock, toBlock, blockStep, qs, q) && q.block <= toBlock && Answered(node, |qs|, q, toBlock)
    requires next == Query(LastBlock(q, toBlock) + 1, Grown(q.window, blockStep))
    ensures Reached(node, fromBlock, toBlock, blockStep, qs + [q], next)
  {
    RunSnoc(node, fromBlock, toBlock, blockStep, qs, q);
  }

  lemma AfterRefusal<T>(node: Node<T>, fromBlock: int, toBlock: int, blockStep: int, qs: seq<Query>, q: Query, next: Query)
    requires Reached(node, fromBlock, toBlock, blockStep, qs, q) && q.block <= toBlock && !Answered(node, |qs|, q, toBlock)
    requires q.window > 1 && next == Query(q.block, Halved(q.window))
    ensures Reached(node, fromBlock, toBlock, blockStep, qs + [q], next)
  {
    RunSnoc(node, fromBlock, toBlock, blockStep, qs, q);
  }

  lemma ReachedPastEnd<T>(node: Node<T>, fromBlock: int, toBlock: int, blockStep: int, qs: seq<Query>, next: Query)
    requires Reached(node, fromBlock, toBlock, blockStep, qs, next) && next.block > toBlock
    ensures Complete(node, fromBlock, toBlock, qs)
  {
    if qs != [] {
      assert qs[|qs| - 1].block <= toBlock;
    }
  }

  /** What is known between two rounds of the loop, before query `q`. */
  ghost predicate Scanning<T>(node: Node<T>, logsAt: int -> seq<T>, fromBlock: int, toBlock: int, blockStep: int,
                              q: Query, out: seq<T>, successes: nat, failures: nat, qs: seq<Query>) {
    && 1 <= q.window <= blockStep
    && fromBlock <= q.block && (q.block <= toBlock + 1 || q.block == fromBlock)
    && out == Range(logsAt, fromBlock, q.block - 1)
    && successes <= q.block - fromBlock
    && failures + Log2(q.window) <= successes + Log2(blockStep)
    && |qs| == successes + failures && Reached(node, fromBlock, toBlock, blockStep, qs, q)
  }

  lemma ScanningAnswered<T>(node: Node<T>, logsAt: int -> seq<T>, fromBlock: int, toBlock: int, blockStep: int,
                            q: Query, out: seq<T>, successes: nat, failures: nat, qs: seq<Query>, next: Query, all: seq<T>)
    requires Scanning(node, logsAt, fromBlock, toBlock, blockStep, q, out, successes, failures, qs)
    requires q.block <= toBlock && Answered(node, |qs|, q, toBlock) && all == out + Range(logsAt, q.block, LastBlock(q, toBlock))
    requires next == Query(LastBlock(q, toBlock) + 1, Grown(q.window, blockStep))
    ensures Scanning(node, logsAt, fromBlock, toBlock, blockStep, next, all, successes + 1, failures, qs + [q])
  {
    RangeSplit(logsAt, fromBlock, q.block - 1, LastBlock(q, toBlock));
    GrownPotential(q.window, blockStep);
    AfterAnswer(node, fromBlock, toBlock, blockStep, qs, q, next);
  }

  lemma ScanningRefused<T>(node: Node<T>, logsAt: int -> seq<T>, fromBlock: int, toBlock: int, blockStep: int,
                           q: Query, out: seq<T>, successes: nat, failures: nat, qs: seq<Query>, next: Query)
    requires Scanning(node, logsAt, fromBlock, toBlock, blockStep, q, out, successes, failures, qs)
    requires q.block <= toBlock && !Answered(node, |qs|, q, toBlock) && q.window > 1 && next == Query(q.block, Halved(q.window))
    ensures next.window < q.window
    ensures Scanning(node, logsAt, fromBlock, toBlock, blockStep, next, out, successes, failures + 1, qs + [q])
  {
    HalvedPotential(q.window);
    AfterRefusal(node, fromBlock, toBlock, blockStep, qs, q, next);
  }

  lemma ScanningStart<T>(node: Node<T>, logsAt: int -> seq<T>, fromBlock: int, toBlock: int, blockStep: int)
    requires blockStep >= 1
    ensures Scanning(node, logsAt, fromBlock, toBlock, blockStep, Query(fromBlock, blockStep), [], 0, 0, [])
  {
  }

  lemma ScanningEnd<T(!new)>(node: Node<T>, logsAt: int -> seq<T>, fromBlock: int, toBlock: int, blockStep: int,
                             q: Query, out: seq<T>, successes: nat, failures: nat, qs: seq<Query>)
    requires Scanning(node, logsAt, fromBlock, toBlock, blockStep, q, out, successes, failures, qs) && q.block > toBlock
    ensures out == Range(logsAt, fromBlock, toBlock) && failures <= successes + Log2(blockStep)
    ensures successes <= Max(0, toBlock - fromBlock + 1) && |qs| == successes + failures
    ensures IsRun(node, fromBlock, toBlock, blockStep, qs) && Complete(node, fromBlock, toBlock, qs)
    ensures !GivesUp(node, fromBlock, toBlock, blockStep)
  {
    ReachedPastEnd(node, fromBlock, toBlock, blockStep, qs, q);
    CompleteDoesNotGiveUp(node, fromBlock, toBlock, blockStep, qs);
    if q.block == fromBlock {
      assert Range(logsAt, fromBlock, q.block - 1) == [] == Range(logsAt, fromBlock, toBlock);
    }
  }

  lemma ScanningFails<T(!new)>(node: Node<T>, logsAt: int -> seq<T>, fromBlock: int, toBlock: int, blockStep: int,
                               q: Query, out: seq<T>, successes: nat, failures: nat, qs: seq<Query>, all: seq<Query>)
    requires Scanning(node, logsAt, fromBlock, toBlock, blockStep, q, out, successes, failures, qs) && q.block <= toBlock
    requires !Answered(node, |qs|, q, toBlock) && q.window <= 1 && all == qs + [q]
    ensures failures <= successes + Log2(blockStep)
    ensures successes <= Max(0, toBlock - fromBlock + 1) && |all| == successes + failures + 1
    ensures IsRun(node, fromBlock, toBlock, blockStep, all) && RefusedAtOne(node, toBlock, all)
    ensures GivesUp(node, fromBlock, toBlock, blockStep)
  {
    RunSnoc(node, fromBlock, toBlock, blockStep, qs, q);
    assert RefusedAtOne(node, toBlock, all);
  }

  /**
   If the scan returns, it returns every log of the range exactly once and in order, whatever the
   block step and whichever calls failed. It always ends: non-fatal failures are bounded by the
   successes plus log2 of the block step, successes by the number of blocks. Its queries are those
   of a run, and it fails exactly when the run gives up: when a window of one block is refused.
   */
  method GetLogsPaginated<T(!new)>(node: Node<T>, ghost logsAt: int -> seq<T>, fromBlock: int, toBlock: int, blockStep: int)
    returns (r: Result<seq<T>>, successes: nat, failures: nat, ghost qs: seq<Query>)
    requires blockStep >= 1 && Truthful(node, logsAt)
    ensures r.Ok? ==> r.value == Range(logsAt, fromBlock, toBlock)
    ensures failures <= successes + Log2(blockStep)
    ensures successes <= Max(0, toBlock - fromBlock + 1)
    ensures IsRun(node, fromBlock, toBlock, blockStep, qs) && |qs| == successes + failures + if r.Err? then 1 else 0
    ensures if r.Ok? then Complete(node, fromBlock, toBlock, qs) else RefusedAtOne(node, toBlock, qs)
    ensures r.Err? <==> GivesUp(node, fromBlock, toBlock, blockStep)
  {
    var out: seq<T> := [];
    var cursor, step := fromBlock, blockStep;
    successes, failures, qs := 0, 0, [];
    ScanningStart(node, logsAt, fromBlock, toBlock, blockStep);
    while cursor <= toBlock
      invariant Scanning(node, logsAt, fromBlock, toBlock, blockStep, Query(cursor, step), out, successes, failures, qs)
      decreases toBlock - cursor, step
    {
      ghost var q, before := Query(cursor, step), out;
      var end := Min(cursor + step - 1, toBlock);
      var reply := node(successes + failures, cursor, end);
      if reply.Logs? {
        out := out + reply.logs;
        cursor := end + 1;
        step := Min(step * 2, blockStep);
        ScanningAnswered(node, logsAt, fromBlock, toBlock, blockStep, q, before, successes, failures, qs, Query(cursor, step), out);
        successes := successes + 1;
      } else {
        if step <= 1 {
          ScanningFails(node, logsAt, fromBlock, toBlock, blockStep, q, out, successes, failures, qs, qs + [q]);
          return Err("getLogs failed with step=1"), successes, failures, qs + [q];
        }
        step := Max(1, step / 2);
        ScanningRefused(node, logsAt, fromBlock, toBlock, blockStep, q, out, successes, failures, qs, Query(cursor, step));
        failures := failures + 1;
      }
      qs := qs + [q];
    }
    ScanningEnd(node, logsAt, fromBlock, toBlock, blockStep, Query(cursor, step), out, successes, failures, qs);
    r := Ok(out);
  }

  // ----- when a run gives up -----

  /** The window after `j` refusals in a row. */
  function Shrunk(window: nat, j: nat): nat {
    if j == 0 then window else Shrunk(window, j - 1) / 2
  }

  lemma {:induction false} ShrunkLog(window: nat, j: nat)
    requires window >= 1 && j <= Log2(window)
    ensures Shrunk(window, j) >= 1 && Log2(Shrunk(window, j)) == Log2(window) - j
  {
    if j > 0 {
      ShrunkLog(window, j - 1);
    }
  }

  /** No call from this one on is answered while the window shrinks from `q` down to one block. */
  ghost predicate AllRefused<T>(node: Node<T>, call: nat, q: Query, toBlock: int)
    requires q.window >= 1
  {
    forall j: nat :: j <= Log2(q.window) ==> !Answered(node, call + j, Query(q.block, Shrunk(q.window, j)), toBlock)
  }

  /** The last query begins a run of refusals: it is the first one, or the one before it was answered. */
  ghost predicate Fresh<T>(node: Node<T>, toBlock: int, qs: seq<Query>) {
    |qs| == 1 || (|qs| > 1 && Answered(node, |qs| - 2, qs[|qs| - 2], toBlock))
  }

  lemma {:induction false} WindowsPositive<T>(node: Node<T>, fromBlock: int, toBlock: int, blockStep: int, qs: seq<Query>, i: nat)
    requires IsRun(node, fromBlock, toBlock, blockStep, qs) && blockStep >= 1 && i < |qs|
    ensures 1 <= qs[i].window <= blockStep
  {
    if i > 0 {
      WindowsPositive(node, fromBlock, toBlock, blockStep, qs, i - 1);
      assert FollowedBy(node, i - 1, qs[i - 1], qs[i - 1 + 1], toBlock, blockStep);
    }
  }

  lemma RunPrefix<T>(node: Node<T>, fromBlock: int, toBlock: int, blockStep: int, qs: seq<Query>, n: nat)
    requires IsRun(node, fromBlock, toBlock, blockStep, qs) && n <= |qs|
    ensures IsRun(node, fromBlock, toBlock, blockStep, qs[..n])
  {
    var p := qs[..n];
    forall i: nat | i + 1 < |p| ensures FollowedBy(node, i, p[i], p[i + 1], toBlock, blockStep) {
      assert p[i] == qs[i] && p[i + 1] == qs[i + 1];
    }
  }

  /** The query `qs[m]` from which on only refusals follow, up to the last query. */
  ghost predicate ShrinksFrom<T>(node: Node<T>, toBlock: int, qs: seq<Query>, m: nat) {
    && m < |qs| && qs[m].window >= 1 && Fresh(node, toBlock, qs[..m + 1]) && |qs| - 1 - m <= Log2(qs[m].window)
    && (forall i: nat :: m <= i < |qs| ==> qs[i] == Query(qs[m].block, Shrunk(qs[m].window, i - m)))
    && forall i: nat :: m <= i < |qs| - 1 ==> !Answered(node, i, qs[i], toBlock)
  }

  lemma {:induction false} BackToFresh<T>(node: Node<T>, fromBlock: int, toBlock: int, blockStep: int, qs: seq<Query>) returns (m: nat)
    requires IsRun(node, fromBlock, toBlock, blockStep, qs) && qs != [] && blockStep >= 1
    ensures ShrinksFrom(node, toBlock, qs, m)
  {
    var n := |qs| - 1;
    WindowsPositive(node, fromBlock, toBlock, blockStep, qs, n);
    if n == 0 || Answered(node, n - 1, qs[n - 1], toBlock) {
      m := n;
      assert qs[..n + 1] == qs;
    } else {
      var p := qs[..n];
      RunPrefix(node, fromBlock, toBlock, blockStep, qs, n);
      m := BackToFresh(node, fromBlock, toBlock, blockStep, p);
      assert FollowedBy(node, n - 1, qs[n - 1], qs[n - 1 + 1], toBlock, blockStep);
      ShrinkOnce(node, toBlock, qs, p, m);
    }
  }

  lemma ShrinkOnce<T>(node: Node<T>, toBlock: int, qs: seq<Query>, p: seq<Query>, m: nat)
    requires |qs| >= 2 && p == qs[..|qs| - 1] && ShrinksFrom(node, toBlock, p, m)
    requires var q, next := qs[|qs| - 2], qs[|qs| - 1];
      !Answered(node, |qs| - 2, q, toBlock) && q.window > 1 && next == Query(q.block, q.window / 2)
    ensures ShrinksFrom(node, toBlock, qs, m)
  {
    var n := |qs| - 1;
    assert qs[..m + 1] == p[..m + 1];
    assert p[n - 1] == Query(p[m].block, Shrunk(p[m].window, n - 1 - m));
    ShrunkLog(p[m].window, n - 1 - m);
    forall i: nat | m <= i < |qs| ensures qs[i] == Query(qs[m].block, Shrunk(qs[m].window, i - m)) {
      if i < n {
        assert qs[i] == p[i];
      }
    }
    forall i: nat | m <= i < n ensures !Answered(node, i, qs[i], toBlock) {
      assert qs[i] == p[i];
    }
  }

  /** From a fresh query on, refusals lead down to a window of one block. */
  lemma {:induction false} ShrinkFrom<T>(node: Node<T>, fromBlock: int, toBlock: int, blockStep: int, qs: seq<Query>, j: nat)
    returns (r: seq<Query>)
    requires IsRun(node, fromBlock, toBlock, blockStep, qs) && qs != [] && qs[|qs| - 1].window >= 1
    requires AllRefused(node, |qs| - 1, qs[|qs| - 1], toBlock) && j <= Log2(qs[|qs| - 1].window)
    ensures IsRun(node, fromBlock, toBlock, blockStep, r) && |r| == |qs| + j
    ensures r[|r| - 1] == Query(qs[|qs| - 1].block, Shrunk(qs[|qs| - 1].window, j))
  {
    var q := qs[|qs| - 1];
    if j == 0 {
      r := qs;
    } else {
      var prev := ShrinkFrom(node, fromBlock, toBlock, blockStep, qs, j - 1);
      ShrunkLog(q.window, j - 1);
      var next := Query(q.block, Shrunk(q.window, j));
      assert !Answered(node, |qs| - 1 + (j - 1), Query(q.block, Shrunk(q.window, j - 1)), toBlock);
      RunSnoc(node, fromBlock, toBlock, blockStep, prev, next);
      r := prev + [next];
    }
  }

  /** A run has reached a fresh query from which on every call is refused. */
  ghost predicate MeetsRefusals<T>(node: Node<T>, fromBlock: int, toBlock: int, blockStep: int, qs: seq<Query>) {
    && IsRun(node, fromBlock, toBlock, blockStep, qs) && Fresh(node, toBlock, qs)
    && qs[|qs| - 1].window >= 1 && AllRefused(node, |qs| - 1, qs[|qs| - 1], toBlock)
  }

  lemma GivesUpMeetsRefusals<T>(node: Node<T>, fromBlock: int, toBlock: int, blockStep: int, qs: seq<Query>) returns (p: seq<Query>)
    requires blockStep >= 1 && IsRun(node, fromBlock, toBlock, blockStep, qs) && RefusedAtOne(node, toBlock, qs)
    ensures MeetsRefusals(node, fromBlock, toBlock, blockStep, p)
  {
    var n := |qs| - 1;
    var m := BackToFresh(node, fromBlock, toBlock, blockStep, qs);
    WindowsPositive(node, fromBlock, toBlock, blockStep, qs, n);
    assert qs[n] == Query(qs[m].block, Shrunk(qs[m].window, n - m));
    ShrunkLog(qs[m].window, n - m);
    assert n - m == Log2(qs[m].window);
    p := qs[..m + 1];
    RunPrefix(node, fromBlock, toBlock, blockStep, qs, m + 1);
    forall j: nat | j <= Log2(qs[m].window)
      ensures !Answered(node, m + j, Query(qs[m].block, Shrunk(qs[m].window, j)), toBlock)
    {
      assert qs[m + j] == Query(qs[m].block, Shrunk(qs[m].window, m + j - m));
      assert m + j < n ==> !Answered(node, m + j, qs[m + j], toBlock);
    }
  }

  /**
   Exactly when the scan fails: with `w` the window after the last answer, or the block step if
   there was none, the `log2(w) + 1` calls from there on are all refused.
   */
  lemma GivesUpIff<T(!new)>(node: Node<T>, fromBlock: int, toBlock: int, blockStep: int)
    requires blockStep >= 1
    ensures GivesUp(node, fromBlock, toBlock, blockStep) <==> exists qs :: MeetsRefusals(node, fromBlock, toBlock, blockStep, qs)
  {
    if qs: seq<Query> :| IsRun(node, fromBlock, toBlock, blockStep, qs) && RefusedAtOne(node, toBlock, qs) {
      var p := GivesUpMeetsRefusals(node, fromBlock, toBlock, blockStep, qs);
    }
    if qs: seq<Query> :| MeetsRefusals(node, fromBlock, toBlock, blockStep, qs) {
      var q := qs[|qs| - 1];
      var k := Log2(q.window);
      var r := ShrinkFrom(node, fromBlock, toBlock, blockStep, qs, k);
      ShrunkLog(q.window, k);
      assert !Answered(node, |qs| - 1 + k, Query(q.block, Shrunk(q.window, k)), toBlock);
      assert RefusedAtOne(node, toBlock, r);
    }
  }

  lemma OneBlockRuns<T>(node: Node<T>, block: int, blockStep: int, qs: seq<Query>)
    requires blockStep >= 1 && IsRun(node, block, block, blockStep, qs) && Fresh(node, block, qs)
    ensures qs == [Query(block, blockStep)]
  {
    if |qs| > 1 {
      var n := |qs| - 2;
      WindowsPositive(node, block, block, blockStep, qs, n);
      assert FollowedBy(node, n, qs[n], qs[n + 1], block, blockStep);
      BlocksAscend(node, block, block, blockStep, qs, n);
    }
  }

  lemma {:induction false} BlocksAscend<T>(node: Node<T>, fromBlock: int, toBlock: int, blockStep: int, qs: seq<Query>, i: nat)
    requires blockStep >= 1 && IsRun(node, fromBlock, toBlock, blockStep, qs) && i < |qs|
    ensures fromBlock <= qs[i].block
  {
    if i > 0 {
      BlocksAscend(node, fromBlock, toBlock, blockStep, qs, i - 1);
      WindowsPositive(node, fromBlock, toBlock, blockStep, qs, i - 1);
      assert FollowedBy(node, i - 1, qs[i - 1], qs[i - 1 + 1], toBlock, blockStep);
    }
  }

  /** A single block: the scan fails exactly when all of the first `log2(blockStep) + 1` calls are refused. */
  lemma GivesUpOnOneBlock<T(!new)>(node: Node<T>, block: int, blockStep: int)
    requires blockStep >= 1
    ensures GivesUp(node, block, block, blockStep) <==> forall call: nat :: call <= Log2(blockStep) ==> Refused(node, call, block)
  {
    GivesUpIff(node, block, block, blockStep);
    var one := [Query(block, blockStep)];
    forall call: nat | call <= Log2(blockStep)
      ensures Answered(node, 0 + call, Query(block, Shrunk(blockStep, call)), block) <==> !Refused(node, call, block)
    {
      ShrunkLog(blockStep, call);
    }
    if qs: seq<Query> :| MeetsRefusals(node, block, block, blockStep, qs) {
      OneBlockRuns(node, block, blockStep, qs);
    }
    if forall call: nat :: call <= Log2(blockStep) ==> Refused(node, call, block) {
      assert MeetsRefusals(node, block, block, blockStep, one);
    }
  }

  // ----- the block step must be positive -----

  /** Cursor and window after `n` answered queries. */
  function AfterSuccesses(n: nat, fromBlock: int, toBlock: int, blockStep: int): (int, int) {
    if n == 0 then (fromBlock, blockStep)
    else
      var (cursor, step) := AfterSuccesses(n - 1, fromBlock, toBlock, blockStep);
      (Min(cursor + step - 1, toBlock) + 1, Grown(step, blockStep))
  }

  /** With every query answered, the loop ends exactly when there is nothing to scan or the step is positive. */
  lemma EndsExactlyForPositiveStep(fromBlock: int, toBlock: int, blockStep: int)
    ensures (exists n: nat :: AfterSuccesses(n, fromBlock, toBlock, blockStep).0 > toBlock) <==>
      fromBlock > toBlock || blockStep >= 1
  {
    if fromBlock > toBlock {
      assert AfterSuccesses(0, fromBlock, toBlock, blockStep).0 > toBlock;
    } else if blockStep >= 1 {
      var n := toBlock - fromBlock + 1;
      Advances(n, fromBlock, toBlock, blockStep);
    } else {
      forall n: nat ensures AfterSuccesses(n, fromBlock, toBlock, blockStep).0 <= toBlock {
        NeverAdvances(n, fromBlock, toBlock, blockStep);
      }
    }
  }

  lemma {:induction false} Advances(n: nat, fromBlock: int, toBlock: int, blockStep: int)
    requires blockStep >= 1 && fromBlock <= toBlock
    ensures var (cursor, step) := AfterSuccesses(n, fromBlock, toBlock, blockStep);
      step == blockStep && cursor >= Min(fromBlock + n, toBlock + 1)
  {
    if n > 0 {
      Advances(n - 1, fromBlock, toBlock, blockStep);
    }
  }

  lemma {:induction false} NeverAdvances(n: nat, fromBlock: int, toBlock: int, blockStep: int)
    requires blockStep <= 0 && fromBlock <= toBlock
    ensures var (cursor, step) := AfterSuccesses(n, fromBlock, toBlock, blockStep); cursor <= fromBlock && step <= 0
  {
    if n > 0 {
      NeverAdvances(n - 1, fromBlock, toBlock, blockStep);
    }
  }
}
