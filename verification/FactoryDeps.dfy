/**
 Publishing factory dependencies: contracts' bytecodes are filtered and size-checked, then packed
 greedily, in order, into transactions of a bounded number of bytes.
 */
module FactoryDeps {
  import opened Wrappers
  import opened Words

  const MAX_COMBINED_LENGTH: nat := 125000

  type Bytecode = seq<Byte>

  datatype Dependency = Dependency(name: string, bytecodes: seq<Bytecode>)

  type Batch = seq<Dependency>

  function TotalBytesLength(bytecodes: seq<Bytecode>): nat {
    if bytecodes == [] then 0 else TotalBytesLength(bytecodes[..|bytecodes| - 1]) + |bytecodes[|bytecodes| - 1]|
  }

  function GetBytecodes(deps: Batch): seq<Bytecode> {
    if deps == [] then [] else GetBytecodes(deps[..|deps| - 1]) + deps[|deps| - 1].bytecodes
  }

  /** Number of bytes of one dependency, and of a batch. */
  function Size(d: Dependency): nat {
    TotalBytesLength(d.bytecodes)
  }

  function Load(batch: Batch): nat {
    if batch == [] then 0 else Load(batch[..|batch| - 1]) + Size(batch[|batch| - 1])
  }

  lemma {:induction false} TotalConcat(a: seq<Bytecode>, b: seq<Bytecode>)
    ensures TotalBytesLength(a + b) == TotalBytesLength(a) + TotalBytesLength(b)
  {
    if b == [] {
      assert a + b == a;
    } else {
      TotalConcat(a, b[..|b| - 1]);
      assert (a + b)[..|a + b| - 1] == a + b[..|b| - 1];
    }
  }

  /** The load counted while packing is the combined length of what is sent. */
  lemma {:induction false} LoadIsCombinedLength(batch: Batch)
    ensures TotalBytesLength(GetBytecodes(batch)) == Load(batch)
  {
    if batch != [] {
      LoadIsCombinedLength(batch[..|batch| - 1]);
      TotalConcat(GetBytecodes(batch[..|batch| - 1]), batch[|batch| - 1].bytecodes);
    }
  }

  // ----- the greedy packing -----

  datatype Packing = Packing(closed: seq<Batch>, current: Batch)

  function Close(p: Packing): seq<Batch> {
    if p.current == [] then p.closed else p.closed + [p.current]
  }

  function Add(p: Packing, d: Dependency): Packing {
    if Load(p.current) + Size(d) > MAX_COMBINED_LENGTH then Packing(Close(p), [d])
    else Packing(p.closed, p.current + [d])
  }

  function Greedy(deps: seq<Dependency>): Packing {
    if deps == [] then Packing([], []) else Add(Greedy(deps[..|deps| - 1]), deps[|deps| - 1])
  }

  function Batches(deps: seq<Dependency>): seq<Batch> {
    Close(Greedy(deps))
  }

  function Flatten(batches: seq<Batch>): seq<Dependency> {
    if batches == [] then [] else Flatten(batches[..|batches| - 1]) + batches[|batches| - 1]
  }

  lemma FlattenSnoc(batches: seq<Batch>, b: Batch)
    ensures Flatten(batches + [b]) == Flatten(batches) + b
  {
    assert (batches + [b])[..|batches|] == batches;
  }

  lemma LoadSnoc(batch: Batch, d: Dependency)
    ensures Load(batch + [d]) == Load(batch) + Size(d)
  {
    assert (batch + [d])[..|batch|] == batch;
  }

  lemma CloseFlattens(p: Packing)
    ensures Flatten(Close(p)) == Flatten(p.closed) + p.current
  {
    if p.current == [] {
      assert Flatten(p.closed) + [] == Flatten(p.closed);
    } else {
      FlattenSnoc(p.closed, p.current);
    }
  }

  /** All dependencies of a packing, in order. */
  function Packed(p: Packing): seq<Dependency> {
    Flatten(p.closed) + p.current
  }

  lemma AddKeeps(p: Packing, d: Dependency)
    ensures Packed(Add(p, d)) == Packed(p) + [d]
  {
    CloseFlattens(p);
    assert (Flatten(p.closed) + p.current) + [d] == Flatten(p.closed) + (p.current + [d]);
  }

  ghost predicate NoEmptyBatch(batches: seq<Batch>) {
    forall i :: 0 <= i < |batches| ==> batches[i] != []
  }

  lemma AddNoEmpty(p: Packing, d: Dependency)
    requires NoEmptyBatch(p.closed)
    ensures NoEmptyBatch(Add(p, d).closed)
  {
  }

  lemma PackedSnoc(init: seq<Dependency>, d: Dependency, p: Packing)
    requires p == Greedy(init) && Packed(p) == init
    ensures Packed(Greedy(init + [d])) == init + [d]
  {
    assert (init + [d])[..|init|] == init;
    AddKeeps(p, d);
  }

  /** Nothing is lost, duplicated or reordered. */
  lemma {:induction false} GreedyKeepsAll(deps: seq<Dependency>)
    ensures Packed(Greedy(deps)) == deps
  {
    if deps != [] {
      var init, d := deps[..|deps| - 1], deps[|deps| - 1];
      assert deps == init + [d];
      GreedyKeepsAll(init);
      PackedSnoc(init, d, Greedy(init));
    }
  }

  lemma {:induction false} GreedyNoEmpty(deps: seq<Dependency>)
    ensures NoEmptyBatch(Greedy(deps).closed)
  {
    if deps != [] {
      GreedyNoEmpty(deps[..|deps| - 1]);
      AddNoEmpty(Greedy(deps[..|deps| - 1]), deps[|deps| - 1]);
    }
  }

  lemma BatchesConcatenate(deps: seq<Dependency>)
    ensures Flatten(Batches(deps)) == deps
    ensures NoEmptyBatch(Batches(deps))
  {
    GreedyKeepsAll(deps);
    GreedyNoEmpty(deps);
    CloseFlattens(Greedy(deps));
  }

  // ----- the byte limit -----

  ghost predicate Fit(deps: seq<Dependency>) {
    forall i :: 0 <= i < |deps| ==> Size(deps[i]) <= MAX_COMBINED_LENGTH
  }

  ghost predicate WithinLimit(batches: seq<Batch>) {
    forall i :: 0 <= i < |batches| ==> Load(batches[i]) <= MAX_COMBINED_LENGTH
  }

  lemma {:induction false} GreedyWithinLimit(deps: seq<Dependency>)
    requires Fit(deps)
    ensures WithinLimit(Greedy(deps).closed) && Load(Greedy(deps).current) <= MAX_COMBINED_LENGTH
  {
    if deps != [] {
      var prev, d := deps[..|deps| - 1], deps[|deps| - 1];
      GreedyWithinLimit(prev);
      LoadSnoc(Greedy(prev).current, d);
      LoadSnoc([], d);
      assert [] + [d] == [d];
    }
  }

  lemma {:induction false} MemberBelowLoad(batch: Batch, k: nat)
    requires k < |batch|
    ensures Size(batch[k]) <= Load(batch)
  {
    if k < |batch| - 1 {
      MemberBelowLoad(batch[..|batch| - 1], k);
    }
  }

  lemma {:induction false} FlattenMember(batches: seq<Batch>, d: Dependency)
    requires d in Flatten(batches)
    ensures exists i :: 0 <= i < |batches| && d in batches[i]
  {
    var n := |batches| - 1;
    if d in batches[n] {
    } else {
      FlattenMember(batches[..n], d);
      var i :| 0 <= i < n && d in batches[..n][i];
      assert d in batches[i];
    }
  }

  /** Every batch respects the limit exactly when every single dependency does. */
  lemma BatchesWithinLimitIff(deps: seq<Dependency>)
    ensures WithinLimit(Batches(deps)) <==> Fit(deps)
  {
    var batches := Batches(deps);
    if Fit(deps) {
      GreedyWithinLimit(deps);
    }
    if WithinLimit(batches) {
      BatchesConcatenate(deps);
      forall i | 0 <= i < |deps| ensures Size(deps[i]) <= MAX_COMBINED_LENGTH {
        FlattenMember(batches, deps[i]);
        var j :| 0 <= j < |batches| && deps[i] in batches[j];
        var k :| 0 <= k < |batches[j]| && batches[j][k] == deps[i];
        MemberBelowLoad(batches[j], k);
      }
    }
  }

  // ----- optimality -----

  /** `p` is an order-preserving split of `deps` within the limit. */
  ghost predicate ValidSplit(p: seq<Batch>, deps: seq<Dependency>) {
    Flatten(p) == deps && WithinLimit(p)
  }

  /** The greedy packing is ahead of a split whose last of `n` batches has the given load. */
  ghost predicate Ahead(g: Packing, n: nat, last: nat) {
    |g.closed| + 1 < n || (|g.closed| + 1 == n && Load(g.current) <= last)
  }

  lemma AheadStep(g: Packing, d: Dependency, n: nat, last: nat)
    requires Ahead(g, n, last) && last + Size(d) <= MAX_COMBINED_LENGTH
    ensures Ahead(Add(g, d), n, last + Size(d))
  {
    LoadSnoc(g.current, d);
    LoadSnoc([], d);
    assert [] + [d] == [d];
  }

  lemma {:induction false} GreedyAhead(deps: seq<Dependency>, p: seq<Batch>)
    requires ValidSplit(p, deps) && p != []
    ensures Ahead(Greedy(deps), |p|, Load(p[|p| - 1]))
    decreases |deps|, |p|
  {
    var n := |p| - 1;
    var init, last := p[..n], p[n];
    assert p == init + [last];
    if last == [] {
      if deps == [] {
      } else {
        // an empty last batch only makes the split longer
        assert Flatten(init) + [] == Flatten(init);
        assert init != [];
        GreedyAhead(deps, init);
      }
    } else {
      var b, d := last[..|last| - 1], last[|last| - 1];
      assert last == b + [d];
      var prev, p' := deps[..|deps| - 1], init + [b];
      assert deps == Flatten(init) + last;
      assert d == deps[|deps| - 1] && prev == Flatten(init) + b;
      FlattenSnoc(init, b);
      LoadSnoc(b, d);
      GreedyAhead(prev, p');
      AheadStep(Greedy(prev), d, |p|, Load(b));
    }
  }

  /** No order-preserving split within the limit uses fewer batches. */
  lemma GreedyOptimal(deps: seq<Dependency>, p: seq<Batch>)
    requires ValidSplit(p, deps)
    ensures |Batches(deps)| <= |p|
  {
    if p != [] {
      GreedyAhead(deps, p);
    }
  }

  // ----- the filter and the size guard -----

  function Unpublished(bytecodes: seq<Bytecode>, published: Bytecode -> bool): seq<Bytecode> {
    if bytecodes == [] then []
    else
      var b := bytecodes[|bytecodes| - 1];
      Unpublished(bytecodes[..|bytecodes| - 1], published) + if published(b) then [] else [b]
  }

  method FilterPublishedFactoryDeps(factoryDeps: seq<Bytecode>, published: Bytecode -> bool)
    returns (bytecodesToDeploy: seq<Bytecode>, currentLength: nat)
    ensures bytecodesToDeploy == Unpublished(factoryDeps, published)
    ensures currentLength == TotalBytesLength(bytecodesToDeploy)
  {
    bytecodesToDeploy, currentLength := [], 0;
    for i := 0 to |factoryDeps|
      invariant bytecodesToDeploy == Unpublished(factoryDeps[..i], published)
      invariant currentLength == TotalBytesLength(bytecodesToDeploy)
    {
      assert factoryDeps[..i + 1][..i] == factoryDeps[..i];
      if !published(factoryDeps[i]) {
        currentLength := currentLength + |factoryDeps[i]|;
        TotalConcat(bytecodesToDeploy, [factoryDeps[i]]);
        bytecodesToDeploy := bytecodesToDeploy + [factoryDeps[i]];
      }
    }
    assert factoryDeps[..|factoryDeps|] == factoryDeps;
  }

  datatype Contract = Contract(name: string, factoryDeps: seq<Bytecode>, outdated: bool)

  /** What is to be published: the unpublished bytecodes of every contract that has any. */
  function ToPublish(contracts: seq<Contract>, published: Bytecode -> bool): seq<Dependency> {
    if contracts == [] then []
    else
      ToPublish(contracts[..|contracts| - 1], published) + Pending(contracts[|contracts| - 1], published)
  }

  /** What one contract adds to it. */
  function Pending(c: Contract, published: Bytecode -> bool): seq<Dependency> {
    var rest := Unpublished(c.factoryDeps, published);
    if rest == [] then [] else [Dependency(c.name, rest)]
  }

  /** The unpublished part of one contract, and whether it fits into a transaction. */
  method FindPending(c: Contract, published: Bytecode -> bool) returns (pending: seq<Dependency>, fits: bool)
    ensures pending == Pending(c, published)
    ensures fits <==> Fit(pending)
  {
    var bytecodesToPublish, currentLength := FilterPublishedFactoryDeps(c.factoryDeps, published);
    if |bytecodesToPublish| == 0 {
      return [], true;
    }
    pending := [Dependency(c.name, bytecodesToPublish)];
    fits := currentLength <= MAX_COMBINED_LENGTH;
    assert Size(pending[0]) == currentLength;
  }

  function Outdated(contracts: seq<Contract>): seq<string> {
    if contracts == [] then []
    else
      var c := contracts[|contracts| - 1];
      Outdated(contracts[..|contracts| - 1]) + if c.outdated then [c.name] else []
  }

  /** A transaction as handed to the network. */
  datatype Sent = Sent(nonce: nat, batch: Batch)

  function Numbered(batches: seq<Batch>, nonce: nat): (r: seq<Sent>)
    ensures |r| == |batches|
    ensures forall i :: 0 <= i < |r| ==> r[i] == Sent(nonce + i, batches[i])
  {
    seq(|batches|, i requires 0 <= i < |batches| => Sent(nonce + i, batches[i]))
  }

  lemma NumberedSnoc(batches: seq<Batch>, b: Batch, nonce: nat)
    ensures Numbered(batches + [b], nonce) == Numbered(batches, nonce) + [Sent(nonce + |batches|, b)]
  {
  }

  /** What becomes of a transaction: not sent at all, sent but never committed on L1, or committed. */
  datatype Reply = Rejected | Uncommitted | Committed

  class ZkSyncDeployer {
    var nonce: nat
    var dependenciesToUpgrade: seq<string>
    var sent: seq<Sent>

    constructor (nonce: nat)
      ensures this.nonce == nonce && dependenciesToUpgrade == [] && sent == []
    {
      this.nonce := nonce;
      dependenciesToUpgrade := [];
      sent := [];
    }

    /**
     Sends one transaction unless there is nothing to send, and waits for its commit. The nonce
     advances after the commit only, so a transaction can be on its way under a nonce still in use.
     */
    method PublishFactoryDeps(deps: Batch, network: nat -> Reply) returns (ok: bool)
      modifies this`nonce, this`sent
      ensures ok <==> deps == [] || network(old(nonce)) == Committed
      ensures nonce == old(nonce) + if ok && deps != [] then 1 else 0
      ensures sent == old(sent) + if deps != [] && network(old(nonce)) != Rejected then [Sent(old(nonce), deps)] else []
    {
      if |deps| == 0 {
        return true;
      }
      if network(nonce) == Rejected {
        return false;
      }
      sent := sent + [Sent(nonce, deps)];
      if network(nonce) == Uncommitted {
        return false;
      }
      nonce := nonce + 1;
      ok := true;
    }

    /** Since nonce `n0` and log `s0`, exactly `batches` have been sent. */
    ghost predicate HasSent(batches: seq<Batch>, n0: nat, s0: seq<Sent>)
      reads this`nonce, this`sent
    {
      nonce == n0 + |batches| && sent == s0 + Numbered(batches, n0)
    }

    /** A batch was not committed: those before it have been sent, and itself unless it was rejected. */
    ghost predicate Stopped(batches: seq<Batch>, n0: nat, s0: seq<Sent>, network: nat -> Reply)
      reads this`nonce, this`sent
    {
      && n0 <= nonce < n0 + |batches| && network(nonce) != Committed
      && sent == s0 + Numbered(batches[..nonce - n0 + if network(nonce) == Rejected then 0 else 1], n0)
    }

    /** Every nonce used up since `n0` belongs to a committed transaction. */
    ghost predicate Confirmed(n0: nat, network: nat -> Reply)
      reads this`nonce
    {
      forall k :: n0 <= k < nonce ==> network(k) == Committed
    }

    lemma StoppedEarlier(some: seq<Batch>, batches: seq<Batch>, n0: nat, s0: seq<Sent>, network: nat -> Reply)
      requires Stopped(some, n0, s0, network) && some <= batches
      ensures Stopped(batches, n0, s0, network)
    {
      var k := nonce - n0 + if network(nonce) == Rejected then 0 else 1;
      assert batches[..k] == some[..k];
    }

    /** Sending the open batch of a packing whose closed batches are already sent. */
    method PublishOpen(currentDependencies: Batch, network: nat -> Reply, ghost p: Packing, ghost n0: nat, ghost s0: seq<Sent>)
      returns (ok: bool)
      requires HasSent(p.closed, n0, s0) && currentDependencies == p.current && Confirmed(n0, network)
      modifies this`nonce, this`sent
      ensures Confirmed(n0, network)
      ensures ok ==> HasSent(Close(p), n0, s0)
      ensures !ok ==> p.current != [] && Stopped(Close(p), n0, s0, network)
    {
      NumberedSnoc(p.closed, p.current, n0);
      assert p.current != [] ==> Close(p)[..|p.closed|] == p.closed && Close(p)[..|p.closed| + 1] == Close(p);
      ok := this.PublishFactoryDeps(currentDependencies, network);
    }

    /** The loop: sends every batch that is closed and returns the one still open. */
    method PublishClosed(deps: seq<Dependency>, network: nat -> Reply) returns (ok: bool, currentDependencies: Batch)
      modifies this`nonce, this`sent
      ensures Confirmed(old(nonce), network)
      ensures ok ==> Greedy(deps).current == currentDependencies && HasSent(Greedy(deps).closed, old(nonce), old(sent))
      ensures !ok ==> Stopped(Batches(deps), old(nonce), old(sent), network)
    {
      var currentLength := 0;
      currentDependencies := [];
      ghost var p := Packing([], []);
      for i := 0 to |deps|
        invariant p == Greedy(deps[..i]) && p.current == currentDependencies
        invariant currentLength == Load(currentDependencies)
        invariant HasSent(p.closed, old(nonce), old(sent)) && Confirmed(old(nonce), network)
      {
        var dependencyLength := TotalBytesLength(deps[i].bytecodes);
        GreedyStep(deps, i, p);
        if currentLength + dependencyLength > MAX_COMBINED_LENGTH {
          ok := this.PublishOpen(currentDependencies, network, p, old(nonce), old(sent));
          if !ok {
            ClosedIsPrefix(deps, i, p);
            StoppedEarlier(Close(p), Batches(deps), old(nonce), old(sent), network);
            return;
          }
          currentLength := dependencyLength;
          currentDependencies := [deps[i]];
        } else {
          currentLength := currentLength + dependencyLength;
          currentDependencies := currentDependencies + [deps[i]];
        }
        p := Greedy(deps[..i + 1]);
      }
      assert deps[..|deps|] == deps;
      ok := true;
    }

    /**
     Publishes the greedy batches under consecutive nonces. When one is not committed, exactly the
     batches before it have been sent, and itself unless it was rejected.
     */
    method PublishDependencies(deps: seq<Dependency>, network: nat -> Reply) returns (ok: bool)
      modifies this`nonce, this`sent
      ensures ok <==> forall k :: old(nonce) <= k < old(nonce) + |Batches(deps)| ==> network(k) == Committed
      ensures Confirmed(old(nonce), network)
      ensures ok ==> HasSent(Batches(deps), old(nonce), old(sent))
      ensures !ok ==> Stopped(Batches(deps), old(nonce), old(sent), network)
    {
      var current;
      ok, current := PublishClosed(deps, network);
      if ok && |current| > 0 {
        ok := this.PublishOpen(current, network, Greedy(deps), old(nonce), old(sent));
      }
    }

    /** One contract: its unpublished part joins the result, unless it is over the limit. */
    method PrepareContract(contracts: seq<Contract>, published: Bytecode -> bool, i: nat, result: seq<Dependency>, ghost names: seq<string>)
      returns (fits: bool, next: seq<Dependency>)
      requires i < |contracts| && result == ToPublish(contracts[..i], published) && Fit(result) && names == Outdated(contracts[..i])
      modifies this`dependenciesToUpgrade
      ensures if fits then next == ToPublish(contracts[..i + 1], published) && Fit(next) else !Fit(ToPublish(contracts, published))
      ensures forall before :: old(dependenciesToUpgrade) == before + names ==> dependenciesToUpgrade == before + Outdated(contracts[..i + 1])
    {
      var contract := contracts[i];
      if contract.outdated {
        dependenciesToUpgrade := dependenciesToUpgrade + [contract.name];
      }
      OutdatedStep(contracts, i);
      var pending;
      pending, fits := FindPending(contract, published);
      next := result + pending;
      if fits {
        FitConcat(result, pending);
        PendingStep(contracts, published, i, result, pending);
      } else {
        Oversized(contracts, published, i, pending);
      }
    }

    /** Collects what has to be published; a contract over the limit stops the run. */
    method PrepareContractsForPublishing(contracts: seq<Contract>, published: Bytecode -> bool) returns (r: Result<seq<Dependency>>)
      modifies this`dependenciesToUpgrade
      ensures r.Ok? <==> Fit(ToPublish(contracts, published))
      ensures r.Ok? ==> r.value == ToPublish(contracts, published)
      ensures r.Ok? ==> dependenciesToUpgrade == old(dependenciesToUpgrade) + Outdated(contracts)
    {
      var result: seq<Dependency> := [];
      assert contracts[..|contracts|] == contracts;
      for i := 0 to |contracts|
        invariant result == ToPublish(contracts[..i], published) && Fit(result)
        invariant dependenciesToUpgrade == old(dependenciesToUpgrade) + Outdated(contracts[..i])
      {
        var fits, next := PrepareContract(contracts, published, i, result, Outdated(contracts[..i]));
        if !fits {
          return Err("Can not publish dependencies of contract " + contracts[i].name);
        }
        result := next;
      }
      r := Ok(result);
    }

    /**
     The whole command. Something over the limit stops it before anything is sent. Otherwise the
     greedy batches go out under consecutive nonces, all of them if every one is committed: then the
     transactions together carry exactly the unpublished bytecodes of all contracts, in order. No
     transaction carries more than the limit.
     */
    method PublishSystemContracts(contracts: seq<Contract>, published: Bytecode -> bool, network: nat -> Reply)
      returns (ok: bool)
      modifies this
      ensures var batches := Batches(ToPublish(contracts, published));
        ok <==> (Fit(ToPublish(contracts, published)) && forall k :: old(nonce) <= k < old(nonce) + |batches| ==> network(k) == Committed)
      ensures ok ==> HasSent(Batches(ToPublish(contracts, published)), old(nonce), old(sent))
      ensures !ok && Fit(ToPublish(contracts, published)) ==>
        Stopped(Batches(ToPublish(contracts, published)), old(nonce), old(sent), network)
      ensures !Fit(ToPublish(contracts, published)) ==> sent == old(sent) && nonce == old(nonce)
      ensures Fit(ToPublish(contracts, published)) ==> dependenciesToUpgrade == old(dependenciesToUpgrade) + Outdated(contracts)
      ensures ok ==> |old(sent)| <= |sent| && Carried(sent[|old(sent)|..]) == Unpublished(AllFactoryDeps(contracts), published)
      ensures forall i :: |old(sent)| <= i < |sent| ==>
        TotalBytesLength(GetBytecodes(sent[i].batch)) <= MAX_COMBINED_LENGTH && sent[i].nonce == old(nonce) + (i - |old(sent)|)
    {
      var deps := PrepareContractsForPublishing(contracts, published);
      if deps.Err? {
        return false;
      }
      ghost var batches := Batches(deps.value);
      ok := PublishDependencies(deps.value, network);
      BatchesWithinLimitIff(deps.value);
      SentWithinLimit(batches, old(nonce), old(sent), network);
      if ok {
        PublishesExactly(contracts, published, old(nonce));
        assert sent[|old(sent)|..] == Numbered(batches, old(nonce));
      }
    }

    lemma SentWithinLimit(batches: seq<Batch>, n0: nat, s0: seq<Sent>, network: nat -> Reply)
      requires WithinLimit(batches) && (HasSent(batches, n0, s0) || Stopped(batches, n0, s0, network))
      ensures forall i :: |s0| <= i < |sent| ==>
        TotalBytesLength(GetBytecodes(sent[i].batch)) <= MAX_COMBINED_LENGTH && sent[i].nonce == n0 + (i - |s0|)
    {
      forall i | |s0| <= i < |sent|
        ensures TotalBytesLength(GetBytecodes(sent[i].batch)) <= MAX_COMBINED_LENGTH
        ensures sent[i].nonce == n0 + (i - |s0|)
      {
        LoadIsCombinedLength(sent[i].batch);
      }
    }
  }

  // ----- what is carried -----

  /** The bytecodes that transactions carry, one after the other. */
  function Carried(log: seq<Sent>): seq<Bytecode> {
    if log == [] then [] else Carried(log[..|log| - 1]) + GetBytecodes(log[|log| - 1].batch)
  }

  function AllFactoryDeps(contracts: seq<Contract>): seq<Bytecode> {
    if contracts == [] then [] else AllFactoryDeps(contracts[..|contracts| - 1]) + contracts[|contracts| - 1].factoryDeps
  }

  lemma {:induction false} BytecodesConcat(a: Batch, b: Batch, all: Batch)
    requires all == a + b
    ensures GetBytecodes(all) == GetBytecodes(a) + GetBytecodes(b)
  {
    if b == [] {
      assert all == a;
    } else {
      var init := all[..|all| - 1];
      assert init == a + b[..|b| - 1];
      BytecodesConcat(a, b[..|b| - 1], init);
    }
  }

  lemma {:induction false} UnpublishedConcat(a: seq<Bytecode>, b: seq<Bytecode>, published: Bytecode -> bool)
    ensures Unpublished(a + b, published) == Unpublished(a, published) + Unpublished(b, published)
  {
    if b == [] {
      assert a + b == a;
    } else {
      UnpublishedConcat(a, b[..|b| - 1], published);
      assert (a + b)[..|a + b| - 1] == a + b[..|b| - 1];
    }
  }

  lemma PendingBytecodes(c: Contract, published: Bytecode -> bool)
    ensures GetBytecodes(Pending(c, published)) == Unpublished(c.factoryDeps, published)
  {
    var rest := Unpublished(c.factoryDeps, published);
    if rest != [] {
      assert [Dependency(c.name, rest)][..0] == [];
    }
  }

  lemma {:induction false} ToPublishBytecodes(contracts: seq<Contract>, published: Bytecode -> bool)
    ensures GetBytecodes(ToPublish(contracts, published)) == Unpublished(AllFactoryDeps(contracts), published)
  {
    if contracts != [] {
      var init, c := contracts[..|contracts| - 1], contracts[|contracts| - 1];
      ToPublishBytecodes(init, published);
      PendingBytecodes(c, published);
      BytecodesConcat(ToPublish(init, published), Pending(c, published), ToPublish(contracts, published));
      UnpublishedConcat(AllFactoryDeps(init), c.factoryDeps, published);
    }
  }

  lemma {:induction false} CarriedIsFlattened(batches: seq<Batch>, nonce: nat)
    ensures Carried(Numbered(batches, nonce)) == GetBytecodes(Flatten(batches))
  {
    if batches != [] {
      var init := batches[..|batches| - 1];
      CarriedIsFlattened(init, nonce);
      assert Numbered(batches, nonce)[..|batches| - 1] == Numbered(init, nonce);
      BytecodesConcat(Flatten(init), batches[|batches| - 1], Flatten(batches));
    }
  }

  /** The greedy batches together carry exactly the unpublished bytecodes of all contracts, in order. */
  lemma PublishesExactly(contracts: seq<Contract>, published: Bytecode -> bool, nonce: nat)
    ensures Carried(Numbered(Batches(ToPublish(contracts, published)), nonce)) == Unpublished(AllFactoryDeps(contracts), published)
  {
    var deps := ToPublish(contracts, published);
    CarriedIsFlattened(Batches(deps), nonce);
    BatchesConcatenate(deps);
    ToPublishBytecodes(contracts, published);
  }

  /** The filter keeps every occurrence of an unpublished bytecode and none of a published one. */
  lemma {:induction false} UnpublishedCounts(bytecodes: seq<Bytecode>, published: Bytecode -> bool, b: Bytecode)
    ensures multiset(Unpublished(bytecodes, published))[b] == if published(b) then 0 else multiset(bytecodes)[b]
  {
    if bytecodes != [] {
      var init, last := bytecodes[..|bytecodes| - 1], bytecodes[|bytecodes| - 1];
      assert bytecodes == init + [last];
      UnpublishedCounts(init, published, b);
    }
  }

  lemma GreedyStep(deps: seq<Dependency>, i: nat, p: Packing)
    requires i < |deps| && p == Greedy(deps[..i])
    ensures Load([deps[i]]) == Size(deps[i])
    ensures Load(p.current + [deps[i]]) == Load(p.current) + Size(deps[i])
    ensures Greedy(deps[..i + 1]) ==
      if Load(p.current) + Size(deps[i]) > MAX_COMBINED_LENGTH then Packing(Close(p), [deps[i]])
      else Packing(p.closed, p.current + [deps[i]])
  {
    assert deps[..i + 1][..i] == deps[..i];
    assert [] + [deps[i]] == [deps[i]];
    LoadSnoc([], deps[i]);
    LoadSnoc(p.current, deps[i]);
  }

  /** Once a batch has been closed by a later dependency, it is one of the final batches. */
  lemma ClosedIsPrefix(deps: seq<Dependency>, i: nat, p: Packing)
    requires i < |deps| && p == Greedy(deps[..i]) && p.current != []
    requires Load(p.current) + Size(deps[i]) > MAX_COMBINED_LENGTH
    ensures Close(p) <= Batches(deps)
  {
    GreedyStep(deps, i, p);
    BatchesExtend(deps, i + 1);
  }

  lemma FitConcat(a: seq<Dependency>, b: seq<Dependency>)
    ensures Fit(a + b) <==> Fit(a) && Fit(b)
  {
    assert forall i :: 0 <= i < |a| ==> (a + b)[i] == a[i];
    assert forall i :: 0 <= i < |b| ==> (a + b)[|a| + i] == b[i];
  }

  lemma ToPublishStep(contracts: seq<Contract>, published: Bytecode -> bool, i: nat)
    requires i < |contracts|
    ensures ToPublish(contracts[..i + 1], published) == ToPublish(contracts[..i], published) + Pending(contracts[i], published)
  {
    assert contracts[..i + 1][..i] == contracts[..i];
  }

  lemma PendingStep(contracts: seq<Contract>, published: Bytecode -> bool, i: nat, before: seq<Dependency>, pending: seq<Dependency>)
    requires i < |contracts| && before == ToPublish(contracts[..i], published) && pending == Pending(contracts[i], published)
    ensures before + pending == ToPublish(contracts[..i + 1], published)
  {
    ToPublishStep(contracts, published, i);
  }

  lemma OutdatedStep(contracts: seq<Contract>, i: nat)
    requires i < |contracts|
    ensures var before, after := Outdated(contracts[..i]), Outdated(contracts[..i + 1]);
      after == if contracts[i].outdated then before + [contracts[i].name] else before
  {
    assert contracts[..i + 1][..i] == contracts[..i];
  }

  /** A contract over the limit is among what had to be published. */
  lemma Oversized(contracts: seq<Contract>, published: Bytecode -> bool, i: nat, pending: seq<Dependency>)
    requires i < |contracts| && pending == Pending(contracts[i], published) && !Fit(pending)
    ensures !Fit(ToPublish(contracts, published))
  {
    ToPublishStep(contracts, published, i);
    ToPublishPrefix(contracts, published, i + 1);
    var all, upto := ToPublish(contracts, published), ToPublish(contracts[..i + 1], published);
    assert all == upto + all[|upto|..];
    FitConcat(upto, all[|upto|..]);
    FitConcat(ToPublish(contracts[..i], published), pending);
  }

  lemma {:induction false} ToPublishPrefix(contracts: seq<Contract>, published: Bytecode -> bool, i: nat)
    requires i <= |contracts|
    ensures ToPublish(contracts[..i], published) <= ToPublish(contracts, published)
    decreases |contracts| - i
  {
    if i < |contracts| {
      ToPublishPrefix(contracts, published, i + 1);
      assert contracts[..i + 1][..i] == contracts[..i];
    } else {
      assert contracts[..i] == contracts;
    }
  }

  /** Closed batches stay: later dependencies only add to them. */
  lemma {:induction false} BatchesExtend(deps: seq<Dependency>, i: nat)
    requires i <= |deps|
    ensures Greedy(deps[..i]).closed <= Batches(deps)
    ensures i == |deps| || Greedy(deps[..i]).closed <= Greedy(deps[..i + 1]).closed
    decreases |deps| - i
  {
    if i < |deps| {
      BatchesExtend(deps, i + 1);
      assert deps[..i + 1][..i] == deps[..i];
    } else {
      assert deps[..i] == deps;
    }
  }
}
