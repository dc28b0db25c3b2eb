/** What the order of steps decides: which blocks of an honest chain a node attests, and which
    heights its own engine then reports final. */
module Schedules {
  import opened Types
  import opened Preimages
  import opened Pipeline
  import opened WeightSum
  import Sync
  import Verification
  import Consensus

  // ----- Calls that are not interleaved

  /** A processBlock call that runs to completion, or a query. */
  datatype Call = Deliver(g: Goroutine, block: L2Block) | Ask(number: u64)

  function ApplyCall(env: Env, n: Node, call: Call): Node {
    match call
    case Deliver(g, b) => Apply(env, Apply(env, n, StoreStep(g, b)), CallbackStep(g))
    case Ask(number) => Apply(env, n, QueryStep(number))
  }

  function Sequential(env: Env, n: Node, calls: seq<Call>): Node {
    if calls == [] then n else ApplyCall(env, Sequential(env, n, calls[..|calls| - 1]), calls[|calls| - 1])
  }

  function StepsOf(calls: seq<Call>): seq<Step> {
    if calls == [] then []
    else
      StepsOf(calls[..|calls| - 1]) +
      match calls[|calls| - 1]
      case Deliver(g, b) => [StoreStep(g, b)] + [CallbackStep(g)]
      case Ask(number) => [QueryStep(number)]
  }

  /** Sequential calls are one of the interleavings. */
  lemma {:induction false} SequentialIsExec(env: Env, n: Node, calls: seq<Call>)
    ensures Exec(env, n, StepsOf(calls)) == Sequential(env, n, calls)
  {
    if calls != [] {
      var before := calls[..|calls| - 1];
      SequentialIsExec(env, n, before);
      match calls[|calls| - 1]
      case Deliver(g, b) =>
        ExecSnoc(env, n, StepsOf(before), StoreStep(g, b));
        ExecSnoc(env, n, StepsOf(before) + [StoreStep(g, b)], CallbackStep(g));
        assert StepsOf(before) + ([StoreStep(g, b)] + [CallbackStep(g)]) == StepsOf(before) + [StoreStep(g, b)] + [CallbackStep(g)];
      case Ask(number) =>
        ExecSnoc(env, n, StepsOf(before), QueryStep(number));
    }
  }

  predicate NoBlockZero(calls: seq<Call>) {
    forall i :: 0 <= i < |calls| && calls[i].Deliver? ==> calls[i].block.number != 0
  }

  /** Everything stored has been delivered, in the order 1, 2, 3, ... */
  predicate InOrder(n: Node) {
    && n.pending == map[] && |n.delivered| < TWO_64
    && Sync.Shape(n.store, |n.delivered|) && n.store.latest == |n.delivered| && 0 !in n.store.blocks
    && (forall i :: 0 <= i < |n.delivered| ==> n.delivered[i].block.number == i + 1)
  }

  lemma CallKeepsOrder(env: Env, n: Node, call: Call)
    requires InOrder(n) && (call.Deliver? ==> call.block.number != 0)
    ensures InOrder(ApplyCall(env, n, call))
    ensures call.Ask? ==> ApplyCall(env, n, call).delivered == n.delivered
    ensures call.Deliver? && !Sync.Stores(n.store, call.block) ==> ApplyCall(env, n, call) == n
    ensures call.Deliver? && Sync.Stores(n.store, call.block) ==>
      && call.block.number == |n.delivered| + 1
      && ApplyCall(env, n, call) == OnNewBlock(env, n.(store := Sync.Process(n.store, call.block)), call.block)
  {
    if call.Deliver? && Sync.Stores(n.store, call.block) {
      var h := Sync.ProcessKeepsShape(n.store, |n.delivered|, call.block);
      assert n.pending[call.g := call.block] - {call.g} == n.pending;
    }
  }

  /** Without interleaving and without a block 0, delivery is exactly 1, 2, ..., latest. */
  lemma {:induction false} SequentialDeliversInOrder(env: Env, start: Node, calls: seq<Call>)
    requires Initial(env, start) && NoBlockZero(calls)
    ensures InOrder(Sequential(env, start, calls))
  {
    if calls != [] {
      SequentialDeliversInOrder(env, start, calls[..|calls| - 1]);
      CallKeepsOrder(env, Sequential(env, start, calls[..|calls| - 1]), calls[|calls| - 1]);
    }
  }

  // ----- An honest chain

  /** The state root after k blocks of the chain. */
  function RootAt(sha: Verification.HashFunction, chain: Sync.Chain, k: u64): Hash
    decreases k
  {
    if k == 0 then Verification.GenesisRoot(sha)
    else Verification.NextRoot(sha, RootAt(sha, chain, k - 1), chain(k))
  }

  predicate ClaimsItsRoot(sha: Verification.HashFunction, chain: Sync.Chain, k: u64) {
    chain(k).stateRoot == ToHex(RootAt(sha, chain, k))
  }

  predicate SameRoot(sha: Verification.HashFunction, chain: Sync.Chain, j: u64, k: u64) {
    RootAt(sha, chain, j) == RootAt(sha, chain, k)
  }

  /** The preimage of block k on top of root j. */
  function PreimageOn(sha: Verification.HashFunction, chain: Sync.Chain, j: u64, k: u64): Bytes {
    RootPreimage(Verification.RootFieldsOf(RootAt(sha, chain, j), chain(k)))
  }

  /** Block k on top of root j does not collide with block k in its own place. */
  predicate ClashFree(sha: Verification.HashFunction, chain: Sync.Chain, j: u64, k: u64)
    requires k >= 1
  {
    sha(PreimageOn(sha, chain, j, k)) == sha(PreimageOn(sha, chain, k - 1, k)) ==>
      PreimageOn(sha, chain, j, k) == PreimageOn(sha, chain, k - 1, k)
  }

  /** Up to `top`, every block claims the right root, no two heights share a root, and no block
      hashed on top of another root of the chain collides with itself in its own place. */
  ghost predicate HonestChain(sha: Verification.HashFunction, chain: Sync.Chain, top: u64) {
    && Sync.IsChain(chain)
    && (forall k: u64 :: 1 <= k <= top ==> ClaimsItsRoot(sha, chain, k))
    && (forall j: u64, k: u64 :: j <= top && k <= top && SameRoot(sha, chain, j, k) ==> j == k)
    && (forall j: u64, k: u64 :: j <= top && 1 <= k <= top ==> ClashFree(sha, chain, j, k))
  }

  /** On top of root j, the verifier accepts exactly block j + 1. */
  lemma AcceptsOnlyNext(sha: Verification.HashFunction, chain: Sync.Chain, top: u64, j: u64, k: u64)
    requires HonestChain(sha, chain, top) && j <= top && 1 <= k <= top
    ensures Verification.Accepts(sha, RootAt(sha, chain, j), chain(k)) <==> k == j + 1
    ensures Verification.RootAfter(sha, RootAt(sha, chain, j), chain(k)) == RootAt(sha, chain, if k == j + 1 then k else j)
  {
    var root := RootAt(sha, chain, j);
    assert ClaimsItsRoot(sha, chain, k) && ClashFree(sha, chain, j, k);
    if Verification.Accepts(sha, root, chain(k)) {
      ToHexInjective(Verification.NextRoot(sha, root, chain(k)), RootAt(sha, chain, k));
      RootPreimageUnambiguous(Verification.RootFieldsOf(root, chain(k)), Verification.RootFieldsOf(RootAt(sha, chain, k - 1), chain(k)));
      assert SameRoot(sha, chain, j, k - 1);
    }
  }

  predicate HonestStep(chain: Sync.Chain, top: u64, step: Step) {
    step.StoreStep? ==> 1 <= step.block.number <= top && step.block == chain(step.block.number)
  }

  predicate HonestBlocks(chain: Sync.Chain, top: u64, n: Node) {
    && (forall k :: k in n.store.blocks ==> 1 <= k <= top && n.store.blocks[k] == chain(k))
    && (forall g :: g in n.pending ==> n.pending[g].number in n.store.blocks && n.pending[g] == n.store.blocks[n.pending[g].number])
  }

  function AcceptedCount(ds: seq<Delivery>): nat {
    if ds == [] then 0 else AcceptedCount(ds[..|ds| - 1]) + if ds[|ds| - 1].accepted then 1 else 0
  }

  /** Delivery i was accepted exactly when it is the block after those accepted before it. */
  predicate GreedyAcceptance(ds: seq<Delivery>) {
    forall i :: 0 <= i < |ds| ==> (ds[i].accepted <==> ds[i].block.number == AcceptedCount(ds[..i]) + 1)
  }

  predicate OnTrack(env: Env, chain: Sync.Chain, top: u64, n: Node) {
    HonestBlocks(chain, top, n) && Greedy(env, chain, top, n.delivered, n.root)
  }

  lemma GreedySnoc(ds: seq<Delivery>, d: Delivery)
    requires GreedyAcceptance(ds) && (d.accepted <==> d.block.number == AcceptedCount(ds) + 1)
    ensures GreedyAcceptance(ds + [d])
    ensures AcceptedCount(ds + [d]) == AcceptedCount(ds) + if d.accepted then 1 else 0
  {
    var all := ds + [d];
    assert all[..|ds|] == ds;
    assert forall i :: 0 <= i < |ds| ==> all[..i] == ds[..i];
  }

  predicate Greedy(env: Env, chain: Sync.Chain, top: u64, delivered: seq<Delivery>, root: Hash) {
    && GreedyAcceptance(delivered) && AcceptedCount(delivered) <= top
    && root == RootAt(env.sha, chain, AcceptedCount(delivered))
  }

  lemma CallbackStaysGreedy(env: Env, chain: Sync.Chain, top: u64, delivered: seq<Delivery>, root: Hash, b: L2Block)
    requires HonestChain(env.sha, chain, top) && Greedy(env, chain, top, delivered, root)
    requires 1 <= b.number <= top && b == chain(b.number)
    ensures Greedy(env, chain, top, delivered + [Delivery(b, root, Verification.Accepts(env.sha, root, b))],
                   Verification.RootAfter(env.sha, root, b))
  {
    var m := AcceptedCount(delivered);
    AcceptsOnlyNext(env.sha, chain, top, m, b.number);
    GreedySnoc(delivered, Delivery(b, root, b.number == m + 1));
  }

  lemma StepStaysOnTrack(env: Env, chain: Sync.Chain, top: u64, n: Node, step: Step)
    requires HonestChain(env.sha, chain, top)
    requires OnTrack(env, chain, top, n) && HonestStep(chain, top, step) && !step.QueryStep?
    ensures OnTrack(env, chain, top, Apply(env, n, step))
  {
    if step.CallbackStep? && step.g in n.pending {
      var b := n.pending[step.g];
      assert b == chain(b.number);
      CallbackStaysGreedy(env, chain, top, n.delivered, n.root, b);
    }
  }

  /** In every interleaving of honest deliveries, without queries, a delivered block is accepted and
      attested exactly when all lower heights were accepted before its callback ran. */
  lemma {:induction false} AcceptedIffPredecessorsWere(env: Env, chain: Sync.Chain, top: u64, start: Node, steps: seq<Step>)
    requires HonestChain(env.sha, chain, top)
    requires Initial(env, start)
    requires forall i :: 0 <= i < |steps| ==> HonestStep(chain, top, steps[i]) && !steps[i].QueryStep?
    ensures OnTrack(env, chain, top, Exec(env, start, steps))
  {
    if steps != [] {
      AcceptedIffPredecessorsWere(env, chain, top, start, steps[..|steps| - 1]);
      StepStaysOnTrack(env, chain, top, Exec(env, start, steps[..|steps| - 1]), steps[|steps| - 1]);
    }
  }

  predicate AllAccepted(ds: seq<Delivery>) {
    forall i :: 0 <= i < |ds| ==> ds[i].accepted
  }

  predicate InSequence(ds: seq<Delivery>) {
    forall i :: 0 <= i < |ds| ==> ds[i].block.number == i + 1
  }

  /** So everything delivered is attested exactly when callbacks ran in the order 1, 2, 3, ... */
  lemma {:induction false} AllAcceptedIffInSequence(ds: seq<Delivery>)
    requires GreedyAcceptance(ds)
    ensures AllAccepted(ds) <==> InSequence(ds)
    ensures AllAccepted(ds) ==> AcceptedCount(ds) == |ds|
  {
    if ds != [] {
      var n := |ds| - 1;
      assert forall i :: 0 <= i < n ==> ds[..n][..i] == ds[..i];
      AllAcceptedIffInSequence(ds[..n]);
      FrontAndLast(ds);
    }
  }

  lemma FrontAndLast(ds: seq<Delivery>)
    requires ds != []
    ensures var n := |ds| - 1;
            && (AllAccepted(ds) <==> AllAccepted(ds[..n]) && ds[n].accepted)
            && (InSequence(ds) <==> InSequence(ds[..n]) && ds[n].block.number == |ds|)
  {
    var n := |ds| - 1;
    assert ds == ds[..n] + [ds[n]];
    assert forall i :: 0 <= i < n ==> ds[..n][i] == ds[i];
  }

  // ----- Sequential calls attest the whole chain

  predicate HonestCall(chain: Sync.Chain, top: u64, call: Call) {
    call.Deliver? ==> 1 <= call.block.number <= top && call.block == chain(call.block.number)
  }

  predicate Complete(env: Env, chain: Sync.Chain, top: u64, n: Node) {
    && InOrder(n) && AllAccepted(n.delivered) && |n.delivered| <= top
    && (forall k :: k in n.store.blocks ==> n.store.blocks[k] == chain(k))
    && n.root == RootAt(env.sha, chain, |n.delivered|)
  }

  lemma CallKeepsComplete(env: Env, chain: Sync.Chain, top: u64, n: Node, call: Call)
    requires HonestChain(env.sha, chain, top)
    requires Complete(env, chain, top, n) && HonestCall(chain, top, call)
    ensures Complete(env, chain, top, ApplyCall(env, n, call))
  {
    CallKeepsOrder(env, n, call);
    var h := |n.delivered|;
    match call
    case Deliver(g, b) =>
      if Sync.Stores(n.store, b) {
        AcceptsOnlyNext(env.sha, chain, top, h, b.number);
      }
    case Ask(k) =>
      if k in n.store.blocks {
        AcceptsOnlyNext(env.sha, chain, top, h, k);
      }
  }

  /** When calls are not interleaved, honest deliveries and any queries leave every height up to
      latest accepted and attested once, and the state root at the root of the chain. */
  lemma SequentialAttestsAll(env: Env, chain: Sync.Chain, top: u64, start: Node, calls: seq<Call>)
    requires HonestChain(env.sha, chain, top)
    requires Initial(env, start)
    requires forall i :: 0 <= i < |calls| ==> HonestCall(chain, top, calls[i])
    ensures var n := Sequential(env, start, calls);
            && Complete(env, chain, top, n)
            && Invariant(env, n)
            && n.attestations.Keys == n.store.blocks.Keys
  {
    SequentialStaysComplete(env, chain, top, start, calls);
    SequentialInvariant(env, start, calls);
    AllAcceptedAllAttested(env, Sequential(env, start, calls));
  }

  lemma SequentialInvariant(env: Env, start: Node, calls: seq<Call>)
    requires Initial(env, start)
    ensures Invariant(env, Sequential(env, start, calls))
  {
    SequentialIsExec(env, start, calls);
    EveryInterleaving(env, start, StepsOf(calls));
  }

  lemma AllAcceptedAllAttested(env: Env, n: Node)
    requires Invariant(env, n) && n.pending == map[] && AllAccepted(n.delivered)
    ensures n.attestations.Keys == n.store.blocks.Keys
  {
    AllAcceptedNumbers(n.delivered);
    assert PendingNumbers(n.pending) == {};
  }

  lemma AllAcceptedNumbers(ds: seq<Delivery>)
    requires AllAccepted(ds)
    ensures AcceptedNumbers(ds) == Numbers(ds)
  {
    assert forall d :: d in ds ==> d.accepted;
  }

  lemma {:induction false} SequentialStaysComplete(env: Env, chain: Sync.Chain, top: u64, start: Node, calls: seq<Call>)
    requires HonestChain(env.sha, chain, top)
    requires Initial(env, start)
    requires forall i :: 0 <= i < |calls| ==> HonestCall(chain, top, calls[i])
    ensures Complete(env, chain, top, Sequential(env, start, calls))
  {
    if calls != [] {
      SequentialStaysComplete(env, chain, top, start, calls[..|calls| - 1]);
      assert HonestCall(chain, top, calls[|calls| - 1]);
      CallKeepsComplete(env, chain, top, Sequential(env, start, calls[..|calls| - 1]), calls[|calls| - 1]);
    }
  }

  // ----- A race that loses an attestation for good

  /** P2P stores block 1, RPC stores block 2, and RPC's callback runs first. */
  function Race(chain: Sync.Chain): seq<Step> {
    [StoreStep(P2P, chain(1)), StoreStep(RPC, chain(2)), CallbackStep(RPC), CallbackStep(P2P)]
  }

  lemma {:induction false} ExecAppends(env: Env, n: Node, steps: seq<Step>, more: seq<Step>)
    ensures Exec(env, n, steps + more) == Exec(env, Exec(env, n, steps), more)
    decreases |more|
  {
    if more == [] {
      assert steps + more == steps;
    } else {
      ExecAppends(env, n, steps, more[..|more| - 1]);
      assert (steps + more)[..|steps + more| - 1] == steps + more[..|more| - 1];
    }
  }

  /** Deliveries are never forgotten. */
  lemma {:induction false} DeliveredForever(env: Env, n: Node, more: seq<Step>, d: Delivery)
    requires d in n.delivered
    ensures d in Exec(env, n, more).delivered
  {
    if more != [] {
      DeliveredForever(env, n, more[..|more| - 1], d);
    }
  }

  lemma RaceRejects(env: Env, chain: Sync.Chain, top: u64, start: Node) returns (d: Delivery)
    requires HonestChain(env.sha, chain, top) && top >= 2
    requires Initial(env, start)
    ensures d in Exec(env, start, Race(chain)).delivered && d.block == chain(2) && d.block.number == 2 && !d.accepted
  {
    var s1, s2, s3, s4 := StoreStep(P2P, chain(1)), StoreStep(RPC, chain(2)), CallbackStep(RPC), CallbackStep(P2P);
    d := Delivery(chain(2), start.root, false);
    AcceptsOnlyNext(env.sha, chain, top, 0, 2);
    RaceSteps(env, chain(1), chain(2), start);
    ExecSnoc(env, start, [], s1);
    ExecSnoc(env, start, [s1], s2);
    ExecSnoc(env, start, [s1, s2], s3);
    ExecSnoc(env, start, [s1, s2, s3], s4);
    assert [] + [s1] == [s1] && [s1] + [s2] == [s1, s2] && [s1, s2] + [s3] == [s1, s2, s3];
    assert Race(chain) == [s1, s2, s3] + [s4];
  }

  lemma RaceSteps(env: Env, b1: L2Block, b2: L2Block, start: Node)
    requires Initial(env, start) && b1.number == 1 && b2.number == 2
    requires !Verification.Accepts(env.sha, start.root, b2)
    ensures var n2 := Apply(env, Apply(env, start, StoreStep(P2P, b1)), StoreStep(RPC, b2));
            Delivery(b2, start.root, false) in Apply(env, Apply(env, n2, CallbackStep(RPC)), CallbackStep(P2P)).delivered
  {
    var n2 := Apply(env, Apply(env, start, StoreStep(P2P, b1)), StoreStep(RPC, b2));
    assert n2.pending == map[P2P := b1, RPC := b2];
    var n3 := Apply(env, n2, CallbackStep(RPC));
    assert n3.delivered == [Delivery(b2, start.root, false)];
    assert Apply(env, n3, CallbackStep(P2P)).delivered[0] == n3.delivered[0];
  }

  lemma ExecSnoc(env: Env, n: Node, steps: seq<Step>, step: Step)
    ensures Exec(env, n, steps + [step]) == Apply(env, Exec(env, n, steps), step)
  {
    assert (steps + [step])[..|steps|] == steps;
  }

  /** A rejected delivery is final: its height is stored but is never attested, whatever follows. */
  lemma RejectedForever(env: Env, start: Node, steps: seq<Step>, more: seq<Step>, d: Delivery)
    requires Initial(env, start) && d in Exec(env, start, steps).delivered && !d.accepted
    ensures var n := Exec(env, start, steps + more);
            && d.block.number in n.store.blocks && n.store.blocks[d.block.number] == d.block
            && d.block.number !in n.attestations
  {
    ExecAppends(env, start, steps, more);
    DeliveredForever(env, Exec(env, start, steps), more, d);
    EveryInterleaving(env, start, steps + more);
    RejectedIsNotAttested(env, Exec(env, start, steps + more), d);
  }

  /** After that race block 2 of an honest chain is stored but is never attested. */
  lemma RaceLosesAttestation(env: Env, chain: Sync.Chain, top: u64, start: Node, more: seq<Step>)
    requires HonestChain(env.sha, chain, top) && top >= 2
    requires Initial(env, start)
    ensures var n := Exec(env, start, Race(chain) + more);
            2 in n.store.blocks && n.store.blocks[2] == chain(2) && 2 !in n.attestations
  {
    var d := RaceRejects(env, chain, top, start);
    RejectedForever(env, start, Race(chain), more, d);
  }

  lemma RejectedIsNotAttested(env: Env, n: Node, d: Delivery)
    requires Invariant(env, n) && d in n.delivered && !d.accepted
    ensures d.block.number !in n.attestations
  {
    forall e | e in n.delivered && e.block.number == d.block.number
      ensures e == d
    {
      SameNumberSameDelivery(n.pending, n.delivered, d, e);
    }
  }

  lemma SameNumberSameDelivery(pending: Pending, ds: seq<Delivery>, d: Delivery, e: Delivery)
    requires NoRepeats(pending, ds) && d in ds && e in ds && d.block.number == e.block.number
    ensures d == e
  {
    var i :| 0 <= i < |ds| && ds[i] == d;
    var j :| 0 <= j < |ds| && ds[j] == e;
    assert i == j;
  }

  // ----- Queries in between

  ghost predicate IsRootOf(sha: Verification.HashFunction, chain: Sync.Chain, top: u64, root: Hash) {
    exists m: u64 :: m <= top && root == RootAt(sha, chain, m)
  }

  /** A delivery was accepted exactly when it ran on top of its predecessor's root. */
  predicate AcceptedInPlace(sha: Verification.HashFunction, chain: Sync.Chain, d: Delivery) {
    d.block.number >= 1 && (d.accepted <==> d.rootBefore == RootAt(sha, chain, d.block.number - 1))
  }

  ghost predicate OnSomeRoot(env: Env, chain: Sync.Chain, top: u64, n: Node) {
    && HonestBlocks(chain, top, n)
    && IsRootOf(env.sha, chain, top, n.root)
    && (forall d :: d in n.delivered ==> AcceptedInPlace(env.sha, chain, d))
  }

  lemma AcceptsOnPredecessorRoot(env: Env, chain: Sync.Chain, top: u64, root: Hash, k: u64)
    requires HonestChain(env.sha, chain, top) && 1 <= k <= top
    requires IsRootOf(env.sha, chain, top, root)
    ensures Verification.Accepts(env.sha, root, chain(k)) <==> root == RootAt(env.sha, chain, k - 1)
    ensures IsRootOf(env.sha, chain, top, Verification.RootAfter(env.sha, root, chain(k)))
  {
    var m: u64 :| m <= top && root == RootAt(env.sha, chain, m);
    AcceptsOnRoot(env.sha, chain, top, m, k);
  }

  lemma AcceptsOnRoot(sha: Verification.HashFunction, chain: Sync.Chain, top: u64, m: u64, k: u64)
    requires HonestChain(sha, chain, top) && m <= top && 1 <= k <= top
    ensures Verification.Accepts(sha, RootAt(sha, chain, m), chain(k)) <==> RootAt(sha, chain, m) == RootAt(sha, chain, k - 1)
    ensures IsRootOf(sha, chain, top, Verification.RootAfter(sha, RootAt(sha, chain, m), chain(k)))
  {
    AcceptsOnlyNext(sha, chain, top, m, k);
    RootsDiffer(sha, chain, top, m, k - 1);
    RootIsOfChain(sha, chain, top, if k == m + 1 then k else m);
  }

  lemma RootsDiffer(sha: Verification.HashFunction, chain: Sync.Chain, top: u64, j: u64, k: u64)
    requires HonestChain(sha, chain, top) && j <= top && k <= top
    ensures RootAt(sha, chain, j) == RootAt(sha, chain, k) <==> j == k
  {
    assert SameRoot(sha, chain, j, k) ==> j == k;
  }

  lemma RootIsOfChain(sha: Verification.HashFunction, chain: Sync.Chain, top: u64, m: u64)
    requires m <= top
    ensures IsRootOf(sha, chain, top, RootAt(sha, chain, m))
  {
  }

  lemma CallbackStaysOnSomeRoot(env: Env, chain: Sync.Chain, top: u64, n: Node, b: L2Block)
    requires HonestChain(env.sha, chain, top) && OnSomeRoot(env, chain, top, n)
    requires 1 <= b.number <= top && b == chain(b.number)
    ensures OnSomeRoot(env, chain, top, OnNewBlock(env, n, b))
  {
    var d := Delivery(b, n.root, Verification.Accepts(env.sha, n.root, b));
    AcceptsOnPredecessorRoot(env, chain, top, n.root, b.number);
    assert AcceptedInPlace(env.sha, chain, d);
    InSnoc(n.delivered, d);
  }

  lemma StepStaysOnSomeRoot(env: Env, chain: Sync.Chain, top: u64, n: Node, step: Step)
    requires HonestChain(env.sha, chain, top)
    requires OnSomeRoot(env, chain, top, n) && HonestStep(chain, top, step)
    ensures OnSomeRoot(env, chain, top, Apply(env, n, step))
  {
    match step
    case StoreStep(_, _) =>
    case CallbackStep(g) =>
      if g in n.pending {
        CallbackStaysOnSomeRoot(env, chain, top, n.(pending := n.pending - {g}), n.pending[g]);
      }
    case QueryStep(k) =>
      if k in n.store.blocks {
        AcceptsOnPredecessorRoot(env, chain, top, n.root, k);
      }
  }

  /** In every interleaving of honest deliveries and any queries, a delivered block is accepted
      exactly when its callback ran on top of its predecessor's root. */
  lemma {:induction false} AcceptedIffOnPredecessorRoot(env: Env, chain: Sync.Chain, top: u64, start: Node, steps: seq<Step>)
    requires HonestChain(env.sha, chain, top) && Initial(env, start)
    requires forall i :: 0 <= i < |steps| ==> HonestStep(chain, top, steps[i])
    ensures OnSomeRoot(env, chain, top, Exec(env, start, steps))
  {
    if steps == [] {
      assert start.root == RootAt(env.sha, chain, 0);
    } else {
      AcceptedIffOnPredecessorRoot(env, chain, top, start, steps[..|steps| - 1]);
      StepStaysOnSomeRoot(env, chain, top, Exec(env, start, steps[..|steps| - 1]), steps[|steps| - 1]);
    }
  }

  /** A query for block 1 between its storing and its callback already moves the root past it. */
  function QueryFirst(chain: Sync.Chain): seq<Step> {
    [StoreStep(P2P, chain(1)), QueryStep(1), CallbackStep(P2P)]
  }

  lemma QueryRejects(env: Env, chain: Sync.Chain, top: u64, start: Node) returns (d: Delivery)
    requires HonestChain(env.sha, chain, top) && top >= 1 && Initial(env, start)
    ensures d in Exec(env, start, QueryFirst(chain)).delivered && d.block == chain(1) && d.block.number == 1 && !d.accepted
  {
    var s1, s2, s3 := StoreStep(P2P, chain(1)), QueryStep(1), CallbackStep(P2P);
    AcceptsOnlyNext(env.sha, chain, top, 0, 1);
    AcceptsOnlyNext(env.sha, chain, top, 1, 1);
    var n2 := Apply(env, Apply(env, start, s1), s2);
    assert n2.root == RootAt(env.sha, chain, 1);
    d := Delivery(chain(1), n2.root, false);
    assert Apply(env, n2, s3).delivered == [d];
    ExecSnoc(env, start, [], s1);
    ExecSnoc(env, start, [s1], s2);
    ExecSnoc(env, start, [s1, s2], s3);
    assert [] + [s1] == [s1] && [s1] + [s2] == [s1, s2] && QueryFirst(chain) == [s1, s2] + [s3];
  }

  /** After that query block 1 is stored but is never attested. */
  lemma QueryLosesAttestation(env: Env, chain: Sync.Chain, top: u64, start: Node, more: seq<Step>)
    requires HonestChain(env.sha, chain, top) && top >= 1 && Initial(env, start)
    ensures var n := Exec(env, start, QueryFirst(chain) + more);
            1 in n.store.blocks && 1 !in n.attestations
  {
    var d := QueryRejects(env, chain, top, start);
    RejectedForever(env, start, QueryFirst(chain), more, d);
  }

  // ----- What the node's own engine reports final

  /** In every reachable state, whatever the powers of the active validators, a height is final
      exactly when this node attested it and holds more than two thirds of the active power by
      itself: no other attestation enters the log. */
  lemma FinalIffAttestedWithQuorum(env: Env, start: Node, steps: seq<Step>, w: map<Address, real>, k: u64)
    requires Initial(env, start) && NonNegative(w)
    ensures var n := Exec(env, start, steps);
            Consensus.Finalized(w, Consensus.AttestationsAt(n.attestations, k)) <==>
              k in n.attestations && 3.0 * Consensus.WeightOf(w, env.keys.localAddr) > 2.0 * Consensus.TotalPower(w)
  {
    EveryInterleaving(env, start, steps);
    OwnQuorum(env, Exec(env, start, steps), w, k);
  }

  lemma OwnQuorum(env: Env, n: Node, w: map<Address, real>, k: u64)
    requires Invariant(env, n) && NonNegative(w)
    ensures Consensus.Finalized(w, Consensus.AttestationsAt(n.attestations, k))
       <==> k in n.attestations && 3.0 * Consensus.WeightOf(w, env.keys.localAddr) > 2.0 * Consensus.TotalPower(w)
  {
    SumNonNegative(w.Keys, w);
    if k in n.attestations {
      var att := n.attestations[k][0];
      assert n.attestations[k] == [att] && att.validator == env.keys.localAddr;
      LocalPower(w, att);
      Consensus.FinalizedIsQuorum(w, [att]);
      if Consensus.TotalPower(w) == 0.0 && env.keys.localAddr in w {
        SumMonotone({env.keys.localAddr}, w.Keys, w);
      }
    }
  }

  lemma LocalPower(w: map<Address, real>, att: Consensus.Attestation)
    ensures Consensus.NoDoubleVote(w, [att])
    ensures Consensus.SetPower(w, [att]) == Consensus.WeightOf(w, att.validator)
    ensures att.validator in w ==> Sum({att.validator}, w) == w[att.validator]
  {
    var s: set<Address> := {att.validator};
    assert att in [att];
    if att.validator in w {
      assert Consensus.Attestors(w, [att]) == s;
      SumPick(s, w, att.validator);
      assert s - {att.validator} == {};
    } else {
      assert Consensus.Attestors(w, [att]) == {};
    }
  }

  lemma SoleValidatorFinalizesWhatItAttests(env: Env, n: Node, w: map<Address, real>, k: u64)
    requires Invariant(env, n) && SoleValidator(env, w)
    ensures Consensus.Finalized(w, Consensus.AttestationsAt(n.attestations, k)) <==> k in n.attestations
  {
    OwnQuorum(env, n, w, k);
    SumPick(w.Keys, w, env.keys.localAddr);
    assert w.Keys - {env.keys.localAddr} == {};
  }
}
