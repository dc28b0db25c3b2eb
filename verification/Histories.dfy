/** The VerifyBlock calls of a whole schedule, those of callbacks and those of queries together: they
    decide the state root, which blocks are attested, and what two nodes with equal roots agree on. */
module Histories {
  import opened Types
  import opened Pipeline
  import opened Schedules
  import Sync
  import Verification
  import Reputation
  import Preimages

  /** The VerifyBlock call that a step makes in state n, if any. */
  function CallOf(n: Node, step: Step): seq<L2Block> {
    match step
    case StoreStep(_, _) => []
    case CallbackStep(g) => if g in n.pending then [n.pending[g]] else []
    case QueryStep(k) => if k in n.store.blocks then [n.store.blocks[k]] else []
  }

  function VerifyCalls(env: Env, start: Node, steps: seq<Step>): seq<L2Block> {
    if steps == [] then []
    else
      var before := steps[..|steps| - 1];
      VerifyCalls(env, start, before) + CallOf(Exec(env, start, before), steps[|steps| - 1])
  }

  function AcceptedHistory(env: Env, start: Node, steps: seq<Step>): seq<L2Block> {
    Verification.AcceptedBlocks(env.sha, start.root, VerifyCalls(env, start, steps))
  }

  // ----- The state root of a node is the chain over everything it accepted

  lemma {:induction false} RunRootAppends(sha: Verification.HashFunction, root: Hash, calls: seq<L2Block>, more: seq<L2Block>)
    ensures Verification.RunRoot(sha, root, calls + more) == Verification.RunRoot(sha, Verification.RunRoot(sha, root, calls), more)
    decreases |calls|
  {
    if calls == [] {
      assert calls + more == more;
    } else {
      RunRootAppends(sha, Verification.RootAfter(sha, root, calls[0]), calls[1..], more);
      assert (calls + more)[1..] == calls[1..] + more;
    }
  }

  lemma RootAfterStep(env: Env, n: Node, step: Step)
    ensures Apply(env, n, step).root == Verification.RunRoot(env.sha, n.root, CallOf(n, step))
  {
    var calls := CallOf(n, step);
    if calls != [] {
      assert calls[1..] == [];
      assert Verification.RunRoot(env.sha, Verification.RootAfter(env.sha, n.root, calls[0]), [])
          == Verification.RootAfter(env.sha, n.root, calls[0]);
    }
  }

  /** In every schedule, with blocks from anyone, the state root is the hash chain over the blocks
      that callbacks and queries accepted, in the order in which they accepted them. */
  lemma {:induction false} RootIsChainOfHistory(env: Env, start: Node, steps: seq<Step>)
    ensures Exec(env, start, steps).root == Verification.RunRoot(env.sha, start.root, VerifyCalls(env, start, steps))
    ensures Exec(env, start, steps).root == Verification.ChainRoot(env.sha, start.root, AcceptedHistory(env, start, steps))
  {
    if steps != [] {
      var before := steps[..|steps| - 1];
      var n := Exec(env, start, before);
      RootIsChainOfHistory(env, start, before);
      RootAfterStep(env, n, steps[|steps| - 1]);
      RunRootAppends(env.sha, start.root, VerifyCalls(env, start, before), CallOf(n, steps[|steps| - 1]));
    }
    Verification.RunIsChainOfAccepted(env.sha, start.root, VerifyCalls(env, start, steps));
  }

  /** Two nodes, each on a schedule of its own with blocks from anyone, that have accepted equally
      many blocks end with the same state root exactly when those blocks agree in number, timestamp
      and gas at every position; byte widths must agree and preimages at one position not collide. */
  lemma SameRootIffSameHistory(env: Env, start: Node, steps: seq<Step>, env': Env, start': Node, steps': seq<Step>)
    requires env.sha == env'.sha && Initial(env, start) && Initial(env', start')
    requires var a, a' := AcceptedHistory(env, start, steps), AcceptedHistory(env', start', steps');
             && |a| == |a'|
             && (forall i :: 0 <= i < |a| ==> Verification.EqualWidths(a[i], a'[i]))
             && Verification.NoClash(env.sha, start.root, a, start'.root, a')
    ensures var a, a' := AcceptedHistory(env, start, steps), AcceptedHistory(env', start', steps');
            Exec(env, start, steps).root == Exec(env', start', steps').root <==>
              forall i :: 0 <= i < |a| ==> Verification.SameExecution(a[i], a'[i])
  {
    RootIsChainOfHistory(env, start, steps);
    RootIsChainOfHistory(env', start', steps');
    Verification.ChainBinding(env.sha, start.root, AcceptedHistory(env, start, steps),
                              start'.root, AcceptedHistory(env', start', steps'));
  }

  // ----- On an honest chain the calls decide everything, by their numbers alone

  /** The height reached when each call counts exactly if it is for the next height. */
  function Height(calls: seq<L2Block>): nat {
    if calls == [] then 0
    else
      var h := Height(calls[..|calls| - 1]);
      if calls[|calls| - 1].number == h + 1 then h + 1 else h
  }

  predicate HonestSteps(chain: Sync.Chain, top: u64, steps: seq<Step>) {
    forall i :: 0 <= i < |steps| ==> HonestStep(chain, top, steps[i])
  }

  predicate AtHeight(env: Env, chain: Sync.Chain, top: u64, n: Node, h: nat) {
    h <= top && n.root == RootAt(env.sha, chain, h) && HonestBlocks(chain, top, n)
  }

  lemma StepKeepsHonestBlocks(env: Env, chain: Sync.Chain, top: u64, n: Node, step: Step)
    requires Sync.IsChain(chain) && HonestStep(chain, top, step) && HonestBlocks(chain, top, n)
    ensures HonestBlocks(chain, top, Apply(env, n, step))
    ensures CallOf(n, step) != [] ==>
      var b := CallOf(n, step)[0];
      1 <= b.number <= top && b == chain(b.number)
  {
    match step
    case StoreStep(_, _) =>
    case CallbackStep(g) =>
      if g in n.pending {
        var b := n.pending[g];
        assert b == n.store.blocks[b.number];
        assert Apply(env, n, step).store == n.store && Apply(env, n, step).pending == n.pending - {g};
      }
    case QueryStep(_) =>
  }

  lemma HeightSnoc(calls: seq<L2Block>, b: L2Block)
    ensures Height(calls + [b]) == if b.number == Height(calls) + 1 then Height(calls) + 1 else Height(calls)
  {
    assert (calls + [b])[..|calls|] == calls;
  }

  lemma StepKeepsHeight(env: Env, chain: Sync.Chain, top: u64, n: Node, step: Step, calls: seq<L2Block>)
    requires HonestChain(env.sha, chain, top) && HonestStep(chain, top, step)
    requires AtHeight(env, chain, top, n, Height(calls))
    ensures AtHeight(env, chain, top, Apply(env, n, step), Height(calls + CallOf(n, step)))
    ensures CallOf(n, step) != [] ==>
      (Verification.Accepts(env.sha, n.root, CallOf(n, step)[0]) <==> CallOf(n, step)[0].number == Height(calls) + 1)
  {
    StepKeepsHonestBlocks(env, chain, top, n, step);
    RootAfterStep(env, n, step);
    CallCounts(env, chain, top, n.root, CallOf(n, step), calls);
  }

  lemma CallCounts(env: Env, chain: Sync.Chain, top: u64, root: Hash, made: seq<L2Block>, calls: seq<L2Block>)
    requires HonestChain(env.sha, chain, top) && Height(calls) <= top && root == RootAt(env.sha, chain, Height(calls))
    requires |made| <= 1 && (made != [] ==> 1 <= made[0].number <= top && made[0] == chain(made[0].number))
    ensures Height(calls + made) <= top
    ensures Verification.RunRoot(env.sha, root, made) == RootAt(env.sha, chain, Height(calls + made))
    ensures made != [] ==> (Verification.Accepts(env.sha, root, made[0]) <==> made[0].number == Height(calls) + 1)
  {
    if made == [] {
      assert calls + made == calls;
    } else {
      var b := made[0];
      assert made == [b] && made[1..] == [];
      HeightSnoc(calls, b);
      AcceptsOnlyNext(env.sha, chain, top, Height(calls), b.number);
      assert Verification.RunRoot(env.sha, Verification.RootAfter(env.sha, root, b), []) == Verification.RootAfter(env.sha, root, b);
    }
  }

  /** In every interleaving of honest deliveries and any queries, the root is the chain's root at the
      height that the calls have counted up to. */
  lemma {:induction false} RootHeight(env: Env, chain: Sync.Chain, top: u64, start: Node, steps: seq<Step>)
    requires HonestChain(env.sha, chain, top) && Initial(env, start) && HonestSteps(chain, top, steps)
    ensures AtHeight(env, chain, top, Exec(env, start, steps), Height(VerifyCalls(env, start, steps)))
  {
    if steps != [] {
      var before := steps[..|steps| - 1];
      RootHeight(env, chain, top, start, before);
      assert HonestStep(chain, top, steps[|steps| - 1]);
      StepKeepsHeight(env, chain, top, Exec(env, start, before), steps[|steps| - 1], VerifyCalls(env, start, before));
    }
  }

  /** After the steps `before`, the next one runs the callback of block k just when the calls have
      counted up to k - 1. */
  predicate InTurn(env: Env, start: Node, before: seq<Step>, next: Step, k: u64) {
    var n := Exec(env, start, before);
    && next.CallbackStep? && next.g in n.pending
    && n.pending[next.g].number == k == Height(VerifyCalls(env, start, before)) + 1
  }

  /** Some step of the schedule is in turn for block k. */
  predicate SomeInTurn(env: Env, start: Node, steps: seq<Step>, k: u64) {
    steps != [] &&
    (SomeInTurn(env, start, steps[..|steps| - 1], k) || InTurn(env, start, steps[..|steps| - 1], steps[|steps| - 1], k))
  }

  /** Which heights a schedule attests: block k is attested exactly when its callback is in turn,
      counting the calls of callbacks and queries together. */
  lemma {:induction false} AttestedIffInTurn(env: Env, chain: Sync.Chain, top: u64, start: Node, steps: seq<Step>, k: u64)
    requires HonestChain(env.sha, chain, top) && Initial(env, start) && HonestSteps(chain, top, steps)
    ensures k in Exec(env, start, steps).attestations <==> SomeInTurn(env, start, steps, k)
  {
    if steps != [] {
      AttestedIffInTurn(env, chain, top, start, steps[..|steps| - 1], k);
      LastAttests(env, chain, top, start, steps, k);
    }
  }

  lemma LastAttests(env: Env, chain: Sync.Chain, top: u64, start: Node, steps: seq<Step>, k: u64)
    requires HonestChain(env.sha, chain, top) && Initial(env, start) && HonestSteps(chain, top, steps) && steps != []
    ensures var last := |steps| - 1;
            k in Exec(env, start, steps).attestations <==>
              k in Exec(env, start, steps[..last]).attestations || InTurn(env, start, steps[..last], steps[last], k)
  {
    var last := |steps| - 1;
    var n := Exec(env, start, steps[..last]);
    RootHeight(env, chain, top, start, steps[..last]);
    assert HonestStep(chain, top, steps[last]);
    StepKeepsHeight(env, chain, top, n, steps[last], VerifyCalls(env, start, steps[..last]));
    AttestedByStep(env, n, steps[last], k);
  }

  lemma AttestedByStep(env: Env, n: Node, step: Step, k: u64)
    ensures k in Apply(env, n, step).attestations <==>
      || k in n.attestations
      || (step.CallbackStep? && step.g in n.pending && n.pending[step.g].number == k && CallOf(n, step) != []
          && Verification.Accepts(env.sha, n.root, CallOf(n, step)[0]))
  {
  }

  // ----- What a query answers

  /** In every interleaving of honest deliveries and any queries, a query for a stored block k answers
      that it is valid exactly when the calls so far have counted up to k - 1, and then it returns the
      root of the chain at k. */
  lemma QueryValidIffNext(env: Env, chain: Sync.Chain, top: u64, start: Node, steps: seq<Step>, k: u64)
    requires HonestChain(env.sha, chain, top) && Initial(env, start) && HonestSteps(chain, top, steps)
    requires k in Exec(env, start, steps).store.blocks
    ensures var n := Exec(env, start, steps);
            var answer := Verification.ResultOf(env.sha, n.root, n.store.blocks[k]);
            && answer.blockNumber == k && n.store.blocks[k] == chain(k)
            && (answer.valid <==> k == Height(VerifyCalls(env, start, steps)) + 1)
            && (answer.valid ==> answer.stateRoot == Preimages.ToHex(RootAt(env.sha, chain, k)))
  {
    RootHeight(env, chain, top, start, steps);
    AcceptsOnlyNext(env.sha, chain, top, Height(VerifyCalls(env, start, steps)), k);
  }

  // ----- What the node has earned

  /** k grants of g, as a sum. */
  function Repeated(k: nat, g: nat): nat {
    if k == 0 then 0 else Repeated(k - 1, g) + g
  }

  lemma {:induction false} RepeatedIsProduct(k: nat, g: nat)
    ensures Repeated(k, g) == k * g
  {
    if k > 0 {
      RepeatedIsProduct(k - 1, g);
      assert (k - 1) * g + g == k * g;
    }
  }

  /** The local record holds the grants of all its attestations, as far as the cap allows. */
  predicate Earned(env: Env, n: Node) {
    && env.keys.localAddr in n.reps
    && n.reps[env.keys.localAddr].xp == Reputation.Min(Repeated(|n.attestations|, env.cfg.attestationXP), env.cfg.maxXP)
  }

  lemma PendingNotAttested(env: Env, n: Node, g: Goroutine)
    requires Invariant(env, n) && g in n.pending
    ensures n.pending[g].number !in n.attestations
  {
    assert n.pending[g].number in PendingNumbers(n.pending);
    assert forall k :: k in AcceptedNumbers(n.delivered) ==> k in Numbers(n.delivered);
  }

  lemma CallbackEarns(env: Env, n: Node, b: L2Block)
    requires Reputation.NoWrap(env.cfg) && Earned(env, n) && b.number !in n.attestations
    ensures Earned(env, OnNewBlock(env, n, b))
  {
    if Verification.Accepts(env.sha, n.root, b) {
      assert LogWith(env, n.attestations, b).Keys == n.attestations.Keys + {b.number};
      assert |n.attestations.Keys + {b.number}| == |n.attestations.Keys| + 1;
    }
  }

  lemma StepKeepsEarned(env: Env, n: Node, step: Step)
    requires Reputation.NoWrap(env.cfg) && Invariant(env, n) && Earned(env, n)
    ensures Earned(env, Apply(env, n, step))
  {
    if step.CallbackStep? && step.g in n.pending {
      PendingNotAttested(env, n, step.g);
      CallbackEarns(env, n.(pending := n.pending - {step.g}), n.pending[step.g]);
    }
  }

  lemma {:induction false} EarnedInEveryInterleaving(env: Env, daysSinceJoin: real, steps: seq<Step>)
    requires Reputation.NoWrap(env.cfg)
    ensures Earned(env, Exec(env, StartNode(env, daysSinceJoin), steps))
  {
    if steps != [] {
      var before := steps[..|steps| - 1];
      EarnedInEveryInterleaving(env, daysSinceJoin, before);
      StartNodeIsInitial(env, daysSinceJoin);
      EveryInterleaving(env, StartNode(env, daysSinceJoin), before);
      StepKeepsEarned(env, Exec(env, StartNode(env, daysSinceJoin), before), steps[|steps| - 1]);
    }
  }

  /** In every interleaving the local XP is the number of attestations on record times the grant,
      capped. */
  lemma XPCountsAttestations(env: Env, daysSinceJoin: real, steps: seq<Step>)
    requires Reputation.NoWrap(env.cfg)
    ensures var n := Exec(env, StartNode(env, daysSinceJoin), steps);
            && env.keys.localAddr in n.reps
            && n.reps[env.keys.localAddr].xp == Reputation.Min(|n.attestations| * env.cfg.attestationXP, env.cfg.maxXP)
  {
    EarnedInEveryInterleaving(env, daysSinceJoin, steps);
    RepeatedIsProduct(|Exec(env, StartNode(env, daysSinceJoin), steps).attestations|, env.cfg.attestationXP);
  }
}
