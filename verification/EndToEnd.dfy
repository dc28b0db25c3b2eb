/** The objects that main creates, run over whole schedules: what the node's own engine then answers
    when it is asked whether a height is final. */
module EndToEnd {
  import opened Types
  import opened Pipeline
  import opened Schedules
  import Sync
  import Consensus
  import Verification
  import Histories
  import WeightSum

  /** Lets the goroutines and the RPC server take the given steps; one that cannot be taken in the
      state it meets is skipped. */
  method Drive(v: Validator, steps: seq<Step>)
    requires v.Wired()
    modifies v, v.sync, v.verifier, v.consensus`attestations, v.repMgr
    ensures v.State() == Exec(v.Environment(), old(v.State()), steps)
  {
    for i := 0 to |steps|
      invariant v.State() == Exec(v.Environment(), old(v.State()), steps[..i])
    {
      ExecPrefix(v.Environment(), old(v.State()), steps, i);
      TakeStep(v, steps[i]);
    }
    assert steps[..|steps|] == steps;
  }

  lemma ExecPrefix(env: Env, n: Node, steps: seq<Step>, i: nat)
    requires i < |steps|
    ensures Exec(env, n, steps[..i + 1]) == Apply(env, Exec(env, n, steps[..i]), steps[i])
  {
    assert steps[..i + 1][..i] == steps[..i];
  }

  method TakeStep(v: Validator, step: Step)
    requires v.Wired()
    modifies v, v.sync, v.verifier, v.consensus`attestations, v.repMgr
    ensures v.State() == Apply(v.Environment(), old(v.State()), step)
  {
    match step
    case StoreStep(g, block) =>
      if g !in v.pending {
        v.Store(g, block);
      }
    case CallbackStep(g) =>
      if g in v.pending {
        v.Callback(g);
      }
    case QueryStep(number) =>
      var _ := v.Query(number);
  }

  /** Starts the node, runs any schedule, and asks for height k: it is final exactly if this node
      attested it and the configured minimum stake is positive. */
  method FinalAfterSteps(env: Env, minStake: u64, daysSinceJoin: real, steps: seq<Step>, k: u64)
    returns (started: bool, final: bool)
    requires daysSinceJoin >= 0.0
    ensures started <==> minStake < 0x8000_0000_0000_0000
    ensures final <==> started && minStake > 0 && k in Exec(env, StartNode(env, daysSinceJoin), steps).attestations
  {
    var v := Start(env, minStake, daysSinceJoin);
    if v == null {
      return false, false;
    }
    Drive(v, steps);
    started := true;
    final := v.consensus.IsFinalized(k);
    StartNodeIsInitial(env, daysSinceJoin);
    StartupWeights(env, minStake, daysSinceJoin);
    StartedFinality(env, StartNode(env, daysSinceJoin), steps, Consensus.ActiveWeights(v.consensus.validators), k);
  }

  lemma StartedFinality(env: Env, start: Node, steps: seq<Step>, w: map<Address, real>, k: u64)
    requires Initial(env, start)
    requires SoleValidator(env, w) || w == map[env.keys.localAddr := 0.0]
    ensures Consensus.Finalized(w, Consensus.AttestationsAt(Exec(env, start, steps).attestations, k))
       <==> SoleValidator(env, w) && k in Exec(env, start, steps).attestations
  {
    if SoleValidator(env, w) {
      EveryInterleaving(env, start, steps);
      SoleValidatorFinalizesWhatItAttests(env, Exec(env, start, steps), w, k);
    } else {
      WeightSum.SumZero(w.Keys, w);
    }
  }

  /** End to end: calls that do not interleave, on an honest chain, make exactly the heights from 1
      to latestBlock final. */
  method SequentialNodeFinalizes(env: Env, chain: Sync.Chain, top: u64, minStake: u64, daysSinceJoin: real,
                                 calls: seq<Call>, k: u64)
    returns (latest: u64, final: bool)
    requires HonestChain(env.sha, chain, top) && 0 < minStake < 0x8000_0000_0000_0000 && daysSinceJoin >= 0.0
    requires forall i :: 0 <= i < |calls| ==> HonestCall(chain, top, calls[i])
    ensures final <==> 1 <= k <= latest
    ensures latest == Sequential(env, StartNode(env, daysSinceJoin), calls).store.latest
  {
    ghost var start := StartNode(env, daysSinceJoin);
    var v := Start(env, minStake, daysSinceJoin);
    Drive(v, StepsOf(calls));
    latest := v.sync.latestBlock;
    final := v.consensus.IsFinalized(k);
    StartNodeIsInitial(env, daysSinceJoin);
    StartupWeights(env, minStake, daysSinceJoin);
    SequentialIsExec(env, start, calls);
    SequentialAttestsAll(env, chain, top, start, calls);
    StartedFinality(env, start, StepsOf(calls), Consensus.ActiveWeights(v.consensus.validators), k);
  }

  /** After the race of the two goroutines the node holds block 2 and never reports it final, whatever
      follows. */
  method RacedNodeNeverFinalizes(env: Env, chain: Sync.Chain, top: u64, minStake: u64, daysSinceJoin: real, more: seq<Step>)
    returns (held: Option<L2Block>, final: bool)
    requires HonestChain(env.sha, chain, top) && top >= 2
    requires 0 < minStake < 0x8000_0000_0000_0000 && daysSinceJoin >= 0.0
    ensures held == Some(chain(2)) && !final
  {
    ghost var start := StartNode(env, daysSinceJoin);
    var v := Start(env, minStake, daysSinceJoin);
    Drive(v, Race(chain) + more);
    held := v.sync.GetBlock(2);
    final := v.consensus.IsFinalized(2);
    StartNodeIsInitial(env, daysSinceJoin);
    StartupWeights(env, minStake, daysSinceJoin);
    RaceLosesAttestation(env, chain, top, start, more);
    StartedFinality(env, start, Race(chain) + more, Consensus.ActiveWeights(v.consensus.validators), 2);
  }

  /** What inso_verifyBlock answers after any honest schedule: nothing for a block that is not stored;
      otherwise valid exactly when the calls so far have counted up to k - 1. */
  method QueryAfterSteps(env: Env, chain: Sync.Chain, top: u64, minStake: u64, daysSinceJoin: real, steps: seq<Step>, k: u64)
    returns (answer: Option<Verification.Result>)
    requires HonestChain(env.sha, chain, top) && Histories.HonestSteps(chain, top, steps)
    requires minStake < 0x8000_0000_0000_0000
    ensures answer.Some? <==> k in Exec(env, StartNode(env, daysSinceJoin), steps).store.blocks
    ensures answer.Some? ==>
      && answer.value.blockNumber == k
      && (answer.value.valid <==> k == Histories.Height(Histories.VerifyCalls(env, StartNode(env, daysSinceJoin), steps)) + 1)
      && (answer.value.valid ==> answer.value.stateRoot == chain(k).stateRoot && answer.value.error.NoError?)
  {
    ghost var start := StartNode(env, daysSinceJoin);
    var v := Start(env, minStake, daysSinceJoin);
    Drive(v, steps);
    StartNodeIsInitial(env, daysSinceJoin);
    if k in v.sync.blocks {
      Histories.QueryValidIffNext(env, chain, top, start, steps, k);
      Histories.RootHeight(env, chain, top, start, steps);
      assert ClaimsItsRoot(env.sha, chain, k);
    }
    answer := v.Query(k);
  }
}
