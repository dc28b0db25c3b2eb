/** The node that cmd/validator/main.go wires together: sync hands each new block to a callback
    that verifies it and attests. Two goroutines store blocks; storing and running the callback are
    separate atomic steps, and RPC queries may verify stored blocks in between. */
module Pipeline {
  import opened Types
  import Sync
  import Verification
  import Consensus
  import Reputation
  import Staking
  import Preimages

  datatype Goroutine = P2P | RPC

  /** One run of the callback: the block, the root it was verified against, and the verdict. */
  datatype Delivery = Delivery(block: L2Block, rootBefore: Hash, accepted: bool)

  /** `pending` holds the block that a goroutine has stored but not yet handed to the callback;
      `delivered` is the history of callback runs. */
  datatype Node = Node(
    store: Sync.Store,
    root: Hash,
    attestations: Consensus.Log,
    reps: Reputation.Reps,
    pending: map<Goroutine, L2Block>,
    delivered: seq<Delivery>)

  datatype Env = Env(
    sha: Verification.HashFunction,
    keys: Consensus.Keys,
    cfg: Reputation.Config,
    decodeHash: string -> Hash)

  datatype Step =
    | StoreStep(g: Goroutine, block: L2Block)
    | CallbackStep(g: Goroutine)
    | QueryStep(number: u64)

  /** AttestBlock appends this node's attestation, whatever the log already holds at that height. */
  function LogWith(env: Env, log: Consensus.Log, b: L2Block): Consensus.Log {
    log[b.number := Consensus.AttestationsAt(log, b.number)
                    + [Consensus.LocalAttestation(env.keys, b.number, env.decodeHash(b.hash))]]
  }

  /** The OnNewBlock callback: verify, and attest if the verdict is good. */
  function OnNewBlock(env: Env, n: Node, b: L2Block): Node {
    var accepted := Verification.Accepts(env.sha, n.root, b);
    var seen := n.(root := Verification.RootAfter(env.sha, n.root, b),
                   delivered := n.delivered + [Delivery(b, n.root, accepted)]);
    if !accepted then seen
    else
      seen.(attestations := LogWith(env, n.attestations, b),
            reps := Reputation.ApplyAt(env.cfg, n.reps, env.keys.localAddr, Reputation.Attest))
  }

  /** A step that cannot be taken in n leaves it unchanged. */
  function Apply(env: Env, n: Node, step: Step): Node {
    match step
    case StoreStep(g, b) =>
      if g in n.pending || !Sync.Stores(n.store, b) then n
      else n.(store := Sync.Process(n.store, b), pending := n.pending[g := b])
    case CallbackStep(g) =>
      if g !in n.pending then n
      else OnNewBlock(env, n.(pending := n.pending - {g}), n.pending[g])
    case QueryStep(number) =>
      if number !in n.store.blocks then n
      else n.(root := Verification.RootAfter(env.sha, n.root, n.store.blocks[number]))
  }

  function Exec(env: Env, n: Node, steps: seq<Step>): Node {
    if steps == [] then n else Apply(env, Exec(env, n, steps[..|steps| - 1]), steps[|steps| - 1])
  }

  predicate Initial(env: Env, n: Node) {
    && n.store == Sync.EMPTY_STORE && n.root == Verification.GenesisRoot(env.sha)
    && n.attestations == map[] && n.pending == map[] && n.delivered == []
    && env.keys.localAddr in n.reps && n.reps[env.keys.localAddr].blocksAttested == 0
  }

  // ----- The node as the objects that main creates

  const ETHER: int := 1_000_000_000_000_000_000

  /** The stake that main registers: the configured minimum goes through a signed 64-bit integer. */
  function InitialStake(minStake: u64): int {
    Preimages.ToSigned(minStake) * ETHER
  }

  const INITIAL_TASTE: real := 0.8

  function StartScore(env: Env, daysSinceJoin: real): real {
    Reputation.Score(env.cfg, Reputation.FRESH_REP, daysSinceJoin, INITIAL_TASTE)
  }

  /** The node after start-up. */
  function StartNode(env: Env, daysSinceJoin: real): Node {
    var score := StartScore(env, daysSinceJoin);
    var rep := Reputation.FRESH_REP.(score := score, tier := Reputation.ScoreTier(score));
    Node(Sync.EMPTY_STORE, Verification.GenesisRoot(env.sha), map[], map[env.keys.localAddr := rep], map[], [])
  }

  /** Weights as main sets them up: the local validator alone, with positive power. */
  predicate SoleValidator(env: Env, w: map<Address, real>) {
    w.Keys == {env.keys.localAddr} && w[env.keys.localAddr] > 0.0
  }

  class Validator {
    const sync: Sync.Engine
    const verifier: Verification.Engine
    const consensus: Consensus.Engine
    const repMgr: Reputation.Manager
    const staking: Staking.Manager
    const decodeHash: string -> Hash
    var pending: map<Goroutine, L2Block>
    ghost var delivered: seq<Delivery>

    ghost predicate Wired() {
      consensus.repMgr == repMgr
    }

    ghost function Environment(): Env {
      Env(verifier.sha, consensus.keys, repMgr.cfg, decodeHash)
    }

    ghost function State(): Node
      reads this, sync, verifier, consensus, repMgr
    {
      Node(sync.State(), verifier.stateRoot, consensus.attestations, repMgr.reps, pending, delivered)
    }

    constructor (sync: Sync.Engine, verifier: Verification.Engine, consensus: Consensus.Engine,
                 repMgr: Reputation.Manager, staking: Staking.Manager, decodeHash: string -> Hash)
      ensures this.sync == sync && this.verifier == verifier && this.consensus == consensus
      ensures this.repMgr == repMgr && this.staking == staking && this.decodeHash == decodeHash
      ensures pending == map[] && delivered == []
    {
      this.sync, this.verifier, this.consensus := sync, verifier, consensus;
      this.repMgr, this.staking, this.decodeHash := repMgr, staking, decodeHash;
      pending, delivered := map[], [];
    }

    /** The locked part of processBlock, run by goroutine g. */
    method Store(g: Goroutine, block: L2Block)
      requires Wired() && g !in pending
      modifies this, sync
      ensures State() == Apply(Environment(), old(State()), StoreStep(g, block))
    {
      var stored := sync.StoreBlock(block);
      if stored {
        pending := pending[g := block];
      }
    }

    /** The rest of processBlock, run by goroutine g: the callback. */
    method Callback(g: Goroutine)
      requires Wired() && g in pending
      modifies this, verifier, consensus`attestations, repMgr
      ensures State() == Apply(Environment(), old(State()), CallbackStep(g))
    {
      var block := pending[g];
      pending := pending - {g};
      ghost var rootBefore := verifier.stateRoot;
      var result := verifier.VerifyBlock(block);
      delivered := delivered + [Delivery(block, rootBefore, result.valid)];
      if !result.valid {
        return;
      }
      var hash := decodeHash(block.hash);
      var _ := consensus.AttestBlock(block.number, hash);
    }

    /** inso_verifyBlock: verifies a stored block again, which may move the state root. */
    method Query(number: u64) returns (result: Option<Verification.Result>)
      requires Wired()
      modifies verifier
      ensures State() == Apply(Environment(), old(State()), QueryStep(number))
      ensures result.Some? <==> number in sync.blocks
      ensures result.Some? ==> result.value == Verification.ResultOf(verifier.sha, old(verifier.stateRoot), sync.blocks[number])
      ensures result.Some? ==>
        (result.value.valid <==> Verification.Accepts(verifier.sha, old(verifier.stateRoot), sync.blocks[number]))
    {
      var block := sync.GetBlock(number);
      if block.None? {
        return None;
      }
      var verdict := verifier.VerifyBlock(block.value);
      result := Some(verdict);
    }
  }

  /** What main does before it starts the goroutines: the reputation record comes first, then the
      stake, then the one registration in the consensus engine. The program exits (null) when the
      staking manager refuses, which happens exactly when the minimum stake is negative as a signed
      integer. */
  method Start(env: Env, minStake: u64, daysSinceJoin: real) returns (v: Validator?)
    ensures v == null <==> minStake >= 0x8000_0000_0000_0000
    ensures v != null ==>
      && fresh(v) && fresh(v.sync) && fresh(v.verifier) && fresh(v.consensus) && fresh(v.repMgr) && fresh(v.staking)
      && v.Wired() && v.Environment() == env && v.State() == StartNode(env, daysSinceJoin)
    ensures v != null ==>
      && v.staking.minStake == minStake * ETHER && v.staking.delegations == map[]
      && v.staking.stakes == map[env.keys.localAddr := Staking.Stake(env.keys.localAddr, minStake * ETHER, true, 0, 0)]
    ensures v != null ==> v.consensus.validators == StartValidators(env, minStake, daysSinceJoin)
  {
    var sync := new Sync.Engine();
    var verifier := new Verification.Engine(env.sha);
    var repMgr := new Reputation.Manager(env.cfg);
    repMgr.Register(env.keys.localAddr);
    var consensus := new Consensus.Engine(env.keys, repMgr);
    var staking := new Staking.Manager(minStake);
    var initialStake := InitialStake(minStake);
    var outcome := staking.Register(env.keys.localAddr, initialStake);
    if outcome != Staking.Done {
      return null;
    }
    consensus.RegisterValidator(env.keys.localAddr, initialStake, INITIAL_TASTE, daysSinceJoin);
    v := new Validator(sync, verifier, consensus, repMgr, staking, env.decodeHash);
  }

  lemma StartNodeIsInitial(env: Env, daysSinceJoin: real)
    ensures Initial(env, StartNode(env, daysSinceJoin))
  {
  }

  /** The validator set that main registers. */
  function StartValidators(env: Env, minStake: u64, daysSinceJoin: real): Consensus.Validators {
    var score := StartScore(env, daysSinceJoin);
    map[env.keys.localAddr :=
      Consensus.NewValidator(env.keys.localAddr, minStake * ETHER, INITIAL_TASTE, score, Reputation.ScoreTier(score))]
  }

  /** It is the local validator alone, whose voting power is positive exactly if the minimum stake is. */
  lemma StartupWeights(env: Env, minStake: u64, daysSinceJoin: real)
    requires daysSinceJoin >= 0.0
    ensures var w := Consensus.ActiveWeights(StartValidators(env, minStake, daysSinceJoin));
            if minStake > 0 then SoleValidator(env, w) else w == map[env.keys.localAddr := 0.0]
    ensures daysSinceJoin == 0.0 ==>
      Consensus.ActiveWeights(StartValidators(env, minStake, daysSinceJoin)) == map[env.keys.localAddr := 1.19 * minStake as real]
  {
    Reputation.ScoreLandmarks(env.cfg, Reputation.FRESH_REP, 0.0, 0.8);
    Consensus.VotePowerFits(minStake * ETHER, StartScore(env, daysSinceJoin));
    Reputation.ScoreInUnitInterval(env.cfg, Reputation.FRESH_REP, daysSinceJoin, INITIAL_TASTE);
    Consensus.PowerBetween(minStake * ETHER, StartScore(env, daysSinceJoin));
  }

  // ----- What every interleaving keeps

  function Numbers(ds: seq<Delivery>): set<u64> {
    set d | d in ds :: d.block.number
  }

  function AcceptedNumbers(ds: seq<Delivery>): set<u64> {
    set d | d in ds && d.accepted :: d.block.number
  }

  function PendingNumbers(pending: map<Goroutine, L2Block>): set<u64> {
    set g | g in pending :: pending[g].number
  }

  type Blocks = map<u64, L2Block>
  type Pending = map<Goroutine, L2Block>

  /** Every block is stored under its number; deliveries and pending callbacks are about stored blocks. */
  predicate Filed(blocks: Blocks, pending: Pending, delivered: seq<Delivery>) {
    && (forall k :: k in blocks ==> blocks[k].number == k)
    && (forall d :: d in delivered ==> d.block.number in blocks && blocks[d.block.number] == d.block)
    && (forall g :: g in pending ==> pending[g].number in blocks && blocks[pending[g].number] == pending[g])
  }

  /** No height is delivered twice, and no two goroutines hold the same height. */
  predicate NoRepeats(pending: Pending, delivered: seq<Delivery>) {
    && (forall i, j :: 0 <= i < j < |delivered| ==> delivered[i].block.number != delivered[j].block.number)
    && (forall g, h :: g in pending && h in pending && g != h ==> pending[g].number != pending[h].number)
  }

  /** The stored blocks are the disjoint union of the delivered and the pending ones. */
  predicate DeliveredOnce(blocks: Blocks, pending: Pending, delivered: seq<Delivery>) {
    && Filed(blocks, pending, delivered) && NoRepeats(pending, delivered)
    && blocks.Keys == Numbers(delivered) + PendingNumbers(pending)
    && Numbers(delivered) !! PendingNumbers(pending)
  }

  /** Each height in the log carries a single attestation: this node's, for the hash of the block
      stored at that height. */
  predicate AttestedOnce(env: Env, blocks: Blocks, log: Consensus.Log) {
    forall k :: k in log ==>
      k != 0 && k in blocks && log[k] == [Consensus.LocalAttestation(env.keys, k, env.decodeHash(blocks[k].hash))]
  }

  /** The attested heights are those whose delivery VerifyBlock accepted, and the local validator
      has been credited with exactly that many attestations. */
  predicate Accounted(env: Env, n: Node) {
    && (forall d :: d in n.delivered ==> (d.accepted <==> Verification.Accepts(env.sha, d.rootBefore, d.block)))
    && n.attestations.Keys == AcceptedNumbers(n.delivered)
    && env.keys.localAddr in n.reps
    && n.reps[env.keys.localAddr].blocksAttested == |n.attestations|
  }

  predicate Invariant(env: Env, n: Node) {
    && DeliveredOnce(n.store.blocks, n.pending, n.delivered)
    && AttestedOnce(env, n.store.blocks, n.attestations)
    && Accounted(env, n)
  }

  lemma NumbersSnoc(ds: seq<Delivery>, d: Delivery)
    ensures Numbers(ds + [d]) == Numbers(ds) + {d.block.number}
    ensures AcceptedNumbers(ds + [d]) == AcceptedNumbers(ds) + if d.accepted then {d.block.number} else {}
  {
    InSnoc(ds, d);
  }

  lemma InSnoc(ds: seq<Delivery>, d: Delivery)
    ensures forall e :: e in ds + [d] <==> e in ds || e == d
  {
    assert (ds + [d])[|ds|] == d;
  }

  lemma PendingAdded(pending: Pending, g: Goroutine, b: L2Block)
    requires g !in pending
    ensures PendingNumbers(pending[g := b]) == PendingNumbers(pending) + {b.number}
  {
    var added := pending[g := b];
    assert added[g] == b;
    assert forall h :: h in pending ==> h in added && added[h] == pending[h];
  }

  lemma PendingRemoved(pending: Pending, g: Goroutine)
    requires g in pending
    requires forall h :: h in pending && g != h ==> pending[g].number != pending[h].number
    ensures PendingNumbers(pending - {g}) == PendingNumbers(pending) - {pending[g].number}
  {
    var removed := pending - {g};
    assert forall h :: h in removed ==> h in pending && removed[h] == pending[h] && h != g;
    assert forall h :: h in pending && h != g ==> h in removed && removed[h] == pending[h];
  }

  lemma StoringKeepsDeliveredOnce(blocks: Blocks, pending: Pending, delivered: seq<Delivery>, g: Goroutine, b: L2Block)
    requires DeliveredOnce(blocks, pending, delivered) && g !in pending && b.number !in blocks
    ensures DeliveredOnce(blocks[b.number := b], pending[g := b], delivered)
  {
    PendingAdded(pending, g, b);
    assert forall h :: h in pending ==> pending[h].number != b.number;
  }

  lemma DeliveringKeepsDeliveredOnce(blocks: Blocks, pending: Pending, delivered: seq<Delivery>, g: Goroutine, d: Delivery)
    requires DeliveredOnce(blocks, pending, delivered) && g in pending && d.block == pending[g]
    ensures DeliveredOnce(blocks, pending - {g}, delivered + [d])
    ensures d.block.number !in AcceptedNumbers(delivered)
  {
    NumbersSnoc(delivered, d);
    PendingRemoved(pending, g);
    InSnoc(delivered, d);
    assert d.block.number in PendingNumbers(pending);
    assert AcceptedNumbers(delivered) <= Numbers(delivered);
    assert Filed(blocks, pending - {g}, delivered + [d]);
    forall i | 0 <= i < |delivered|
      ensures delivered[i].block.number != d.block.number
    {
      assert delivered[i].block.number in Numbers(delivered);
    }
    assert NoRepeats(pending - {g}, delivered + [d]);
  }

  lemma AttestingKeepsAttestedOnce(env: Env, blocks: Blocks, log: Consensus.Log, b: L2Block)
    requires AttestedOnce(env, blocks, log)
    requires b.number in blocks && blocks[b.number] == b && b.number !in log && b.number != 0
    ensures AttestedOnce(env, blocks, LogWith(env, log, b))
    ensures LogWith(env, log, b).Keys == log.Keys + {b.number}
  {
    var att := Consensus.LocalAttestation(env.keys, b.number, env.decodeHash(b.hash));
    assert LogWith(env, log, b) == log[b.number := [att]] by {
      assert [] + [att] == [att];
    }
  }

  /** The log grows by one height, and since there are fewer than 2^64 of them other than 0, the
      counter of attestations cannot wrap. */
  lemma LogGrows(heights: set<u64>, k: u64)
    requires k !in heights && k != 0 && 0 !in heights
    ensures |heights + {k}| == |heights| + 1 < TWO_64
  {
    HeightsFit(heights + {k}, TWO_64 - 1);
  }

  lemma CallbackKeepsAccounts(env: Env, n: Node, b: L2Block)
    requires Accounted(env, n) && AttestedOnce(env, n.store.blocks, n.attestations)
    requires b.number in n.store.blocks && n.store.blocks[b.number] == b && b.number !in AcceptedNumbers(n.delivered)
    ensures Accounted(env, OnNewBlock(env, n, b))
    ensures AttestedOnce(env, n.store.blocks, OnNewBlock(env, n, b).attestations)
  {
    var last := Delivery(b, n.root, Verification.Accepts(env.sha, n.root, b));
    NumbersSnoc(n.delivered, last);
    InSnoc(n.delivered, last);
    if last.accepted {
      AttestingKeepsAttestedOnce(env, n.store.blocks, n.attestations, b);
      LogGrows(n.attestations.Keys, b.number);
    }
  }

  lemma {:induction false} HeightsFit(s: set<u64>, top: nat)
    requires forall k :: k in s ==> 1 <= k <= top
    ensures |s| <= top
    decreases top
  {
    if top == 0 {
      assert s == {};
    } else {
      HeightsFit(s - {top}, top - 1);
    }
  }

  lemma StepKeepsInvariant(env: Env, n: Node, step: Step)
    requires Invariant(env, n)
    ensures Invariant(env, Apply(env, n, step))
  {
    match step
    case StoreStep(g, b) =>
      if g !in n.pending && Sync.Stores(n.store, b) {
        StoringKeepsDeliveredOnce(n.store.blocks, n.pending, n.delivered, g, b);
      }
    case CallbackStep(g) =>
      if g in n.pending {
        var b := n.pending[g];
        DeliveringKeepsDeliveredOnce(n.store.blocks, n.pending, n.delivered, g,
                                     Delivery(b, n.root, Verification.Accepts(env.sha, n.root, b)));
        CallbackKeepsAccounts(env, n.(pending := n.pending - {g}), b);
      }
    case QueryStep(_) =>
  }

  lemma {:induction false} EveryInterleaving(env: Env, start: Node, steps: seq<Step>)
    requires Initial(env, start)
    ensures Invariant(env, Exec(env, start, steps))
  {
    if steps != [] {
      EveryInterleaving(env, start, steps[..|steps| - 1]);
      StepKeepsInvariant(env, Exec(env, start, steps[..|steps| - 1]), steps[|steps| - 1]);
    }
  }
}
