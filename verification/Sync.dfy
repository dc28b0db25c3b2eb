/** The sync engine: which blocks processBlock stores, and the RPC catch-up loop.
    Storing a block is one atomic step (it happens under the engine's lock); the callback that
    follows it is modelled with the rest of the pipeline. */
module Sync {
  import opened Types

  /** The engine's `blocks` and `latestBlock`. */
  datatype Store = Store(blocks: map<u64, L2Block>, latest: u64)

  const EMPTY_STORE: Store := Store(map[], 0)

  /** Whether processBlock stores b: its number is new, and it is 0, 1 or the next in sequence. */
  predicate Stores(s: Store, b: L2Block) {
    b.number !in s.blocks && (b.number <= 1 || b.number == Add64(s.latest, 1))
  }

  function Process(s: Store, b: L2Block): Store {
    if Stores(s, b) then Store(s.blocks[b.number := b], b.number) else s
  }

  function ProcessAll(s: Store, bs: seq<L2Block>): Store {
    if bs == [] then s else Process(ProcessAll(s, bs[..|bs| - 1]), bs[|bs| - 1])
  }

  // ----- The engine

  class Engine {
    var blocks: map<u64, L2Block>
    var latestBlock: u64

    ghost function State(): Store
      reads this
    {
      Store(blocks, latestBlock)
    }

    constructor ()
      ensures State() == EMPTY_STORE
    {
      blocks, latestBlock := map[], 0;
    }

    method GetBlock(number: u64) returns (block: Option<L2Block>)
      ensures block == if number in blocks then Some(blocks[number]) else None
    {
      block := if number in blocks then Some(blocks[number]) else None;
    }

    /** The part of processBlock that runs under the lock. */
    method StoreBlock(block: L2Block) returns (stored: bool)
      modifies this
      ensures stored <==> Stores(old(State()), block)
      ensures State() == Process(old(State()), block)
      ensures stored <==> block.number !in old(blocks) && (block.number <= 1 || block.number == old(latestBlock) + 1)
      ensures stored ==> blocks == old(blocks)[block.number := block] && latestBlock == block.number
      ensures !stored ==> blocks == old(blocks) && latestBlock == old(latestBlock)
    {
      if block.number in blocks {
        return false;
      }
      if block.number > 1 && block.number != Add64(latestBlock, 1) {
        return false;
      }
      blocks := blocks[block.number := block];
      latestBlock := block.number;
      stored := true;
    }

    /** Blocks that the P2P goroutine stores between two steps of the RPC goroutine. */
    method Interfere(bs: seq<L2Block>)
      modifies this
      ensures State() == ProcessAll(old(State()), bs)
    {
      for i := 0 to |bs|
        invariant State() == ProcessAll(old(State()), bs[..i])
      {
        assert bs[..i + 1][..i] == bs[..i];
        var _ := StoreBlock(bs[i]);
      }
      assert bs[..|bs|] == bs;
    }

    /** The body of the catch-up loop; whether the fetch succeeded. */
    method FetchAndStore(num: u64, fetched: map<u64, L2Block>, others: map<u64, seq<L2Block>>) returns (ok: bool)
      modifies this
      ensures ok <==> num in fetched
      ensures State() == RpcStep(old(State()), num, fetched, others)
    {
      Interfere(if num in others then others[num] else []);
      if num !in fetched {
        return false;
      }
      var _ := StoreBlock(fetched[num]);
      ok := true;
    }

    /** One tick of the RPC loop. `fetched` holds the sequencer's answers, a missing one being a
        failed fetch; `others[n]` are the blocks that the P2P goroutine stores before this goroutine
        processes number n. The loop counter is 64-bit: were remoteLatest at its maximum, the loop
        condition would never fail. */
    method SyncFromRPC(remoteLatest: Option<u64>, fetched: map<u64, L2Block>, others: map<u64, seq<L2Block>>)
      requires remoteLatest.Some? ==> remoteLatest.value < TWO_64 - 1
      modifies this
      ensures State() == RpcTick(old(State()), remoteLatest, fetched, others)
      ensures remoteLatest.None? || remoteLatest.value <= old(latestBlock) ==> State() == old(State())
      ensures remoteLatest.Some? && remoteLatest.value > old(latestBlock) ==>
        exists m: u64 :: StopsAfter(old(latestBlock), remoteLatest.value, fetched, m)
          && State() == ProcessAll(old(State()), BlocksUntil(old(latestBlock) + 1, remoteLatest.value, m, fetched, others))
    {
      if remoteLatest.Some? && remoteLatest.value > latestBlock {
        var m := StopOf(latestBlock + 1, remoteLatest.value, fetched);
        assert StopsAfter(latestBlock, remoteLatest.value, fetched, m);
        TickStopsAtFirstFailure(State(), remoteLatest.value, fetched, others, m);
      }
      if remoteLatest.None? {
        return;
      }
      var localLatest := latestBlock;
      if remoteLatest.value <= localLatest {
        return;
      }
      var num := localLatest + 1;
      while num <= remoteLatest.value
        invariant localLatest < num <= remoteLatest.value + 1
        invariant RpcLoop(State(), num, remoteLatest.value, fetched, others)
               == RpcLoop(old(State()), localLatest + 1, remoteLatest.value, fetched, others)
        decreases remoteLatest.value + 1 - num
      {
        var ok := FetchAndStore(num, fetched, others);
        if !ok {
          return;
        }
        num := num + 1;
      }
    }
  }

  /** What the RPC goroutine makes of number num after the others have had their turn. */
  function RpcStep(s: Store, num: u64, fetched: map<u64, L2Block>, others: map<u64, seq<L2Block>>): Store {
    var s1 := ProcessAll(s, if num in others then others[num] else []);
    if num in fetched then Process(s1, fetched[num]) else s1
  }

  function RpcLoop(s: Store, num: nat, remote: u64, fetched: map<u64, L2Block>, others: map<u64, seq<L2Block>>): Store
    decreases remote + 1 - num
  {
    if num > remote then s
    else if num !in fetched then RpcStep(s, num, fetched, others)
    else RpcLoop(RpcStep(s, num, fetched, others), num + 1, remote, fetched, others)
  }

  function RpcTick(s: Store, remoteLatest: Option<u64>, fetched: map<u64, L2Block>, others: map<u64, seq<L2Block>>): Store {
    if remoteLatest.None? || remoteLatest.value <= s.latest then s
    else RpcLoop(s, s.latest + 1, remoteLatest.value, fetched, others)
  }

  // ----- A tick hands in the blocks that it got before the first failed fetch

  /** m is where the loop stops: the first number whose fetch fails, or the one past the remote height. */
  predicate StopsAt(first: u64, remote: u64, fetched: map<u64, L2Block>, m: u64) {
    && first <= m <= remote + 1
    && (forall n: u64 :: first <= n < m ==> n in fetched)
    && (m <= remote ==> m !in fetched)
  }

  predicate StopsAfter(latest: u64, remote: u64, fetched: map<u64, L2Block>, m: u64)
    requires latest < TWO_64 - 1
  {
    StopsAt(latest + 1, remote, fetched, m)
  }

  lemma {:induction false} StopOf(first: u64, remote: u64, fetched: map<u64, L2Block>) returns (m: u64)
    requires first <= remote + 1 < TWO_64
    ensures StopsAt(first, remote, fetched, m)
    decreases remote + 1 - first
  {
    m := first;
    if first <= remote && first in fetched {
      m := StopOf(first + 1, remote, fetched);
    }
  }

  /** The blocks of the other goroutine before number n is processed. */
  function Interference(n: u64, others: map<u64, seq<L2Block>>): seq<L2Block> {
    if n in others then others[n] else []
  }

  /** Everything handed to processBlock from number `first` until the loop stops at m: for each number
      before m the interference and the fetched block, and before the failed fetch its interference. */
  function BlocksUntil(first: u64, remote: u64, m: u64, fetched: map<u64, L2Block>, others: map<u64, seq<L2Block>>): seq<L2Block>
    requires StopsAt(first, remote, fetched, m)
    decreases m - first
  {
    if m <= first then (if m <= remote then Interference(m, others) else [])
    else Interference(first, others) + [fetched[first]] + BlocksUntil(first + 1, remote, m, fetched, others)
  }

  lemma {:induction false} ProcessAllAppends(s: Store, bs: seq<L2Block>, more: seq<L2Block>)
    ensures ProcessAll(s, bs + more) == ProcessAll(ProcessAll(s, bs), more)
    decreases |more|
  {
    if more == [] {
      assert bs + more == bs;
    } else {
      var n := |more| - 1;
      ProcessAllAppends(s, bs, more[..n]);
      assert (bs + more)[..|bs + more| - 1] == bs + more[..n];
    }
  }

  lemma StepIsProcessAll(s: Store, num: u64, fetched: map<u64, L2Block>, others: map<u64, seq<L2Block>>)
    ensures num in fetched ==> RpcStep(s, num, fetched, others) == ProcessAll(s, Interference(num, others) + [fetched[num]])
    ensures num !in fetched ==> RpcStep(s, num, fetched, others) == ProcessAll(s, Interference(num, others))
  {
    if num in fetched {
      assert (Interference(num, others) + [fetched[num]])[..|Interference(num, others)|] == Interference(num, others);
    }
  }

  lemma {:induction false} LoopIsProcessAll(s: Store, num: u64, remote: u64, fetched: map<u64, L2Block>,
                                            others: map<u64, seq<L2Block>>, m: u64)
    requires num <= remote + 1 < TWO_64 && StopsAt(num, remote, fetched, m)
    ensures RpcLoop(s, num, remote, fetched, others) == ProcessAll(s, BlocksUntil(num, remote, m, fetched, others))
    decreases remote + 1 - num
  {
    if num <= remote {
      StepIsProcessAll(s, num, fetched, others);
      if num in fetched {
        var s' := RpcStep(s, num, fetched, others);
        LoopIsProcessAll(s', num + 1, remote, fetched, others, m);
        ProcessAllAppends(s, Interference(num, others) + [fetched[num]], BlocksUntil(num + 1, remote, m, fetched, others));
      }
    }
  }

  /** So a tick that begins the loop processes exactly those blocks: it ends at the first failed
      fetch, and nothing that would have come later matters. */
  lemma TickStopsAtFirstFailure(s: Store, remote: u64, fetched: map<u64, L2Block>, others: map<u64, seq<L2Block>>, m: u64)
    requires s.latest < remote < TWO_64 - 1 && StopsAfter(s.latest, remote, fetched, m)
    ensures RpcTick(s, Some(remote), fetched, others) == ProcessAll(s, BlocksUntil(s.latest + 1, remote, m, fetched, others))
  {
    LoopIsProcessAll(s, s.latest + 1, remote, fetched, others, m);
  }

  // ----- The shape of every reachable store

  /** The stored numbers other than 0 are 1..h, each block sits under its own number, and latest is
      h, or 0 if a block 0 has been stored. */
  predicate Shape(s: Store, h: u64) {
    && (forall n :: n in s.blocks && n != 0 ==> 1 <= n <= h)
    && (forall n: u64 :: 1 <= n <= h ==> n in s.blocks)
    && (forall n :: n in s.blocks ==> s.blocks[n].number == n)
    && (s.latest == h || (s.latest == 0 && 0 in s.blocks))
  }

  /** A block 0 arrived after block 1: nothing can be stored any more. */
  predicate Stuck(s: Store) {
    s.latest == 0 && 0 in s.blocks && 1 in s.blocks
  }

  lemma ProcessKeepsShape(s: Store, h: u64, b: L2Block) returns (h': u64)
    requires Shape(s, h)
    ensures Shape(Process(s, b), h') && h' == if Stores(s, b) && b.number != 0 then b.number else h
    ensures Stores(s, b) && b.number != 0 ==> h' == h + 1
    ensures Stuck(Process(s, b)) <==> Stuck(s) || (b.number == 0 && 0 !in s.blocks && 1 in s.blocks)
  {
    h' := if Stores(s, b) && b.number != 0 then b.number else h;
  }

  /** Over any sequence of processBlock calls, with duplicates, gaps and numbers in any order. */
  lemma {:induction false} ReachableShape(bs: seq<L2Block>) returns (h: u64)
    ensures Shape(ProcessAll(EMPTY_STORE, bs), h)
  {
    if bs == [] {
      h := 0;
    } else {
      h := ReachableShape(bs[..|bs| - 1]);
      h := ProcessKeepsShape(ProcessAll(EMPTY_STORE, bs[..|bs| - 1]), h, bs[|bs| - 1]);
    }
  }

  /** No stored block is ever replaced or dropped. */
  lemma {:induction false} StoredForever(s: Store, bs: seq<L2Block>)
    ensures forall n :: n in s.blocks ==> n in ProcessAll(s, bs).blocks && ProcessAll(s, bs).blocks[n] == s.blocks[n]
  {
    if bs != [] {
      StoredForever(s, bs[..|bs| - 1]);
    }
  }

  /** The first block 0 of the sequence comes after a block 1. */
  predicate ZeroAfterOne(bs: seq<L2Block>) {
    exists i, j :: 0 <= j < i < |bs| && bs[j].number == 1 && bs[i].number == 0 && NoZero(bs[..i])
  }

  predicate NoZero(bs: seq<L2Block>) {
    forall k :: 0 <= k < |bs| ==> bs[k].number != 0
  }

  lemma {:induction false} ZeroAndOneStored(bs: seq<L2Block>)
    ensures 0 in ProcessAll(EMPTY_STORE, bs).blocks <==> !NoZero(bs)
    ensures 1 in ProcessAll(EMPTY_STORE, bs).blocks <==> exists j :: 0 <= j < |bs| && bs[j].number == 1
  {
    if bs != [] {
      var n := |bs| - 1;
      ZeroAndOneStored(bs[..n]);
      if exists j :: 0 <= j < n && bs[j].number == 1 {
        var j :| 0 <= j < n && bs[j].number == 1;
        assert bs[..n][j].number == 1;
      }
      if !NoZero(bs) {
        var k :| 0 <= k < |bs| && bs[k].number == 0;
        assert k < n ==> bs[..n][k].number == 0;
      }
    }
  }

  lemma ZeroAfterOneSnoc(bs: seq<L2Block>)
    requires bs != []
    ensures var n := |bs| - 1;
            var now := bs[n].number == 0 && NoZero(bs[..n]) && exists j :: 0 <= j < n && bs[..n][j].number == 1;
            ZeroAfterOne(bs) <==> (ZeroAfterOne(bs[..n]) || now)
  {
    var n := |bs| - 1;
    if ZeroAfterOne(bs) {
      var i, j :| 0 <= j < i < |bs| && bs[j].number == 1 && bs[i].number == 0 && NoZero(bs[..i]);
      assert bs[..n][j].number == 1;
      if i < n {
        assert bs[..n][..i] == bs[..i] && bs[..n][i].number == 0;
      }
    }
    if ZeroAfterOne(bs[..n]) {
      var i, j :| 0 <= j < i < n && bs[..n][j].number == 1 && bs[..n][i].number == 0 && NoZero(bs[..n][..i]);
      assert bs[..n][..i] == bs[..i] && bs[i].number == 0 && bs[j].number == 1;
    }
    if bs[n].number == 0 && NoZero(bs[..n]) && exists j :: 0 <= j < n && bs[..n][j].number == 1 {
      var j :| 0 <= j < n && bs[..n][j].number == 1;
      assert bs[j].number == 1;
    }
  }

  /** The engine gets stuck exactly when the first block 0 that it is handed comes after a block 1. */
  lemma {:induction false} StuckIff(bs: seq<L2Block>)
    ensures Stuck(ProcessAll(EMPTY_STORE, bs)) <==> ZeroAfterOne(bs)
  {
    if bs != [] {
      var before := bs[..|bs| - 1];
      StuckIff(before);
      ZeroAndOneStored(before);
      ZeroAfterOneSnoc(bs);
      var h := ReachableShape(before);
      h := ProcessKeepsShape(ProcessAll(EMPTY_STORE, before), h, bs[|bs| - 1]);
    }
  }

  /** Once stuck, always stuck: no later block changes the store. */
  lemma {:induction false} StuckForever(s: Store, bs: seq<L2Block>)
    requires Stuck(s)
    ensures ProcessAll(s, bs) == s
  {
    if bs != [] {
      StuckForever(s, bs[..|bs| - 1]);
    }
  }

  /** Unless it is stuck, latest is the height of the store and it never decreases. */
  lemma {:induction false} LatestIsHeight(bs: seq<L2Block>) returns (h: u64)
    requires !ZeroAfterOne(bs)
    ensures Shape(ProcessAll(EMPTY_STORE, bs), h) && ProcessAll(EMPTY_STORE, bs).latest == h
    ensures bs != [] ==> ProcessAll(EMPTY_STORE, bs[..|bs| - 1]).latest <= h
  {
    h := ReachableShape(bs);
    StuckIff(bs);
    if bs != [] {
      var before := bs[..|bs| - 1];
      ZeroAfterOneSnoc(bs);
      var h0 := LatestIsHeight(before);
      StuckIff(before);
      var h1 := ProcessKeepsShape(ProcessAll(EMPTY_STORE, before), h0, bs[|bs| - 1]);
    }
  }

  // ----- Catching up from an honest sequencer, under interference

  type Chain = u64 -> L2Block

  ghost predicate IsChain(chain: Chain) {
    forall n: u64 :: chain(n).number == n
  }

  /** The store is an exact prefix of the chain: heights 1..h, and nothing that is not the chain's. */
  predicate PrefixOf(s: Store, chain: Chain, h: u64) {
    Shape(s, h) && s.latest == h && forall n :: n in s.blocks ==> s.blocks[n] == chain(n)
  }

  predicate Honest(chain: Chain, bs: seq<L2Block>) {
    forall i :: 0 <= i < |bs| ==> bs[i].number >= 1 && bs[i] == chain(bs[i].number)
  }

  lemma ProcessKeepsPrefix(s: Store, chain: Chain, h: u64, b: L2Block) returns (h': u64)
    requires PrefixOf(s, chain, h) && b.number >= 1 && b == chain(b.number)
    ensures PrefixOf(Process(s, b), chain, h') && h' >= h
    ensures b.number <= h + 1 ==> h' >= b.number
  {
    h' := ProcessKeepsShape(s, h, b);
  }

  lemma {:induction false} InterferenceKeepsPrefix(s: Store, chain: Chain, h: u64, bs: seq<L2Block>) returns (h': u64)
    requires PrefixOf(s, chain, h) && Honest(chain, bs)
    ensures PrefixOf(ProcessAll(s, bs), chain, h') && h' >= h
  {
    h' := h;
    if bs != [] {
      h' := InterferenceKeepsPrefix(s, chain, h, bs[..|bs| - 1]);
      h' := ProcessKeepsPrefix(ProcessAll(s, bs[..|bs| - 1]), chain, h', bs[|bs| - 1]);
    }
  }

  predicate AllFetched(fetched: map<u64, L2Block>, low: nat, high: u64) {
    forall m: u64 :: low <= m <= high ==> m in fetched
  }

  predicate FetchedAfter(fetched: map<u64, L2Block>, h: u64, high: u64) {
    AllFetched(fetched, h + 1, high)
  }

  predicate HonestPeers(chain: Chain, fetched: map<u64, L2Block>, others: map<u64, seq<L2Block>>) {
    && (forall n :: n in others ==> Honest(chain, others[n]))
    && (forall n :: n in fetched ==> fetched[n] == chain(n))
  }

  lemma RpcStepKeepsPrefix(s: Store, chain: Chain, h: u64, num: u64,
                           fetched: map<u64, L2Block>, others: map<u64, seq<L2Block>>) returns (h': u64)
    requires IsChain(chain) && PrefixOf(s, chain, h) && 1 <= num <= h + 1
    requires HonestPeers(chain, fetched, others)
    ensures PrefixOf(RpcStep(s, num, fetched, others), chain, h') && h' >= h
    ensures num in fetched ==> h' >= num
  {
    var bs := if num in others then others[num] else [];
    h' := InterferenceKeepsPrefix(s, chain, h, bs);
    if num in fetched {
      h' := ProcessKeepsPrefix(ProcessAll(s, bs), chain, h', fetched[num]);
    }
  }

  /** From an exact prefix the loop ends in an exact prefix that reaches every remote height up to
      which all fetches succeeded. */
  lemma {:induction false} RpcLoopCatchesUp(s: Store, chain: Chain, h: u64, num: nat, remote: u64,
                                            fetched: map<u64, L2Block>, others: map<u64, seq<L2Block>>) returns (h': u64)
    requires IsChain(chain) && PrefixOf(s, chain, h) && 1 <= num <= h + 1
    requires HonestPeers(chain, fetched, others)
    ensures PrefixOf(RpcLoop(s, num, remote, fetched, others), chain, h') && h' >= h
    ensures forall n: u64 :: num <= n <= remote && AllFetched(fetched, num, n) ==> n <= h'
    decreases remote + 1 - num
  {
    h' := h;
    if num <= remote {
      h' := RpcStepKeepsPrefix(s, chain, h, num, fetched, others);
      if num in fetched {
        h' := RpcLoopCatchesUp(RpcStep(s, num, fetched, others), chain, h', num + 1, remote, fetched, others);
        forall n: u64 | num <= n <= remote && AllFetched(fetched, num, n)
          ensures n <= h'
        {
          assert AllFetched(fetched, num + 1, n);
        }
      }
    }
  }

  /** Catch-up from an exact prefix, with honest peers interfering: every tick leaves an exact
      prefix that is no shorter and reaches each remote height up to which all fetches succeeded,
      so a tick without a failed fetch reaches the remote height itself. */
  lemma CatchUp(s: Store, chain: Chain, h: u64, remoteLatest: Option<u64>,
                fetched: map<u64, L2Block>, others: map<u64, seq<L2Block>>) returns (h': u64)
    requires IsChain(chain) && PrefixOf(s, chain, h) && HonestPeers(chain, fetched, others)
    ensures PrefixOf(RpcTick(s, remoteLatest, fetched, others), chain, h') && h' >= h
    ensures remoteLatest.Some? ==>
      forall n: u64 :: n <= remoteLatest.value && FetchedAfter(fetched, h, n) ==> n <= h'
  {
    h' := h;
    if remoteLatest.Some? && remoteLatest.value > s.latest {
      h' := RpcLoopCatchesUp(s, chain, h, s.latest + 1, remoteLatest.value, fetched, others);
    }
  }

  // ----- Exactly when a tick catches up, whatever the sequencer answers

  /** Every fetch from `low` to `high` yields the block that it asks for. */
  predicate Answered(fetched: map<u64, L2Block>, low: nat, high: u64) {
    forall m: u64 :: low <= m <= high ==> m in fetched && fetched[m].number == m
  }

  /** From any reachable store, with fetches that fail or yield any block whatever, an undisturbed
      tick reaches the remote height exactly when there is nothing to reach, or the engine is not
      stuck and every fetch yields the block asked for. */
  lemma TickReachesRemoteIff(bs: seq<L2Block>, fetched: map<u64, L2Block>, remote: u64)
    requires remote < TWO_64 - 1
    ensures var s := ProcessAll(EMPTY_STORE, bs);
            RpcTick(s, Some(remote), fetched, map[]).latest >= remote
            <==> remote <= s.latest || (!ZeroAfterOne(bs) && Answered(fetched, s.latest + 1, remote))
  {
    var s := ProcessAll(EMPTY_STORE, bs);
    var h := ReachableShape(bs);
    StuckIff(bs);
    if remote > s.latest {
      if Stuck(s) {
        StuckLoop(s, 1, fetched, remote);
      } else {
        FreeLoop(s, h, h + 1, fetched, remote);
      }
    }
  }

  lemma {:induction false} StuckLoop(s: Store, num: nat, fetched: map<u64, L2Block>, remote: u64)
    requires Stuck(s)
    ensures RpcLoop(s, num, remote, fetched, map[]) == s
    decreases remote + 1 - num
  {
    if num <= remote && num in fetched {
      assert RpcStep(s, num, fetched, map[]) == s;
      StuckLoop(s, num + 1, fetched, remote);
    }
  }

  lemma {:induction false} FreeLoop(s: Store, h: u64, num: nat, fetched: map<u64, L2Block>, remote: u64)
    requires Shape(s, h) && s.latest == h && num == h + 1 <= remote + 1 < TWO_64
    ensures RpcLoop(s, num, remote, fetched, map[]).latest >= remote <==> Answered(fetched, num, remote)
    decreases remote + 1 - num
  {
    if num <= remote && num in fetched {
      var s' := RpcStep(s, num, fetched, map[]);
      assert s' == Process(s, fetched[num]);
      var h' := ProcessKeepsShape(s, h, fetched[num]);
      if fetched[num].number == num {
        FreeLoop(s', h', num + 1, fetched, remote);
        assert Answered(fetched, num, remote) <==> Answered(fetched, num + 1, remote);
      } else {
        BehindLoop(s', h', num + 1, fetched, remote);
      }
    }
  }

  /** A loop that has fallen one block behind its counter stays behind. */
  lemma {:induction false} BehindLoop(s: Store, h: u64, num: nat, fetched: map<u64, L2Block>, remote: u64)
    requires Shape(s, h) && s.latest + 1 < num <= remote + 1 < TWO_64
    ensures RpcLoop(s, num, remote, fetched, map[]).latest < remote
    decreases remote + 1 - num
  {
    if num <= remote && num in fetched {
      assert RpcStep(s, num, fetched, map[]) == Process(s, fetched[num]);
      var h' := ProcessKeepsShape(s, h, fetched[num]);
      BehindLoop(Process(s, fetched[num]), h', num + 1, fetched, remote);
    }
  }

  /** A null answer is a block with number 0: if it is the first one and the store is not empty, the
      tick leaves the engine stuck, and then neither blocks nor ticks change anything any more. */
  lemma NullAnswerSticks(bs: seq<L2Block>, empty: L2Block, remote: u64, more: seq<L2Block>,
                         fetched: map<u64, L2Block>, remote': u64)
    requires NoZero(bs) && empty.number == 0
    requires 1 <= ProcessAll(EMPTY_STORE, bs).latest < remote
    ensures var s := ProcessAll(EMPTY_STORE, bs);
            var s' := RpcTick(s, Some(remote), map[s.latest + 1 := empty], map[]);
            && Stuck(s') && ProcessAll(s', more) == s'
            && RpcTick(s', Some(remote'), fetched, map[]) == s'
  {
    var s := ProcessAll(EMPTY_STORE, bs);
    var h := ReachableShape(bs);
    ZeroAndOneStored(bs);
    var answer := map[s.latest + 1 := empty];
    var s' := RpcStep(s, s.latest + 1, answer, map[]);
    assert s' == Process(s, empty);
    StuckLoop(s', s.latest + 2, answer, remote);
    StuckForever(s', more);
    StuckLoop(s', 1, fetched, remote');
  }

  // ----- Exactly when a tick ends

  /** The 64-bit loop counter after k iterations, if the loop is still running then. */
  function CounterAfter(first: u64, remote: u64, fetched: map<u64, L2Block>, k: nat): Option<u64> {
    var counter :=
      if k == 0 then Some(first)
      else
        var before := CounterAfter(first, remote, fetched, k - 1);
        if before.Some? && before.value in fetched then Some(Add64(before.value, 1)) else None;
    if counter.Some? && counter.value <= remote then counter else None
  }

  predicate Running(first: u64, remote: u64, fetched: map<u64, L2Block>, k: nat) {
    CounterAfter(first, remote, fetched, k).Some?
  }

  /** The catch-up loop runs forever exactly when the remote height is the largest 64-bit number
      and no fetch fails: the counter then wraps past it. */
  lemma RunsForeverIff(first: u64, remote: u64, fetched: map<u64, L2Block>)
    requires first <= remote
    ensures (forall k: nat :: Running(first, remote, fetched, k))
       <==> remote == TWO_64 - 1 && forall n: u64 :: n in fetched
  {
    if remote == TWO_64 - 1 && forall n: u64 :: n in fetched {
      forall k: nat
        ensures Running(first, remote, fetched, k)
      {
        NeverEnds(first, remote, fetched, k);
      }
    } else if remote < TWO_64 - 1 {
      CounterIs(first, remote, fetched, remote + 1 - first);
      assert !Running(first, remote, fetched, remote + 1 - first);
    } else {
      var n: u64 :| n !in fetched;
      var k := if first <= n then n - first else n + TWO_64 - first;
      CounterIs(first, remote, fetched, k);
      assert !Running(first, remote, fetched, k + 1);
    }
  }

  lemma {:induction false} NeverEnds(first: u64, remote: u64, fetched: map<u64, L2Block>, k: nat)
    requires remote == TWO_64 - 1 && forall n: u64 :: n in fetched
    ensures CounterAfter(first, remote, fetched, k).Some?
  {
    if k > 0 {
      NeverEnds(first, remote, fetched, k - 1);
    }
  }

  lemma {:induction false} CounterIs(first: u64, remote: u64, fetched: map<u64, L2Block>, k: nat)
    requires k <= TWO_64
    ensures var counter := CounterAfter(first, remote, fetched, k);
            counter.Some? ==> counter.value == if first + k < TWO_64 then first + k else first + k - TWO_64
  {
    if k > 0 {
      CounterIs(first, remote, fetched, k - 1);
    }
  }
}
