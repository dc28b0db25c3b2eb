/** The reputation manager: XP, uptime and the sovereignty score. Scores and rates are exact
    reals; counters are 64-bit and wrap. */
module Reputation {
  import opened Types
  import opened FloorDrop

  type u16 = x: int | 0 <= x < 0x1_0000

  datatype XPConfig = XPConfig(
    maxXP: u64,
    attestationXP: u64,
    uptimeBonusXP: u64,
    slashPenaltyXP: u64,
    decayRate: real)

  type Config = c: XPConfig | c.maxXP > 0 && c.decayRate >= 0.0 witness DEFAULT_CONFIG

  const DEFAULT_CONFIG: XPConfig := XPConfig(100_000, 10, 5, 500, 0.005)

  datatype Rep = Rep(
    xp: u64,
    uptimeBps: u16,
    blocksAttested: u64,
    blocksMissed: u64,
    slashCount: u64,
    score: real,
    tier: nat)

  const FRESH_REP: Rep := Rep(0, 10000, 0, 0, 0, 0.0, 0)

  // ----- What each operation does to one record

  function Min(x: int, y: int): int {
    if x <= y then x else y
  }

  /** addXP: the sum wraps before it is capped. */
  function AddXP(c: Config, xp: u64, amount: u64): u64 {
    Min(Add64(xp, amount), c.maxXP)
  }

  function RemoveXP(xp: u64, amount: u64): u64 {
    if amount >= xp then 0 else xp - amount
  }

  function DecayXP(xp: u64, rate: real): u64
    requires rate >= 0.0
  {
    assert xp as real * rate >= 0.0;
    var decay := (xp as real * rate).Floor;
    if decay > xp then 0 else xp - decay
  }

  /** 10000 times a counter, wrapping at 64 bits. */
  function ScaleToBps(count: u64): u64 {
    count * 10000 % TWO_64
  }

  function UpdateUptime(r: Rep): Rep {
    var total := Add64(r.blocksAttested, r.blocksMissed);
    if total == 0 then r.(uptimeBps := 10000)
    else r.(uptimeBps := ScaleToBps(r.blocksAttested) / total % 0x1_0000)
  }

  datatype Op = Attest | Miss | Slash | UptimeCheck | Decay

  function Apply(c: Config, r: Rep, op: Op): Rep {
    match op
    case Attest => r.(blocksAttested := Add64(r.blocksAttested, 1), xp := AddXP(c, r.xp, c.attestationXP))
    case Miss => UpdateUptime(r.(blocksMissed := Add64(r.blocksMissed, 1)))
    case Slash => r.(slashCount := Add64(r.slashCount, 1), xp := RemoveXP(r.xp, c.slashPenaltyXP))
    case UptimeCheck => r.(xp := AddXP(c, r.xp, c.uptimeBonusXP))
    case Decay => r.(xp := DecayXP(r.xp, c.decayRate))
  }

  function MinReal(x: real, y: real): real {
    if x <= y then x else y
  }

  /** The sovereignty score: 40% XP, 30% uptime, 20% longevity, 10% taste, each capped at 1. */
  function Score(c: Config, r: Rep, daysSinceJoin: real, tasteScore: real): real {
    0.4 * MinReal(r.xp as real / c.maxXP as real, 1.0) + 0.3 * (r.uptimeBps as real / 10000.0)
    + 0.2 * MinReal(daysSinceJoin / 365.0, 1.0) + 0.1 * MinReal(tasteScore, 1.0)
  }

  function ScoreTier(score: real): nat {
    if score >= 0.85 then 4
    else if score >= 0.65 then 3
    else if score >= 0.40 then 2
    else if score >= 0.15 then 1
    else 0
  }

  type Reps = map<Address, Rep>

  /** Only the record of addr may differ. */
  predicate OnlyAt(before: Reps, after: Reps, addr: Address) {
    before.Keys == after.Keys && forall a :: a in before && a != addr ==> after[a] == before[a]
  }

  /** The whole grant, or as much of it as the cap leaves room for, where the sum fits in 64 bits. */
  predicate Granted(before: u64, after: u64, amount: u64, cap: u64) {
    && (before + amount <= cap ==> after == before + amount)
    && (cap < before + amount < TWO_64 ==> after == cap)
  }

  /** The whole part of the exact share is taken; at a rate above 1 that is everything. */
  predicate Decayed(before: u64, after: u64, rate: real) {
    && (rate <= 1.0 ==> (before - after) as real <= before as real * rate < (before - after) as real + 1.0)
    && (rate > 1.0 ==> after == 0)
  }

  /** An operation on an address that was never registered does nothing. */
  function ApplyAt(c: Config, reps: Reps, addr: Address, op: Op): Reps {
    if addr in reps then reps[addr := Apply(c, reps[addr], op)] else reps
  }

  // ----- The manager

  class Manager {
    const cfg: Config
    var reps: Reps

    constructor (cfg: Config)
      ensures this.cfg == cfg && reps == map[]
    {
      this.cfg := cfg;
      reps := map[];
    }

    method Register(addr: Address)
      modifies this
      ensures reps == if addr in old(reps) then old(reps) else old(reps)[addr := FRESH_REP]
    {
      if addr in reps { return; }
      reps := reps[addr := FRESH_REP];
    }

    method RecordAttestation(addr: Address)
      modifies this
      ensures reps == ApplyAt(cfg, old(reps), addr, Attest)
      ensures addr !in old(reps) ==> reps == old(reps)
      ensures addr in old(reps) ==>
        var was := old(reps)[addr];
        && OnlyAt(old(reps), reps, addr)
        && reps[addr] == was.(xp := reps[addr].xp, blocksAttested := reps[addr].blocksAttested)
        && Granted(was.xp, reps[addr].xp, cfg.attestationXP, cfg.maxXP)
        && (was.blocksAttested + 1 < TWO_64 ==> reps[addr].blocksAttested == was.blocksAttested + 1)
    {
      if addr !in reps { return; }
      reps := reps[addr := reps[addr].(blocksAttested := Add64(reps[addr].blocksAttested, 1))];
      AddXPTo(addr, cfg.attestationXP);
    }

    method RecordMissedBlock(addr: Address)
      modifies this
      ensures reps == ApplyAt(cfg, old(reps), addr, Miss)
    {
      if addr !in reps { return; }
      var rep := reps[addr];
      rep := rep.(blocksMissed := Add64(rep.blocksMissed, 1));
      var total := Add64(rep.blocksAttested, rep.blocksMissed);
      if total == 0 {
        rep := rep.(uptimeBps := 10000);
      } else {
        rep := rep.(uptimeBps := ScaleToBps(rep.blocksAttested) / total % 0x1_0000);
      }
      reps := reps[addr := rep];
    }

    method RecordSlash(addr: Address)
      modifies this
      ensures reps == ApplyAt(cfg, old(reps), addr, Slash)
      ensures addr !in old(reps) ==> reps == old(reps)
      ensures addr in old(reps) ==>
        var was := old(reps)[addr];
        && OnlyAt(old(reps), reps, addr)
        && reps[addr] == was.(xp := reps[addr].xp, slashCount := reps[addr].slashCount)
        && (was.xp >= cfg.slashPenaltyXP ==> reps[addr].xp == was.xp - cfg.slashPenaltyXP)
        && (was.xp < cfg.slashPenaltyXP ==> reps[addr].xp == 0)
        && (was.slashCount + 1 < TWO_64 ==> reps[addr].slashCount == was.slashCount + 1)
    {
      if addr !in reps { return; }
      var rep := reps[addr];
      rep := rep.(slashCount := Add64(rep.slashCount, 1));
      if cfg.slashPenaltyXP >= rep.xp {
        rep := rep.(xp := 0);
      } else {
        rep := rep.(xp := rep.xp - cfg.slashPenaltyXP);
      }
      reps := reps[addr := rep];
    }

    method RecordUptimeCheck(addr: Address)
      modifies this
      ensures reps == ApplyAt(cfg, old(reps), addr, UptimeCheck)
      ensures addr !in old(reps) ==> reps == old(reps)
      ensures addr in old(reps) ==>
        var was := old(reps)[addr];
        && OnlyAt(old(reps), reps, addr) && reps[addr] == was.(xp := reps[addr].xp)
        && Granted(was.xp, reps[addr].xp, cfg.uptimeBonusXP, cfg.maxXP)
    {
      if addr !in reps { return; }
      AddXPTo(addr, cfg.uptimeBonusXP);
    }

    method AddXPTo(addr: Address, amount: u64)
      requires addr in reps
      modifies this
      ensures reps == old(reps)[addr := old(reps[addr]).(xp := AddXP(cfg, old(reps[addr]).xp, amount))]
    {
      var xp := Add64(reps[addr].xp, amount);
      if xp > cfg.maxXP {
        xp := cfg.maxXP;
      }
      reps := reps[addr := reps[addr].(xp := xp)];
    }

    /** Every record decays once, whatever the order in which the map is walked. */
    method ApplyDecay()
      modifies this
      ensures reps.Keys == old(reps).Keys
      ensures forall a :: a in reps ==> reps[a] == Apply(cfg, old(reps)[a], Decay)
      ensures forall a :: a in reps ==>
        reps[a] == old(reps)[a].(xp := reps[a].xp) && Decayed(old(reps)[a].xp, reps[a].xp, cfg.decayRate)
    {
      forall a | a in reps
        ensures Decayed(reps[a].xp, DecayXP(reps[a].xp, cfg.decayRate), cfg.decayRate)
      {
        DecayTakesShare(reps[a].xp, cfg.decayRate);
      }
      var todo := reps.Keys;
      while todo != {}
        invariant todo <= reps.Keys == old(reps).Keys
        invariant forall a :: a in reps ==> reps[a] == if a in todo then old(reps)[a] else Apply(cfg, old(reps)[a], Decay)
        decreases |todo|
      {
        var a :| a in todo;
        reps := reps[a := reps[a].(xp := DecayXP(reps[a].xp, cfg.decayRate))];
        todo := todo - {a};
      }
    }

    method ComputeSovereignty(addr: Address, daysSinceJoin: real, tasteScore: real) returns (score: real, tier: nat)
      modifies this
      ensures addr !in old(reps) ==> score == 0.0 && tier == 0 && reps == old(reps)
      ensures addr in old(reps) ==>
        && score == Score(cfg, old(reps)[addr], daysSinceJoin, tasteScore) && tier == ScoreTier(score)
        && reps == old(reps)[addr := old(reps)[addr].(score := score, tier := tier)]
      ensures (tier >= 1 <==> score >= 0.15) && (tier >= 2 <==> score >= 0.40)
      ensures (tier >= 3 <==> score >= 0.65) && (tier == 4 <==> score >= 0.85) && tier <= 4
    {
      if addr !in reps { return 0.0, 0; }
      var rep := reps[addr];
      var xpNorm := rep.xp as real / cfg.maxXP as real;
      if xpNorm > 1.0 {
        xpNorm := 1.0;
      }
      var uptimeNorm := rep.uptimeBps as real / 10000.0;
      var longevity := MinReal(daysSinceJoin / 365.0, 1.0);
      var tsNorm := tasteScore;
      if tsNorm > 1.0 {
        tsNorm := 1.0;
      }
      score := 0.4 * xpNorm + 0.3 * uptimeNorm + 0.2 * longevity + 0.1 * tsNorm;
      tier := ScoreTier(score);
      reps := reps[addr := rep.(score := score, tier := tier)];
    }
  }

  // ----- XP over all operation histories

  function Run(c: Config, r: Rep, ops: seq<Op>): Rep {
    if ops == [] then r else Apply(c, Run(c, r, ops[..|ops| - 1]), ops[|ops| - 1])
  }

  function Grant(c: Config, op: Op): nat {
    match op
    case Attest => c.attestationXP
    case UptimeCheck => c.uptimeBonusXP
    case _ => 0
  }

  function Grants(c: Config, ops: seq<Op>): nat {
    if ops == [] then 0 else Grants(c, ops[..|ops| - 1]) + Grant(c, ops[|ops| - 1])
  }

  /** The configured grants cannot carry XP past 2^64. */
  predicate NoWrap(c: Config) {
    c.maxXP + c.attestationXP < TWO_64 && c.maxXP + c.uptimeBonusXP < TWO_64
  }

  /** A grant caps instead of wrapping, whatever the XP it is added to, exactly when the cap plus
      the grant fits in 64 bits. */
  lemma GrantCapsIffItFits(c: Config, amount: u64)
    ensures (forall xp: u64 :: xp <= c.maxXP ==> AddXP(c, xp, amount) == Min(xp + amount, c.maxXP))
       <==> c.maxXP + amount < TWO_64
  {
    if c.maxXP + amount >= TWO_64 {
      assert AddXP(c, c.maxXP, amount) != Min(c.maxXP + amount, c.maxXP);
    }
  }

  /** What one operation does to the XP of two records, the first of which has no more. */
  lemma OneOp(c: Config, low: Rep, high: Rep, op: Op)
    requires low.xp <= high.xp <= c.maxXP
    ensures Apply(c, high, op).xp <= c.maxXP
    ensures NoWrap(c) ==> 0 <= Apply(c, high, op).xp - Apply(c, low, op).xp <= high.xp - low.xp
    ensures NoWrap(c) ==> Apply(c, high, op).xp <= high.xp + Grant(c, op)
  {
    if op == Decay {
      DecayKeepsOrder(low.xp, high.xp, c.decayRate);
    }
  }

  /** XP never exceeds the cap; and when no grant wraps it never exceeds what was granted. */
  lemma {:induction false} XPBounded(c: Config, ops: seq<Op>)
    ensures Run(c, FRESH_REP, ops).xp <= c.maxXP
    ensures NoWrap(c) ==> Run(c, FRESH_REP, ops).xp <= Grants(c, ops)
  {
    if ops != [] {
      var before := ops[..|ops| - 1];
      XPBounded(c, before);
      var r := Run(c, FRESH_REP, before);
      OneOp(c, r, r, ops[|ops| - 1]);
    }
  }

  predicate NoDecay(ops: seq<Op>) {
    forall i :: 0 <= i < |ops| ==> ops[i] != Decay
  }

  /** What slashes would take if there were always enough. */
  function Penalties(c: Config, ops: seq<Op>): nat {
    if ops == [] then 0 else Penalties(c, ops[..|ops| - 1]) + if ops[|ops| - 1] == Slash then c.slashPenaltyXP else 0
  }

  /** Grants less penalties, with neither the cap nor the floor. */
  function Level(c: Config, ops: seq<Op>): int {
    Grants(c, ops) - Penalties(c, ops)
  }

  /** Nothing that was granted gets lost but to the cap and to slashes, each of which takes no more
      than its penalty. */
  lemma {:induction false} XPAtLeast(c: Config, ops: seq<Op>)
    requires NoWrap(c) && NoDecay(ops)
    ensures Run(c, FRESH_REP, ops).xp >= Min(Grants(c, ops), c.maxXP) - Penalties(c, ops)
  {
    if ops != [] {
      XPAtLeast(c, ops[..|ops| - 1]);
      XPBounded(c, ops[..|ops| - 1]);
    }
  }

  /** Attestations, misses and uptime checks end with exactly what they granted, capped. */
  lemma XPOfGrants(c: Config, ops: seq<Op>)
    requires NoWrap(c) && NoDecay(ops) && Count(ops, Slash) == 0
    ensures Run(c, FRESH_REP, ops).xp == Min(Grants(c, ops), c.maxXP)
  {
    XPAtLeast(c, ops);
    XPBounded(c, ops);
    NoPenalties(c, ops);
  }

  lemma {:induction false} NoPenalties(c: Config, ops: seq<Op>)
    requires Count(ops, Slash) == 0
    ensures Penalties(c, ops) == 0
  {
    if ops != [] {
      NoPenalties(c, ops[..|ops| - 1]);
    }
  }

  /** A history that meets neither the cap nor the floor ends with exactly its grants less its
      penalties. */
  lemma {:induction false} XPIsLevel(c: Config, ops: seq<Op>)
    requires NoWrap(c) && NoDecay(ops)
    requires forall k :: 0 <= k <= |ops| ==> 0 <= Level(c, ops[..k]) <= c.maxXP
    ensures Run(c, FRESH_REP, ops).xp == Level(c, ops)
  {
    assert ops[..|ops|] == ops;
    assert 0 <= Level(c, ops[..|ops|]) <= c.maxXP;
    if ops != [] {
      var before := ops[..|ops| - 1];
      forall k | 0 <= k <= |before|
        ensures before[..k] == ops[..k]
      {
      }
      XPIsLevel(c, before);
    }
  }

  /** Two validators that live through the same operations keep their order, and the gap between
      them never grows. */
  lemma {:induction false} HistoriesKeepOrder(c: Config, low: Rep, high: Rep, ops: seq<Op>)
    requires NoWrap(c) && low.xp <= high.xp <= c.maxXP
    ensures Run(c, high, ops).xp <= c.maxXP
    ensures 0 <= Run(c, high, ops).xp - Run(c, low, ops).xp <= high.xp - low.xp
  {
    if ops != [] {
      var before := ops[..|ops| - 1];
      HistoriesKeepOrder(c, low, high, before);
      OneOp(c, Run(c, low, before), Run(c, high, before), ops[|ops| - 1]);
    }
  }

  lemma DecayKeepsOrder(x: u64, y: u64, rate: real)
    requires rate >= 0.0 && x <= y
    ensures DecayXP(y, rate) <= y
    ensures 0 <= DecayXP(y, rate) - DecayXP(x, rate) <= y - x
  {
    if rate <= 1.0 {
      DecayIsDrop(x, rate);
      DecayIsDrop(y, rate);
      DropMonotone(x, y, rate);
      FloorOfShare(y, rate);
    } else {
      DecayWipesOut(x, rate);
      DecayWipesOut(y, rate);
    }
  }

  lemma DecayTakesShare(xp: u64, rate: real)
    requires rate >= 0.0
    ensures Decayed(xp, DecayXP(xp, rate), rate)
  {
    if rate <= 1.0 {
      DecayIsDrop(xp, rate);
      DropBounds(xp, rate);
      Complement(xp as real, rate);
    } else {
      DecayWipesOut(xp, rate);
    }
  }

  lemma DecayIsDrop(xp: u64, rate: real)
    requires 0.0 <= rate <= 1.0
    ensures DecayXP(xp, rate) == Drop(xp, rate)
  {
    ShareIsProduct(xp, rate);
    FloorOfShare(xp, rate);
  }

  lemma DecayWipesOut(xp: u64, rate: real)
    requires rate > 1.0
    ensures DecayXP(xp, rate) == 0
  {
    var share := xp as real * rate;
    ScaleOrder(xp as real, 1.0, rate);
    assert share >= xp as real;
    assert share.Floor >= xp;
  }

  // ----- Where repeated decay ends

  function Decays(k: nat): seq<Op> {
    seq(k, i => Decay)
  }

  lemma {:induction false} DecaysAreDrops(c: Config, r: Rep, k: nat)
    requires c.decayRate <= 1.0
    ensures DropN(r.xp, c.decayRate, k) < TWO_64
    ensures Run(c, r, Decays(k)) == r.(xp := DropN(r.xp, c.decayRate, k))
  {
    if k > 0 {
      assert Decays(k)[..k - 1] == Decays(k - 1);
      DecaysAreDrops(c, r, k - 1);
      DecayIsDrop(DropN(r.xp, c.decayRate, k - 1), c.decayRate);
    }
  }

  /** Repeated decay from above `limit`, the largest XP whose share is below one, ends exactly at
      the limit after at most xp - limit decays; each decay above it is strict, and XP at or below
      it never decays at all. */
  lemma DecayLimit(c: Config, r: Rep, limit: nat, k: nat)
    requires c.decayRate <= 1.0 && Share(limit, c.decayRate) < 1.0 <= Share(limit + 1, c.decayRate)
    ensures r.xp >= limit && k >= r.xp - limit ==> Run(c, r, Decays(k)).xp == limit
    ensures r.xp <= limit ==> Run(c, r, Decays(k)).xp == r.xp
    ensures r.xp > limit ==> Apply(c, r, Decay).xp < r.xp
  {
    DecaysAreDrops(c, r, k);
    LimitReached(r.xp, c.decayRate, limit, k);
    DecayIsDrop(r.xp, c.decayRate);
  }

  /** At rate 1/d the limit is d - 1. */
  lemma ReciprocalDecayLimit(c: Config, r: Rep, d: nat, k: nat)
    requires d >= 1 && c.decayRate == 1.0 / d as real
    ensures r.xp >= d - 1 && k >= r.xp - (d - 1) ==> Run(c, r, Decays(k)).xp == d - 1
    ensures r.xp < d ==> Run(c, r, Decays(k)).xp == r.xp
    ensures r.xp >= d ==> Apply(c, r, Decay).xp < r.xp
  {
    Reciprocal(d as real);
    SharesAround(d, c.decayRate);
    DecayLimit(c, r, d - 1, k);
  }

  lemma Reciprocal(x: real)
    requires x >= 1.0
    ensures 0.0 < 1.0 / x <= 1.0 && x * (1.0 / x) == 1.0
  {
  }

  lemma SharesAround(d: nat, q: real)
    requires d >= 1 && d as real * q == 1.0 && q > 0.0
    ensures Share(d - 1, q) < 1.0 <= Share(d - 1 + 1, q)
  {
    ShareIsProduct(d, q);
  }

  /** With the shipped configuration decay stops at 199 XP. */
  lemma DefaultDecayLimit(r: Rep, k: nat)
    requires r.xp >= 199 && k >= r.xp - 199
    ensures Run(DEFAULT_CONFIG, r, Decays(k)).xp == 199
  {
    ReciprocalDecayLimit(DEFAULT_CONFIG, r, 200, k);
  }

  // ----- Uptime never overstates

  function Count(ops: seq<Op>, op: Op): nat {
    if ops == [] then 0
    else Count(ops[..|ops| - 1], op) + if ops[|ops| - 1] == op then 1 else 0
  }

  /** floor(10000 * attested / (attested + missed)), with nothing wrapped. */
  function TrueUptime(attested: nat, missed: nat): nat
    requires attested + missed > 0
  {
    attested * 10000 / (attested + missed)
  }

  lemma MoreAttestedMoreUptime(attested: nat, missed: nat)
    requires attested + missed > 0
    ensures TrueUptime(attested, missed) <= TrueUptime(attested + 1, missed)
    ensures TrueUptime(attested, missed) <= 10000
  {
    var n, u := attested + missed, TrueUptime(attested, missed);
    QuotientBounds(attested * 10000, n, 10000);
    QuotientBounds((attested + 1) * 10000, n + 1, u);
    assert u * (n + 1) == u * n + u;
  }

  /** How a quotient compares with k, from how the dividend compares with k times the divisor. */
  lemma QuotientBounds(x: nat, n: nat, k: nat)
    requires n > 0
    ensures x / n * n <= x
    ensures x <= k * n ==> x / n <= k
    ensures k * n <= x ==> k <= x / n
  {
    var q := x / n;
    assert x == n * q + x % n;
    if x <= k * n {
      FactorNonNegative(k - q, n, x % n);
    }
    if k * n <= x {
      FactorNonNegative(q - k, n, x % n);
    }
  }

  lemma FactorNonNegative(d: int, n: nat, rest: nat)
    requires rest < n && d * n > 0 - n
    ensures d >= 0
  {
    if d < 0 {
      ScaleDown(d, n);
    }
  }

  lemma ScaleDown(d: int, n: nat)
    requires d <= -1
    ensures d * n <= 0 - n
  {
  }

  /** In every history whose counters fit, the counters are exact, the reported uptime is at most
      the true one, and right after a miss it is the true one. */
  lemma {:induction false} UptimeNeverOverstates(c: Config, ops: seq<Op>)
    requires Count(ops, Attest) * 10000 < TWO_64 && Count(ops, Attest) + Count(ops, Miss) < TWO_64
    ensures var r, a, m := Run(c, FRESH_REP, ops), Count(ops, Attest), Count(ops, Miss);
            && r.blocksAttested == a && r.blocksMissed == m
            && r.uptimeBps <= 10000
            && (a + m > 0 ==> r.uptimeBps <= TrueUptime(a, m))
            && (ops != [] && ops[|ops| - 1] == Miss ==> r.uptimeBps == TrueUptime(a, m))
  {
    if ops != [] {
      var before, op := ops[..|ops| - 1], ops[|ops| - 1];
      UptimeNeverOverstates(c, before);
      var a, m := Count(before, Attest), Count(before, Miss);
      if op == Attest {
        FirstAttestations(a + 1);
        if a + m > 0 {
          MoreAttestedMoreUptime(a, m);
        }
      } else if op == Miss {
        MissReportsTrueUptime(Run(c, FRESH_REP, before));
      }
    }
  }

  predicate CountersFit(ops: seq<Op>) {
    Count(ops, Attest) + Count(ops, Miss) < TWO_64
  }

  /** The reported uptime stays in 0..10000 even where 10000 times the counter wraps. */
  lemma {:induction false} UptimeInRange(c: Config, ops: seq<Op>)
    requires CountersFit(ops)
    ensures var r := Run(c, FRESH_REP, ops);
            && r.blocksAttested == Count(ops, Attest) && r.blocksMissed == Count(ops, Miss)
            && r.uptimeBps <= 10000
  {
    if ops != [] {
      var before := ops[..|ops| - 1];
      UptimeInRange(c, before);
      if ops[|ops| - 1] == Miss {
        RefreshInRange(Run(c, FRESH_REP, before));
      }
    }
  }

  lemma RefreshInRange(r: Rep)
    requires r.blocksAttested + r.blocksMissed + 1 < TWO_64
    ensures UpdateUptime(r.(blocksMissed := r.blocksMissed + 1)).uptimeBps <= 10000
  {
    var bps := ScaledQuotient(r.blocksAttested, r.blocksAttested + r.blocksMissed + 1);
    RemainderAtMost(bps, 0x1_0000);
  }

  lemma ScaledQuotient(attested: u64, n: nat) returns (bps: nat)
    requires attested <= n && n > 0
    ensures ScaleToBps(attested) / n == bps <= 10000
  {
    var scaled: nat := attested * 10000;
    RemainderAtMost(scaled, TWO_64);
    var wrapped: nat := ScaleToBps(attested);
    assert wrapped <= 10000 * n;
    QuotientBounds(wrapped, n, 10000);
    QuotientBounds(wrapped, n, 0);
    bps := wrapped / n;
  }

  lemma RemainderAtMost(x: nat, m: nat)
    requires m > 0
    ensures 0 <= x % m <= x
    ensures x < m ==> x % m == x
  {
    if x < m {
      assert x % m == x;
    } else {
      assert x % m < m;
    }
  }

  lemma FirstAttestations(a: nat)
    requires a > 0
    ensures TrueUptime(a, 0) == 10000
  {
    QuotientBounds(a * 10000, a, 10000);
  }

  lemma MissReportsTrueUptime(r: Rep)
    requires r.blocksAttested * 10000 < TWO_64 && r.blocksAttested + r.blocksMissed + 1 < TWO_64
    ensures UpdateUptime(r.(blocksMissed := r.blocksMissed + 1)).uptimeBps == TrueUptime(r.blocksAttested, r.blocksMissed + 1)
    ensures TrueUptime(r.blocksAttested, r.blocksMissed + 1) <= 10000
  {
    MoreAttestedMoreUptime(r.blocksAttested, r.blocksMissed + 1);
  }

  // ----- The score

  /** With a non-negative taste score and age, the score lies in [0, 1]. */
  lemma ScoreInUnitInterval(c: Config, r: Rep, daysSinceJoin: real, tasteScore: real)
    requires r.uptimeBps <= 10000 && daysSinceJoin >= 0.0 && tasteScore >= 0.0
    ensures 0.0 <= Score(c, r, daysSinceJoin, tasteScore) <= 1.0
  {
    assert r.xp as real / c.maxXP as real >= 0.0;
  }

  /** With no factor lower the score and the tier are no lower, and the score stays the same exactly
      when every factor that differs was at its cap already. */
  lemma ScoreOrder(c: Config, r: Rep, days: real, taste: real, r': Rep, days': real, taste': real)
    requires r.xp <= r'.xp && r.uptimeBps <= r'.uptimeBps && days <= days' && taste <= taste'
    ensures Score(c, r, days, taste) <= Score(c, r', days', taste')
    ensures ScoreTier(Score(c, r, days, taste)) <= ScoreTier(Score(c, r', days', taste'))
    ensures Score(c, r, days, taste) == Score(c, r', days', taste')
       <==> && (r.xp == r'.xp || r.xp >= c.maxXP) && r.uptimeBps == r'.uptimeBps
            && (days == days' || days >= 365.0) && (taste == taste' || taste >= 1.0)
  {
    Normalized(r.xp, c.maxXP);
    Normalized(r'.xp, c.maxXP);
    QuotientOrder(r.xp, r'.xp, c.maxXP);
  }

  /** Below the caps the score is linear in every factor: a step of the whole range of a factor is
      worth its weight. */
  lemma ScoreIsLinear(c: Config, r: Rep, days: real, taste: real, r': Rep, days': real, taste': real)
    requires r.xp <= c.maxXP && r'.xp <= c.maxXP && days <= 365.0 && days' <= 365.0 && taste <= 1.0 && taste' <= 1.0
    ensures Score(c, r', days', taste') - Score(c, r, days, taste) ==
      0.4 * ((r'.xp - r.xp) as real / c.maxXP as real) + 0.3 * ((r'.uptimeBps - r.uptimeBps) as real / 10000.0)
      + 0.2 * ((days' - days) / 365.0) + 0.1 * (taste' - taste)
  {
    Normalized(r.xp, c.maxXP);
    Normalized(r'.xp, c.maxXP);
    CapsAtOne(r.xp, c.maxXP);
    CapsAtOne(r'.xp, c.maxXP);
    DifferenceOfQuotients(r.xp as real, r'.xp as real, c.maxXP as real);
  }

  lemma CapsAtOne(x: nat, n: nat)
    requires x <= n && n > 0
    ensures MinReal(x as real / n as real, 1.0) == x as real / n as real
  {
    QuotientOrder(x, n, n);
  }

  lemma DifferenceOfQuotients(x: real, y: real, n: real)
    requires n > 0.0
    ensures y / n - x / n == (y - x) / n
  {
  }

  lemma QuotientOrder(x: nat, y: nat, n: nat)
    requires x <= y && n > 0
    ensures x as real / n as real <= y as real / n as real
    ensures x as real / n as real == y as real / n as real <==> x == y
  {
    var gap := (y - x) as real / n as real;
    assert y as real / n as real == x as real / n as real + gap;
    assert gap * n as real == (y - x) as real;
  }

  /** The score is 1 exactly when every factor is at its cap; each factor alone is worth its
      weight; and a validator that has just registered with taste 0.8 starts at 0.38, in tier 1. */
  lemma ScoreLandmarks(c: Config, r: Rep, daysSinceJoin: real, tasteScore: real)
    requires r.uptimeBps <= 10000
    ensures Score(c, r, daysSinceJoin, tasteScore) == 1.0
       <==> r.xp >= c.maxXP && r.uptimeBps == 10000 && daysSinceJoin >= 365.0 && tasteScore >= 1.0
    ensures Score(c, r.(xp := c.maxXP, uptimeBps := 0), 0.0, 0.0) == 0.4
    ensures Score(c, r.(xp := 0, uptimeBps := 10000), 0.0, 0.0) == 0.3
    ensures Score(c, r.(xp := 0, uptimeBps := 0), 365.0, 0.0) == 0.2
    ensures Score(c, r.(xp := 0, uptimeBps := 0), 0.0, 1.0) == 0.1
    ensures Score(c, FRESH_REP, 0.0, 0.8) == 0.38 && ScoreTier(Score(c, FRESH_REP, 0.0, 0.8)) == 1
  {
    Normalized(r.xp, c.maxXP);
    Normalized(c.maxXP, c.maxXP);
    Normalized(0, c.maxXP);
  }

  lemma Normalized(xp: u64, maxXP: u64)
    requires maxXP > 0
    ensures xp as real / maxXP as real >= 1.0 <==> xp >= maxXP
    ensures xp == 0 ==> xp as real / maxXP as real == 0.0
  {
    var ratio, top := xp as real / maxXP as real, maxXP as real;
    assert ratio * top == xp as real;
    if ratio >= 1.0 {
      ScaleOrder(top, 1.0, ratio);
    } else {
      assert (1.0 - ratio) * top > 0.0;
    }
  }
}
