/** The staking manager: registration, delegation and slashing. Amounts are unbounded integers
    (big.Int); a slash takes the exact product truncated toward zero. */
module Staking {
  import opened Types
  import opened FloorDrop

  datatype Stake = Stake(validator: Address, amount: int, isActive: bool, rewards: int, slashCount: nat)
  datatype Delegation = Delegation(delegator: Address, validator: Address, amount: int)
  datatype Outcome = Done | BelowMinimum | AlreadyRegistered | NotActive | NotFound

  type Stakes = map<Address, Stake>

  datatype Ledger = Ledger(stakes: Stakes, delegations: map<Address, seq<Delegation>>)

  const EMPTY_LEDGER: Ledger := Ledger(map[], map[])

  datatype Op =
    | Register(validator: Address, amount: int)
    | Delegate(delegator: Address, validator: Address, amount: int)
    | Slash(validator: Address, percentage: real)

  // ----- What each operation does to the ledger

  /** Truncation toward zero, as big.Float.Int does. */
  function Truncate(x: real): int {
    if x >= 0.0 then x.Floor else -((-x).Floor)
  }

  /** n is x without its fraction. */
  predicate TowardZero(n: int, x: real) {
    if x >= 0.0 then n as real <= x < n as real + 1.0 else n as real - 1.0 < x <= n as real
  }

  lemma TruncateIsTowardZero(x: real)
    ensures TowardZero(Truncate(x), x)
  {
  }

  function SlashAmount(amount: int, percentage: real): int {
    Truncate(amount as real * (percentage / 100.0))
  }

  function SlashStake(minStake: int, s: Stake, percentage: real): Stake {
    var left := s.amount - SlashAmount(s.amount, percentage);
    s.(amount := left, slashCount := s.slashCount + 1, isActive := s.isActive && left >= minStake)
  }

  function OutcomeOf(minStake: int, l: Ledger, op: Op): Outcome {
    match op
    case Register(v, amount) =>
      if amount < minStake then BelowMinimum else if v in l.stakes then AlreadyRegistered else Done
    case Delegate(_, v, _) =>
      if v !in l.stakes || !l.stakes[v].isActive then NotActive else Done
    case Slash(v, _) =>
      if v !in l.stakes then NotFound else Done
  }

  function DelegationsTo(l: Ledger, v: Address): seq<Delegation> {
    if v in l.delegations then l.delegations[v] else []
  }

  function Apply(minStake: int, l: Ledger, op: Op): Ledger {
    if OutcomeOf(minStake, l, op) != Done then l
    else
      match op
      case Register(v, amount) =>
        l.(stakes := l.stakes[v := Stake(v, amount, true, 0, 0)])
      case Delegate(d, v, amount) =>
        Ledger(l.stakes[v := l.stakes[v].(amount := l.stakes[v].amount + amount)],
               l.delegations[v := DelegationsTo(l, v) + [Delegation(d, v, amount)]])
      case Slash(v, percentage) =>
        l.(stakes := l.stakes[v := SlashStake(minStake, l.stakes[v], percentage)])
  }

  function RunFrom(minStake: int, l: Ledger, ops: seq<Op>): Ledger {
    if ops == [] then l else Apply(minStake, RunFrom(minStake, l, ops[..|ops| - 1]), ops[|ops| - 1])
  }

  function Run(minStake: int, ops: seq<Op>): Ledger {
    RunFrom(minStake, EMPTY_LEDGER, ops)
  }

  // ----- The manager

  class Manager {
    const minStake: int
    var stakes: Stakes
    var delegations: map<Address, seq<Delegation>>

    ghost function State(): Ledger
      reads this
    {
      Ledger(stakes, delegations)
    }

    constructor (minStakeINSO: u64)
      ensures minStake == minStakeINSO * 1_000_000_000_000_000_000 && State() == EMPTY_LEDGER
    {
      minStake := minStakeINSO * 1_000_000_000_000_000_000;
      stakes, delegations := map[], map[];
    }

    method Register(validator: Address, amount: int) returns (outcome: Outcome)
      modifies this
      ensures outcome == OutcomeOf(minStake, old(State()), Op.Register(validator, amount))
      ensures State() == Apply(minStake, old(State()), Op.Register(validator, amount))
      ensures outcome == Done <==> amount >= minStake && validator !in old(stakes)
      ensures outcome == BelowMinimum <==> amount < minStake
      ensures delegations == old(delegations)
      ensures stakes == if outcome == Done then old(stakes)[validator := Stake(validator, amount, true, 0, 0)] else old(stakes)
    {
      if amount < minStake { return BelowMinimum; }
      if validator in stakes { return AlreadyRegistered; }
      stakes := stakes[validator := Stake(validator, amount, true, 0, 0)];
      outcome := Done;
    }

    method Delegate(delegator: Address, validator: Address, amount: int) returns (outcome: Outcome)
      modifies this
      ensures outcome == OutcomeOf(minStake, old(State()), Op.Delegate(delegator, validator, amount))
      ensures State() == Apply(minStake, old(State()), Op.Delegate(delegator, validator, amount))
      ensures outcome == Done <==> validator in old(stakes) && old(stakes)[validator].isActive
      ensures outcome == Done ==>
        var was := old(stakes)[validator];
        stakes == old(stakes)[validator := was.(amount := was.amount + amount)]
      ensures outcome != Done ==> outcome == NotActive && State() == old(State())
    {
      if validator !in stakes || !stakes[validator].isActive { return NotActive; }
      var recorded := if validator in delegations then delegations[validator] else [];
      delegations := delegations[validator := recorded + [Delegation(delegator, validator, amount)]];
      var stake := stakes[validator];
      stakes := stakes[validator := stake.(amount := stake.amount + amount)];
      outcome := Done;
    }

    method Slash(validator: Address, percentage: real) returns (outcome: Outcome)
      modifies this
      ensures outcome == OutcomeOf(minStake, old(State()), Op.Slash(validator, percentage))
      ensures State() == Apply(minStake, old(State()), Op.Slash(validator, percentage))
      ensures outcome == Done <==> validator in old(stakes)
      ensures outcome != Done ==> outcome == NotFound && State() == old(State())
      ensures outcome == Done ==>
        var was, now := old(stakes)[validator], stakes[validator];
        && delegations == old(delegations) && stakes == old(stakes)[validator := now]
        && TowardZero(was.amount - now.amount, was.amount as real * (percentage / 100.0))
        && now == was.(amount := now.amount, slashCount := was.slashCount + 1, isActive := was.isActive && now.amount >= minStake)
    {
      if validator in stakes {
        TruncateIsTowardZero(stakes[validator].amount as real * (percentage / 100.0));
      }
      if validator !in stakes { return NotFound; }
      var stake := stakes[validator];
      stake := stake.(amount := stake.amount - SlashAmount(stake.amount, percentage));
      stake := stake.(slashCount := stake.slashCount + 1);
      if stake.amount < minStake {
        stake := stake.(isActive := false);
      }
      stakes := stakes[validator := stake];
      outcome := Done;
    }

    /** The sum of the active stakes, in whatever order the active validators are listed. */
    method TotalStaked() returns (total: int)
      ensures forall order :: Lists(order, set a | a in stakes && stakes[a].isActive) ==> total == Amounts(stakes, order)
    {
      total := 0;
      var todo := stakes.Keys;
      ghost var seen: seq<Address> := [];
      while todo != {}
        invariant todo <= stakes.Keys
        invariant Lists(seen, ActiveSet(stakes) - todo)
        invariant total == Amounts(stakes, seen)
        decreases |todo|
      {
        var a :| a in todo;
        if stakes[a].isActive {
          total := total + stakes[a].amount;
          AmountsSnoc(stakes, seen, a);
          seen := seen + [a];
        }
        todo := todo - {a};
      }
      forall order | Lists(order, ActiveSet(stakes))
        ensures total == Amounts(stakes, order)
      {
        OrderIrrelevant(stakes, seen, order);
      }
    }

    /** Every active stake once, in the order in which the map is walked. */
    method ActiveValidators() returns (active: seq<Stake>)
      ensures exists order :: Lists(order, set a | a in stakes && stakes[a].isActive) && StakesAt(stakes, order, active)
    {
      active := [];
      ghost var order: seq<Address> := [];
      var todo := stakes.Keys;
      while todo != {}
        invariant todo <= stakes.Keys
        invariant Lists(order, ActiveSet(stakes) - todo)
        invariant StakesAt(stakes, order, active)
        decreases |todo|
      {
        var a :| a in todo;
        if stakes[a].isActive {
          active := active + [stakes[a]];
          order := order + [a];
        }
        todo := todo - {a};
      }
    }
  }

  // ----- Sums over listings

  function ActiveSet(stakes: Stakes): set<Address> {
    set a | a in stakes && stakes[a].isActive
  }

  /** order lists the elements of s, each once. */
  ghost predicate Lists(order: seq<Address>, s: set<Address>) {
    && (forall i :: 0 <= i < |order| ==> order[i] in s)
    && (forall a :: a in s ==> a in order)
    && (forall i, j :: 0 <= i < j < |order| ==> order[i] != order[j])
  }

  /** listed holds the stakes of the addresses in order, one for one. */
  ghost predicate StakesAt(stakes: Stakes, order: seq<Address>, listed: seq<Stake>) {
    && |listed| == |order|
    && forall i :: 0 <= i < |order| ==> order[i] in stakes && listed[i] == stakes[order[i]]
  }

  function Amounts(stakes: Stakes, order: seq<Address>): int
    requires forall i :: 0 <= i < |order| ==> order[i] in stakes
  {
    if order == [] then 0 else stakes[order[0]].amount + Amounts(stakes, order[1..])
  }

  lemma {:induction false} AmountsSnoc(stakes: Stakes, order: seq<Address>, a: Address)
    requires a in stakes && forall i :: 0 <= i < |order| ==> order[i] in stakes
    ensures Amounts(stakes, order + [a]) == Amounts(stakes, order) + stakes[a].amount
  {
    if order == [] {
      assert order + [a] == [a];
    } else {
      AmountsSnoc(stakes, order[1..], a);
      assert (order + [a])[1..] == order[1..] + [a];
    }
  }

  lemma {:induction false} AmountsWithout(stakes: Stakes, order: seq<Address>, k: nat)
    requires k < |order| && forall i :: 0 <= i < |order| ==> order[i] in stakes
    ensures Amounts(stakes, order) == stakes[order[k]].amount + Amounts(stakes, order[..k] + order[k + 1..])
  {
    if k == 0 {
      assert order[..0] + order[1..] == order[1..];
    } else {
      AmountsWithout(stakes, order[1..], k - 1);
      assert order[1..][..k - 1] + order[1..][k..] == (order[..k] + order[k + 1..])[1..];
    }
  }

  lemma {:induction false} OrderIrrelevant(stakes: Stakes, order: seq<Address>, order': seq<Address>)
    requires forall i :: 0 <= i < |order| ==> order[i] in stakes
    requires forall i, j :: 0 <= i < j < |order| ==> order[i] != order[j]
    requires Lists(order', set a | a in order)
    ensures Amounts(stakes, order) == Amounts(stakes, order')
  {
    if order == [] {
    } else {
      assert order[0] in order';
      var k :| 0 <= k < |order'| && order'[k] == order[0];
      AmountsWithout(stakes, order', k);
      var rest := order'[..k] + order'[k + 1..];
      forall a | a in order[1..]
        ensures a in rest
      {
        assert a in order';
      }
      OrderIrrelevant(stakes, order[1..], rest);
    }
  }

  // ----- Conservation of stake over all runs

  /** What a validator brought in when it registered, counted over a history. */
  function Registered(minStake: int, ops: seq<Op>, v: Address): int {
    if ops == [] then 0
    else
      var before, op := ops[..|ops| - 1], ops[|ops| - 1];
      Registered(minStake, before, v) +
      if op.Register? && op.validator == v && OutcomeOf(minStake, Run(minStake, before), op) == Done then op.amount else 0
  }

  /** Everything that slashes took from a validator, counted over a history. */
  function Slashed(minStake: int, ops: seq<Op>, v: Address): int {
    if ops == [] then 0
    else
      var before, op := ops[..|ops| - 1], ops[|ops| - 1];
      Slashed(minStake, before, v) +
      if op.Slash? && op.validator == v && v in Run(minStake, before).stakes
      then SlashAmount(Run(minStake, before).stakes[v].amount, op.percentage) else 0
  }

  function DelegatedIn(ds: seq<Delegation>): int {
    if ds == [] then 0 else DelegatedIn(ds[..|ds| - 1]) + ds[|ds| - 1].amount
  }

  function Balance(minStake: int, ops: seq<Op>, v: Address): int {
    Registered(minStake, ops, v) + DelegatedIn(DelegationsTo(Run(minStake, ops), v)) - Slashed(minStake, ops, v)
  }

  /** In every reachable ledger a validator's amount is what it registered, plus the delegations on
      record, minus what was slashed; an address without a stake has none of the three. */
  lemma {:induction false} StakeConserved(minStake: int, ops: seq<Op>, v: Address)
    ensures var l := Run(minStake, ops);
            && (v in l.stakes ==> l.stakes[v].validator == v && l.stakes[v].amount == Balance(minStake, ops, v))
            && (v !in l.stakes ==> Registered(minStake, ops, v) == 0 && DelegationsTo(l, v) == [] && Slashed(minStake, ops, v) == 0)
  {
    if ops != [] {
      var before, op := ops[..|ops| - 1], ops[|ops| - 1];
      StakeConserved(minStake, before, v);
      var l := Run(minStake, before);
      if op.Delegate? && op.validator == v && OutcomeOf(minStake, l, op) == Done {
        var ds := DelegationsTo(l, v);
        var ds' := ds + [Delegation(op.delegator, v, op.amount)];
        assert DelegationsTo(Run(minStake, ops), v) == ds' && ds'[..|ds|] == ds;
      }
    }
  }

  function Balances(minStake: int, ops: seq<Op>, order: seq<Address>): int {
    if order == [] then 0 else Balance(minStake, ops, order[0]) + Balances(minStake, ops, order[1..])
  }

  /** So the total over any listing of the active validators is the sum of their ledgers. */
  lemma {:induction false} TotalIsSumOfBalances(minStake: int, ops: seq<Op>, order: seq<Address>)
    requires forall i :: 0 <= i < |order| ==> order[i] in Run(minStake, ops).stakes
    ensures Amounts(Run(minStake, ops).stakes, order) == Balances(minStake, ops, order)
  {
    if order != [] {
      StakeConserved(minStake, ops, order[0]);
      TotalIsSumOfBalances(minStake, ops, order[1..]);
    }
  }

  // ----- What a history leaves on record

  /** Somebody has a stake exactly when some operation registered it at the minimum or above; what
      comes later never removes it. */
  lemma {:induction false} RegisteredIff(minStake: int, ops: seq<Op>, v: Address)
    ensures v in Run(minStake, ops).stakes <==>
              exists i :: 0 <= i < |ops| && ops[i].Register? && ops[i].validator == v && ops[i].amount >= minStake
  {
    if ops != [] {
      var last := |ops| - 1;
      RegisteredIff(minStake, ops[..last], v);
      assert forall i :: 0 <= i < last ==> ops[..last][i] == ops[i];
    }
  }

  /** The delegations to v, in order: all those made while v was active, and no others. */
  function MadeWhileActive(minStake: int, ops: seq<Op>, v: Address): seq<Delegation> {
    if ops == [] then []
    else
      var before, op := ops[..|ops| - 1], ops[|ops| - 1];
      var l := Run(minStake, before);
      MadeWhileActive(minStake, before, v) +
      if op.Delegate? && op.validator == v && v in l.stakes && l.stakes[v].isActive
      then [Delegation(op.delegator, v, op.amount)] else []
  }

  lemma {:induction false} DelegationsOnRecord(minStake: int, ops: seq<Op>, v: Address)
    ensures DelegationsTo(Run(minStake, ops), v) == MadeWhileActive(minStake, ops, v)
  {
    if ops != [] {
      DelegationsOnRecord(minStake, ops[..|ops| - 1], v);
    }
  }

  /** In admissible runs the validators that TotalStaked and ActiveValidators walk are those that hold
      at least the minimum. */
  lemma ActiveAreFunded(minStake: nat, ops: seq<Op>, v: Address)
    requires forall i :: 0 <= i < |ops| ==> Admissible(ops[i])
    ensures var l := Run(minStake, ops);
            v in ActiveSet(l.stakes) <==> v in l.stakes && l.stakes[v].amount >= minStake
  {
    ActivationInvariant(minStake, ops);
  }

  // ----- Activation

  /** A validator is active exactly while its stake reaches the minimum, and owes nothing. */
  predicate Sound(minStake: int, l: Ledger) {
    forall v :: v in l.stakes ==>
      (l.stakes[v].isActive <==> l.stakes[v].amount >= minStake) && l.stakes[v].amount >= 0
  }

  predicate Admissible(op: Op) {
    (op.Delegate? ==> op.amount >= 0) && (op.Slash? ==> 0.0 <= op.percentage <= 100.0)
  }

  lemma SlashIsDrop(amount: nat, percentage: real)
    requires 0.0 <= percentage <= 100.0
    ensures 0 <= SlashAmount(amount, percentage) <= amount
    ensures amount - SlashAmount(amount, percentage) == Drop(amount, percentage / 100.0)
  {
    var q := percentage / 100.0;
    ShareIsProduct(amount, q);
    FloorOfShare(amount, q);
  }

  lemma {:induction false} ActivationInvariant(minStake: nat, ops: seq<Op>)
    requires forall i :: 0 <= i < |ops| ==> Admissible(ops[i])
    ensures Sound(minStake, Run(minStake, ops))
  {
    if ops != [] {
      var before, op := ops[..|ops| - 1], ops[|ops| - 1];
      ActivationInvariant(minStake, before);
      assert Admissible(op);
      StepKeepsSound(minStake, Run(minStake, before), op);
    }
  }

  lemma StepKeepsSound(minStake: nat, l: Ledger, op: Op)
    requires Sound(minStake, l) && Admissible(op)
    ensures Sound(minStake, Apply(minStake, l, op))
  {
    if op.Slash? && op.validator in l.stakes {
      SlashIsDrop(l.stakes[op.validator].amount, op.percentage);
    }
  }

  /** A delegation to an active validator keeps the invariant exactly when it leaves the stake at
      the minimum or above; Delegate itself accepts any amount, negative ones included. */
  lemma DelegateKeepsSoundIff(minStake: nat, l: Ledger, op: Op)
    requires Sound(minStake, l) && op.Delegate? && OutcomeOf(minStake, l, op) == Done
    ensures Sound(minStake, Apply(minStake, l, op)) <==> l.stakes[op.validator].amount + op.amount >= minStake
  {
    var l' := Apply(minStake, l, op);
    assert op.validator in l'.stakes && l'.stakes[op.validator].isActive;
  }

  lemma NegativeDelegationBreaksSound(d: Address, v: Address)
    ensures !Sound(1, Run(1, [Register(v, 1), Delegate(d, v, -1)]))
  {
    var ops := [Register(v, 1), Delegate(d, v, -1)];
    assert ops[..1] == [Register(v, 1)] && ops[..1][..0] == [];
    assert Run(1, ops[..1][..0]) == EMPTY_LEDGER;
    assert Run(1, ops[..1]) == Apply(1, EMPTY_LEDGER, Register(v, 1));
    assert Sound(1, Run(1, ops[..1]));
    assert Run(1, ops) == Apply(1, Run(1, ops[..1]), ops[1]);
    DelegateKeepsSoundIff(1, Run(1, ops[..1]), ops[1]);
  }

  /** Deactivation is permanent, whatever follows. */
  lemma {:induction false} DeactivationIsPermanent(minStake: int, l: Ledger, more: seq<Op>, v: Address)
    requires v in l.stakes && !l.stakes[v].isActive
    ensures var l' := RunFrom(minStake, l, more);
            && v in l'.stakes && !l'.stakes[v].isActive
            && DelegationsTo(l', v) == DelegationsTo(l, v)
  {
    if more != [] {
      DeactivationIsPermanent(minStake, l, more[..|more| - 1], v);
    }
  }

  // ----- Slashing the same validator again and again

  function Slashes(v: Address, percentage: real, k: nat): seq<Op> {
    seq(k, i => Slash(v, percentage))
  }

  /** k slashes of one validator, active or not, are k drops of its stake; it stays active exactly
      if it was active and no slash has left it below the minimum. */
  lemma {:induction false} RepeatedSlashing(minStake: nat, l: Ledger, v: Address, percentage: real, k: nat)
    requires 0.0 <= percentage <= 100.0
    requires v in l.stakes && l.stakes[v].amount >= 0
    ensures var l' := RunFrom(minStake, l, Slashes(v, percentage, k));
            var left := DropN(l.stakes[v].amount, percentage / 100.0, k);
            && v in l'.stakes && l' == l.(stakes := l.stakes[v := l'.stakes[v]])
            && l'.stakes[v].amount == left <= l.stakes[v].amount
            && l'.stakes[v].slashCount == l.stakes[v].slashCount + k
            && (l'.stakes[v].isActive <==> l.stakes[v].isActive && (k == 0 || left >= minStake))
  {
    if k > 0 {
      assert Slashes(v, percentage, k)[..k - 1] == Slashes(v, percentage, k - 1);
      RepeatedSlashing(minStake, l, v, percentage, k - 1);
      SlashIsDrop(DropN(l.stakes[v].amount, percentage / 100.0, k - 1), percentage);
    }
  }

  /** After k slashes at fraction q the stake is within 1/q of the exact geometric value, whether or
      not the validator has been deactivated on the way. */
  lemma SlashedStakeIsGeometric(minStake: nat, l: Ledger, v: Address, percentage: real, k: nat)
    requires 0.0 < percentage <= 100.0
    requires v in l.stakes && l.stakes[v].amount >= 0
    ensures var l' := RunFrom(minStake, l, Slashes(v, percentage, k));
            && v in l'.stakes && l'.stakes[v].amount >= 0
            && WithinGeometric(l.stakes[v].amount, percentage / 100.0, k, l'.stakes[v].amount)
  {
    RepeatedSlashing(minStake, l, v, percentage, k);
    GeometricBounds(l.stakes[v].amount, percentage / 100.0, k);
  }

  /** Repeated slashing at one percentage deactivates a validator sooner or later exactly when that
      percentage of the minimum stake is at least one unit. */
  lemma EventuallyDeactivatedIff(minStake: nat, l: Ledger, v: Address, percentage: real)
    requires 0.0 <= percentage <= 100.0
    requires v in l.stakes && l.stakes[v].isActive && l.stakes[v].amount >= minStake
    ensures (exists k: nat :: InactiveAfter(minStake, l, v, percentage, k)) <==> minStake as real * (percentage / 100.0) >= 1.0
  {
    ShareIsProduct(minStake, percentage / 100.0);
    if Share(minStake, percentage / 100.0) >= 1.0 {
      DeactivatedInTime(minStake, l, v, percentage, l.stakes[v].amount - minStake + 1);
    } else {
      forall k: nat
        ensures !InactiveAfter(minStake, l, v, percentage, k)
      {
        NeverDeactivated(minStake, l, v, percentage, k);
      }
    }
  }

  lemma DeactivatedInTime(minStake: nat, l: Ledger, v: Address, percentage: real, k: nat)
    requires 0.0 <= percentage <= 100.0 && Share(minStake, percentage / 100.0) >= 1.0
    requires v in l.stakes && l.stakes[v].isActive && l.stakes[v].amount >= minStake
    requires k > l.stakes[v].amount - minStake
    ensures InactiveAfter(minStake, l, v, percentage, k)
  {
    FallsBelow(l.stakes[v].amount, percentage / 100.0, minStake - 1, k);
    RepeatedSlashing(minStake, l, v, percentage, k);
  }

  lemma NeverDeactivated(minStake: nat, l: Ledger, v: Address, percentage: real, k: nat)
    requires 0.0 <= percentage <= 100.0 && Share(minStake, percentage / 100.0) < 1.0
    requires v in l.stakes && l.stakes[v].isActive && l.stakes[v].amount >= minStake
    ensures !InactiveAfter(minStake, l, v, percentage, k)
  {
    StaysAbove(l.stakes[v].amount, percentage / 100.0, minStake, k);
    RepeatedSlashing(minStake, l, v, percentage, k);
  }

  predicate InactiveAfter(minStake: int, l: Ledger, v: Address, percentage: real, k: nat) {
    var l' := RunFrom(minStake, l, Slashes(v, percentage, k));
    v in l'.stakes && !l'.stakes[v].isActive
  }
}
