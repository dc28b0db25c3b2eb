/** The consensus engine: sovereignty-weighted validators, the attestation log and finality.
    Voting power is an exact real. Keccak, signing and recovery are parameters. */
module Consensus {
  import opened Types
  import opened BigEndian
  import opened Preimages
  import opened WeightSum
  import Reputation

  datatype Attestation = Attestation(
    blockNumber: u64,
    blockHash: Hash,
    validator: Address,
    tasteScore: real,
    signature: Bytes)

  datatype ValidatorInfo = ValidatorInfo(
    address: Address,
    stake: int,
    tasteScore: real,
    votePower: real,
    sovereigntyScore: real,
    sovereigntyTier: nat,
    isActive: bool,
    slashCount: int)

  type Validators = map<Address, ValidatorInfo>
  type Log = map<u64, seq<Attestation>>

  datatype Keys = Keys(
    localAddr: Address,
    keccak: Bytes -> Hash,
    sign: Hash -> Bytes,
    recover: (Hash, Bytes) -> Option<Address>)

  datatype VerifyOutcome = Verified | InvalidSignature | UnknownValidator

  // ----- What registration and attestation do

  function InEther(stake: int): real {
    stake as real / 1_000_000_000_000_000_000.0
  }

  function VotePower(stake: int, score: real): real {
    InEther(stake) * (1.0 + 0.5 * score)
  }

  /** Twice the power, with the bonus cleared of its fraction. */
  predicate PowerFits(stake: int, score: real, power: real) {
    2.0 * 1_000_000_000_000_000_000.0 * power == stake as real * (2.0 + score)
  }

  lemma VotePowerFits(stake: int, score: real)
    ensures PowerFits(stake, score, VotePower(stake, score))
  {
    var x := InEther(stake);
    assert 1_000_000_000_000_000_000.0 * x == stake as real;
    assert 2.0 * (x * (1.0 + 0.5 * score)) == x * (2.0 + score);
    assert 1_000_000_000_000_000_000.0 * (x * (2.0 + score)) == (1_000_000_000_000_000_000.0 * x) * (2.0 + score);
  }

  function NewValidator(addr: Address, stake: int, tasteScore: real, score: real, tier: nat): ValidatorInfo {
    ValidatorInfo(addr, stake, tasteScore, VotePower(stake, score), score, tier, true, 0)
  }

  function FieldsOf(att: Attestation): AttestationFields {
    AttestationFields(att.blockNumber, att.blockHash, att.validator)
  }

  function PreimageOf(att: Attestation): Bytes {
    AttestationPreimage(FieldsOf(att))
  }

  function Digest(k: Keys, att: Attestation): Hash {
    k.keccak(PreimageOf(att))
  }

  /** The attestation that this node makes for a block. */
  function LocalAttestation(k: Keys, number: u64, hash: Hash): Attestation {
    var unsigned := Attestation(number, hash, k.localAddr, 0.0, []);
    unsigned.(signature := k.sign(Digest(k, unsigned)))
  }

  /** The bytes that are hashed and signed, by their positions. */
  predicate LaidOut(p: Bytes, att: Attestation) {
    AttestationLaidOut(p, att.blockNumber, att.blockHash, att.validator)
  }

  lemma LayoutIsPreimage(att: Attestation)
    ensures forall p :: LaidOut(p, att) <==> p == PreimageOf(att)
  {
    forall p
      ensures LaidOut(p, att) <==> p == PreimageOf(att)
    {
      AttestationLayout(FieldsOf(att), p);
    }
  }

  function AttestationsAt(log: Log, number: u64): seq<Attestation> {
    if number in log then log[number] else []
  }

  function VerifyOutcomeOf(k: Keys, validators: Validators, att: Attestation): VerifyOutcome {
    if |att.signature| != 65 || k.recover(Digest(k, att), att.signature) != Some(att.validator) then InvalidSignature
    else if att.validator !in validators then UnknownValidator
    else Verified
  }

  /** The attestation names the block and this node, and signs the digest of exactly those bytes. */
  lemma LocalAttestationSigns(k: Keys, number: u64, hash: Hash, p: Bytes)
    requires AttestationLaidOut(p, number, hash, k.localAddr)
    ensures LocalAttestation(k, number, hash) == Attestation(number, hash, k.localAddr, 0.0, k.sign(k.keccak(p)))
  {
    AttestationLayout(AttestationFields(number, hash, k.localAddr), p);
  }

  /** What any node signs is accepted here as soon as that node is registered, provided that recovery
      undoes its signing. */
  lemma SignedAttestationVerifies(k: Keys, signer: Keys, validators: Validators, number: u64, hash: Hash)
    requires signer.keccak == k.keccak
    requires forall h :: |signer.sign(h)| == 65 && k.recover(h, signer.sign(h)) == Some(signer.localAddr)
    ensures VerifyOutcomeOf(k, validators, LocalAttestation(signer, number, hash))
         == if signer.localAddr in validators then Verified else UnknownValidator
  {
    var att := LocalAttestation(signer, number, hash);
    assert Digest(k, att) == Digest(signer, att.(signature := []));
  }

  /** A signature of this node stands for one vote: put under any other number or hash it is refused,
      provided that it recovers to this node from its own digest alone and the two preimages do not
      collide. */
  lemma SignatureBindsVote(k: Keys, validators: Validators, number: u64, hash: Hash, att: Attestation)
    requires var own := LocalAttestation(k, number, hash);
             && |own.signature| == 65 && k.recover(Digest(k, own), own.signature) == Some(k.localAddr)
             && (forall d :: k.recover(d, own.signature) == Some(k.localAddr) ==> d == Digest(k, own))
             && att.signature == own.signature && att.validator == own.validator
    requires var p, p' := PreimageOf(att), PreimageOf(LocalAttestation(k, number, hash));
             k.keccak(p) == k.keccak(p') ==> p == p'
    ensures VerifyOutcomeOf(k, validators, att) != InvalidSignature <==> att.blockNumber == number && att.blockHash == hash
  {
    if VerifyOutcomeOf(k, validators, att) != InvalidSignature {
      AttestationPreimageInjective(FieldsOf(att), FieldsOf(LocalAttestation(k, number, hash)));
    }
  }

  // ----- Finality

  /** The voting power of the active validators. */
  function ActiveWeights(validators: Validators): map<Address, real> {
    map a | a in validators && validators[a].isActive :: validators[a].votePower
  }

  function WeightOf(w: map<Address, real>, a: Address): real {
    if a in w then w[a] else 0.0
  }

  /** The power of a list of attestations; an attestor that is listed twice counts twice. */
  function AttestedPower(w: map<Address, real>, atts: seq<Attestation>): real {
    if atts == [] then 0.0
    else AttestedPower(w, atts[..|atts| - 1]) + WeightOf(w, atts[|atts| - 1].validator)
  }

  ghost function TotalPower(w: map<Address, real>): real {
    Sum(w.Keys, w)
  }

  ghost predicate Finalized(w: map<Address, real>, atts: seq<Attestation>) {
    atts != [] && TotalPower(w) != 0.0 && AttestedPower(w, atts) / TotalPower(w) > 2.0 / 3.0
  }

  /** A validator that is registered but not active neither votes nor counts in the total. */
  lemma InactiveDoNotCount(validators: Validators, atts: seq<Attestation>)
    ensures var active := map a | a in validators && validators[a].isActive :: validators[a];
            var voting := Voting(validators, atts);
            && (Finalized(ActiveWeights(validators), atts) <==> voting != [] && Finalized(ActiveWeights(active), voting))
            && forall att :: att in voting ==> att.validator in active
  {
    VotingPower(validators, atts);
    var active := map a | a in validators && validators[a].isActive :: validators[a];
    assert ActiveWeights(active) == ActiveWeights(validators);
    if Voting(validators, atts) == [] && TotalPower(ActiveWeights(validators)) != 0.0 {
      assert 0.0 / TotalPower(ActiveWeights(validators)) == 0.0;
    }
  }

  /** The attestations of active validators. */
  function Voting(validators: Validators, atts: seq<Attestation>): seq<Attestation> {
    if atts == [] then []
    else
      var att := atts[|atts| - 1];
      Voting(validators, atts[..|atts| - 1]) + if att.validator in validators && validators[att.validator].isActive then [att] else []
  }

  lemma {:induction false} VotingPower(validators: Validators, atts: seq<Attestation>)
    ensures AttestedPower(ActiveWeights(validators), Voting(validators, atts)) == AttestedPower(ActiveWeights(validators), atts)
    ensures forall att :: att in Voting(validators, atts) ==> att.validator in validators && validators[att.validator].isActive
  {
    if atts != [] {
      VotingPower(validators, atts[..|atts| - 1]);
      var before, att := Voting(validators, atts[..|atts| - 1]), atts[|atts| - 1];
      if att.validator in ActiveWeights(validators) {
        assert (before + [att])[..|before|] == before;
      } else {
        assert Voting(validators, atts) == before;
      }
    }
  }

  class Engine {
    const keys: Keys
    const repMgr: Reputation.Manager?
    var validators: Validators
    var attestations: Log

    constructor (keys: Keys, repMgr: Reputation.Manager?)
      ensures this.keys == keys && this.repMgr == repMgr
      ensures validators == map[] && attestations == map[]
    {
      this.keys, this.repMgr := keys, repMgr;
      validators, attestations := map[], map[];
    }

    /** Registers or re-registers a validator with the score that its reputation earns now; a
        validator without a reputation record scores zero. */
    method RegisterValidator(addr: Address, stake: int, tasteScore: real, daysSinceJoin: real)
      modifies this`validators, repMgr
      ensures repMgr == null || addr !in old(repMgr.reps) ==>
        validators == old(validators)[addr := NewValidator(addr, stake, tasteScore, 0.0, 0)]
      ensures repMgr != null && addr in old(repMgr.reps) ==>
        var score := Reputation.Score(repMgr.cfg, old(repMgr.reps)[addr], daysSinceJoin, tasteScore);
        var tier := Reputation.ScoreTier(score);
        && validators == old(validators)[addr := NewValidator(addr, stake, tasteScore, score, tier)]
        && repMgr.reps == old(repMgr.reps)[addr := old(repMgr.reps)[addr].(score := score, tier := tier)]
      ensures repMgr != null && addr !in old(repMgr.reps) ==> repMgr.reps == old(repMgr.reps)
      ensures validators.Keys == old(validators).Keys + {addr}
      ensures forall a :: a in old(validators) && a != addr ==> validators[a] == old(validators)[a]
      ensures var v := validators[addr];
              && v.address == addr && v.stake == stake && v.tasteScore == tasteScore && v.isActive && v.slashCount == 0
              && PowerFits(stake, v.sovereigntyScore, v.votePower)
      ensures var v := validators[addr];
              if repMgr != null && addr in old(repMgr.reps)
              then repMgr.reps[addr].score == v.sovereigntyScore && repMgr.reps[addr].tier == v.sovereigntyTier
              else v.sovereigntyScore == 0.0 && v.sovereigntyTier == 0
    {
      var stakeF := InEther(stake);
      var score, tier := 0.0, 0;
      if repMgr != null {
        score, tier := repMgr.ComputeSovereignty(addr, daysSinceJoin, tasteScore);
      }
      var votePower := stakeF * (1.0 + 0.5 * score);
      assert votePower == VotePower(stake, score);
      VotePowerFits(stake, score);
      validators := validators[addr := ValidatorInfo(addr, stake, tasteScore, votePower, score, tier, true, 0)];
    }

    method AttestationHash(att: Attestation) returns (digest: Hash)
      ensures digest == Digest(keys, att)
    {
      var data: Bytes := [];
      data := data + Minimal(att.blockNumber);
      data := data + att.blockHash;
      data := data + att.validator;
      assert [] + Minimal(att.blockNumber) == Minimal(att.blockNumber);
      digest := keys.keccak(data);
    }

    /** Appends without looking for an earlier attestation of the same height. */
    method AttestBlock(number: u64, hash: Hash) returns (att: Attestation)
      modifies this`attestations, repMgr
      ensures att == LocalAttestation(keys, number, hash)
      ensures attestations == old(attestations)[number := AttestationsAt(old(attestations), number) + [att]]
      ensures repMgr != null ==>
        repMgr.reps == Reputation.ApplyAt(repMgr.cfg, old(repMgr.reps), keys.localAddr, Reputation.Attest)
    {
      att := Attestation(number, hash, keys.localAddr, 0.0, []);
      var digest := AttestationHash(att);
      att := att.(signature := keys.sign(digest));
      var earlier := if number in attestations then attestations[number] else [];
      attestations := attestations[number := earlier + [att]];
      if repMgr != null {
        repMgr.RecordAttestation(keys.localAddr);
      }
    }

    method IsFinalized(number: u64) returns (finalized: bool)
      ensures finalized <==> Finalized(ActiveWeights(validators), AttestationsAt(attestations, number))
    {
      var atts := if number in attestations then attestations[number] else [];
      if |atts| == 0 {
        return false;
      }
      ghost var w := ActiveWeights(validators);
      var attestedPower, totalPower := 0.0, 0.0;
      var todo := validators.Keys;
      while todo != {}
        invariant todo <= validators.Keys
        invariant totalPower == Sum(w.Keys - todo, w)
        decreases |todo|
      {
        var a :| a in todo;
        WalkStep(w, todo, a);
        if validators[a].isActive {
          totalPower := totalPower + validators[a].votePower;
        }
        todo := todo - {a};
      }
      assert w.Keys - {} == w.Keys;
      for i := 0 to |atts|
        invariant attestedPower == AttestedPower(w, atts[..i])
      {
        AttestedPowerSnoc(w, atts, i);
        if atts[i].validator in validators && validators[atts[i].validator].isActive {
          attestedPower := attestedPower + validators[atts[i].validator].votePower;
        }
      }
      assert atts[..|atts|] == atts;
      if totalPower == 0.0 {
        return false;
      }
      finalized := attestedPower / totalPower > 2.0 / 3.0;
    }

    method VerifyAttestation(att: Attestation) returns (outcome: VerifyOutcome)
      ensures outcome == VerifyOutcomeOf(keys, validators, att)
      ensures forall p :: LaidOut(p, att) ==>
        var genuine := |att.signature| == 65 && keys.recover(keys.keccak(p), att.signature) == Some(att.validator);
        && (outcome == Verified <==> genuine && att.validator in validators)
        && (outcome == UnknownValidator <==> genuine && att.validator !in validators)
        && (outcome == InvalidSignature <==> !genuine)
    {
      LayoutIsPreimage(att);
      if |att.signature| != 65 { return InvalidSignature; }
      var digest := AttestationHash(att);
      var recovered := keys.recover(digest, att.signature);
      if recovered.None? { return InvalidSignature; }
      if recovered.value != att.validator { return InvalidSignature; }
      if att.validator !in validators { return UnknownValidator; }
      outcome := Verified;
    }
  }

  lemma WalkStep(w: map<Address, real>, todo: set<Address>, a: Address)
    requires a in todo
    ensures Sum(w.Keys - (todo - {a}), w) == Sum(w.Keys - todo, w) + WeightOf(w, a)
  {
    if a in w {
      SumPick(w.Keys - (todo - {a}), w, a);
      assert w.Keys - (todo - {a}) - {a} == w.Keys - todo;
    } else {
      assert w.Keys - (todo - {a}) == w.Keys - todo;
    }
  }

  lemma AttestedPowerSnoc(w: map<Address, real>, atts: seq<Attestation>, i: nat)
    requires i < |atts|
    ensures AttestedPower(w, atts[..i + 1]) == AttestedPower(w, atts[..i]) + WeightOf(w, atts[i].validator)
  {
    assert atts[..i + 1][..i] == atts[..i];
  }

  // ----- The loops compute a quorum of a set

  function Attestors(w: map<Address, real>, atts: seq<Attestation>): set<Address> {
    set att | att in atts && att.validator in w :: att.validator
  }

  /** No validator with voting power is listed twice. */
  predicate NoDoubleVote(w: map<Address, real>, atts: seq<Attestation>) {
    forall i, j :: 0 <= i < j < |atts| && atts[i].validator == atts[j].validator ==> WeightOf(w, atts[j].validator) == 0.0
  }

  ghost function SetPower(w: map<Address, real>, atts: seq<Attestation>): real {
    Sum(Attestors(w, atts), w)
  }

  lemma AttestorsSnoc(w: map<Address, real>, atts: seq<Attestation>)
    requires atts != []
    ensures var v := atts[|atts| - 1].validator;
            Attestors(w, atts) == Attestors(w, atts[..|atts| - 1]) + if v in w then {v} else {}
  {
    assert atts == atts[..|atts| - 1] + [atts[|atts| - 1]];
  }

  /** The listed power is at least the power of the set of attestors, and equal to it exactly when
      nobody with voting power is listed twice. */
  lemma {:induction false} ListedPowerIsSetPowerIff(w: map<Address, real>, atts: seq<Attestation>)
    requires NonNegative(w)
    ensures AttestedPower(w, atts) >= SetPower(w, atts)
    ensures AttestedPower(w, atts) == SetPower(w, atts) <==> NoDoubleVote(w, atts)
  {
    if atts != [] {
      var n := |atts| - 1;
      var before, v := atts[..n], atts[n].validator;
      ListedPowerIsSetPowerIff(w, before);
      AttestorsSnoc(w, atts);
      if v in w && v !in Attestors(w, before) {
        SumPick(Attestors(w, atts), w, v);
        assert Attestors(w, atts) - {v} == Attestors(w, before);
      } else {
        assert Attestors(w, atts) == Attestors(w, before);
      }
      if v in Attestors(w, before) {
        var att :| att in before && att.validator == v;
        var i :| 0 <= i < n && atts[i] == att;
        assert NoDoubleVote(w, atts) ==> WeightOf(w, v) == 0.0;
      } else if v in w {
        assert forall i :: 0 <= i < n ==> atts[i] in before;
      }
      DoubleVoteSnoc(w, atts);
    }
  }

  lemma DoubleVoteSnoc(w: map<Address, real>, atts: seq<Attestation>)
    requires atts != []
    ensures var n := |atts| - 1;
            var repeated := atts[n].validator in Attestors(w, atts[..n]) && w[atts[n].validator] != 0.0;
            NoDoubleVote(w, atts) <==> (NoDoubleVote(w, atts[..n]) && !repeated)
  {
    var n := |atts| - 1;
    var v := atts[n].validator;
    if v in Attestors(w, atts[..n]) {
      var att :| att in atts[..n] && att.validator == v;
      var i :| 0 <= i < n && atts[i] == att;
    } else {
      assert forall i :: 0 <= i < n ==> atts[i] in atts[..n];
    }
  }

  /** What IsFinalized decides, for any walk over the map: attestors that are not counted twice
      hold more than two thirds of the active power. */
  lemma FinalizedIsQuorum(w: map<Address, real>, atts: seq<Attestation>)
    requires NonNegative(w) && NoDoubleVote(w, atts)
    ensures Finalized(w, atts) <==> SetQuorum(w, atts)
  {
    ListedPowerIsSetPowerIff(w, atts);
    SumNonNegative(w.Keys, w);
    if TotalPower(w) > 0.0 {
      RatioAboveTwoThirds(AttestedPower(w, atts), TotalPower(w));
    }
  }

  lemma RatioAboveTwoThirds(x: real, total: real)
    requires total > 0.0
    ensures x / total > 2.0 / 3.0 <==> 3.0 * x > 2.0 * total
  {
    var r := x / total;
    assert r * total == x;
    if r > 2.0 / 3.0 {
      assert (r - 2.0 / 3.0) * total > 0.0;
    } else {
      assert (2.0 / 3.0 - r) * total >= 0.0;
    }
  }

  /** The attestors, each counted once, hold more than two thirds of the active power. */
  ghost predicate SetQuorum(w: map<Address, real>, atts: seq<Attestation>) {
    TotalPower(w) > 0.0 && 3.0 * SetPower(w, atts) > 2.0 * TotalPower(w)
  }

  /** No member of the set is listed twice. */
  predicate ListedOnce(members: set<Address>, atts: seq<Attestation>) {
    forall i, j :: 0 <= i < j < |atts| && atts[i].validator in members ==> atts[i].validator != atts[j].validator
  }

  predicate AllListed(members: set<Address>, atts: seq<Attestation>) {
    forall a :: a in members ==> exists i :: 0 <= i < |atts| && atts[i].validator == a
  }

  ghost predicate AnswersForSet(w: map<Address, real>, atts: seq<Attestation>) {
    Finalized(w, atts) <==> SetQuorum(w, atts)
  }

  /** When the double counting shows: the answer is that of the set, for all powers that the active
      validators may have, exactly when no active validator is listed twice or all of them are listed. */
  lemma AnswersForSetIff(active: set<Address>, atts: seq<Attestation>)
    ensures (forall w: map<Address, real> :: w.Keys == active && NonNegative(w) ==> AnswersForSet(w, atts))
       <==> ListedOnce(active, atts) || AllListed(active, atts)
  {
    forall w: map<Address, real> |
      w.Keys == active && NonNegative(w) && (ListedOnce(active, atts) || AllListed(active, atts))
      ensures AnswersForSet(w, atts)
    {
      if ListedOnce(active, atts) {
        FinalizedIsQuorum(w, atts);
      } else {
        EveryoneFinalizes(w, atts);
      }
    }
    if !ListedOnce(active, atts) && !AllListed(active, atts) {
      var i, j :| 0 <= i < j < |atts| && atts[i].validator in active && atts[i].validator == atts[j].validator;
      var b :| b in active && forall k :: 0 <= k < |atts| ==> atts[k].validator != b;
      var w := TwoPoints(active, atts[i].validator, b);
      TwiceListedFinalizes(w, atts, i, j, b);
      assert !AnswersForSet(w, atts);
    }
  }

  lemma EveryoneFinalizes(w: map<Address, real>, atts: seq<Attestation>)
    requires NonNegative(w) && AllListed(w.Keys, atts)
    ensures AnswersForSet(w, atts)
  {
    forall a | a in w.Keys
      ensures a in Attestors(w, atts)
    {
      var i :| 0 <= i < |atts| && atts[i].validator == a;
      assert atts[i] in atts;
    }
    assert Attestors(w, atts) == w.Keys;
    ListedPowerIsSetPowerIff(w, atts);
    SumNonNegative(w.Keys, w);
    if TotalPower(w) > 0.0 {
      RatioAboveTwoThirds(AttestedPower(w, atts), TotalPower(w));
    }
  }

  /** All the power in two hands, half each. */
  function TwoPoints(members: set<Address>, a: Address, b: Address): map<Address, real> {
    map x | x in members :: if x == a || x == b then 1.0 else 0.0
  }

  /** A validator with half of the power finalizes against the other half when it is listed twice. */
  lemma TwiceListedFinalizes(w: map<Address, real>, atts: seq<Attestation>, i: nat, j: nat, b: Address)
    requires i < j < |atts| && atts[i].validator == atts[j].validator
    requires var a := atts[i].validator;
             && a in w && b in w && a != b && w[a] == w[b] > 0.0
             && forall x :: x in w && x != a && x != b ==> w[x] == 0.0
    requires forall k :: 0 <= k < |atts| ==> atts[k].validator != b
    ensures Finalized(w, atts) && !SetQuorum(w, atts)
  {
    var a := atts[i].validator;
    SumPick(w.Keys, w, a);
    SumPick(w.Keys - {a}, w, b);
    SumZero(w.Keys - {a} - {b}, w);
    assert NonNegative(w);
    TwiceListedPower(w, atts, i, j);
    RatioAboveTwoThirds(AttestedPower(w, atts), TotalPower(w));
    SumMonotone(Attestors(w, atts), w.Keys - {b}, w);
    SumPick(w.Keys - {b}, w, a);
    assert w.Keys - {b} - {a} == w.Keys - {a} - {b};
  }

  lemma TwiceListedPower(w: map<Address, real>, atts: seq<Attestation>, i: nat, j: nat)
    requires NonNegative(w) && i < j < |atts| && atts[i].validator == atts[j].validator
    ensures AttestedPower(w, atts) >= 2.0 * WeightOf(w, atts[i].validator)
  {
    var rest := atts[..j] + atts[j + 1..];
    AttestedPowerWithout(w, atts, j);
    AttestedPowerWithout(w, rest, i);
    AttestedPowerNonNegative(w, rest[..i] + rest[i + 1..]);
  }

  lemma {:induction false} AttestedPowerNonNegative(w: map<Address, real>, atts: seq<Attestation>)
    requires NonNegative(w)
    ensures AttestedPower(w, atts) >= 0.0
  {
    if atts != [] {
      AttestedPowerNonNegative(w, atts[..|atts| - 1]);
    }
  }

  /** The failure on an engine: two validators register with equal stakes, and this node, one of
      them, attests the same block once and then once more. */
  method DoubleAttestationFinalizes(keys: Keys, cfg: Reputation.Config, other: Address, stake: int, tasteScore: real,
                                    daysSinceJoin: real, number: u64, hash: Hash)
    returns (engine: Engine, once: bool, twice: bool)
    requires other != keys.localAddr && stake > 0 && tasteScore >= 0.0 && daysSinceJoin >= 0.0
    ensures !once && twice
    ensures !SetQuorum(ActiveWeights(engine.validators), AttestationsAt(engine.attestations, number))
  {
    engine := TwoEqualValidators(keys, cfg, other, stake, tasteScore, daysSinceJoin);
    var att := engine.AttestBlock(number, hash);
    once := engine.IsFinalized(number);
    HalfIsNoQuorum(engine.validators, keys.localAddr, other, att);
    var again := engine.AttestBlock(number, hash);
    twice := engine.IsFinalized(number);
    assert AttestationsAt(engine.attestations, number) == [att, again];
    TwiceListedFinalizes(ActiveWeights(engine.validators), [att, again], 0, 1, other);
  }

  method TwoEqualValidators(keys: Keys, cfg: Reputation.Config, other: Address, stake: int, tasteScore: real, daysSinceJoin: real)
    returns (engine: Engine)
    requires other != keys.localAddr && stake > 0 && tasteScore >= 0.0 && daysSinceJoin >= 0.0
    ensures fresh(engine) && engine.keys == keys && engine.attestations == map[]
    ensures engine.repMgr != null && fresh(engine.repMgr)
    ensures var vs := engine.validators;
            && vs.Keys == {keys.localAddr, other} && vs[keys.localAddr].isActive && vs[other].isActive
            && vs[keys.localAddr].votePower == vs[other].votePower > 0.0
  {
    var repMgr := new Reputation.Manager(cfg);
    repMgr.Register(keys.localAddr);
    repMgr.Register(other);
    engine := new Engine(keys, repMgr);
    engine.RegisterValidator(keys.localAddr, stake, tasteScore, daysSinceJoin);
    engine.RegisterValidator(other, stake, tasteScore, daysSinceJoin);
    EqualStart(cfg, stake, tasteScore, daysSinceJoin);
  }

  lemma EqualStart(c: Reputation.Config, stake: int, tasteScore: real, daysSinceJoin: real)
    requires stake > 0 && tasteScore >= 0.0 && daysSinceJoin >= 0.0
    ensures VotePower(stake, Reputation.Score(c, Reputation.FRESH_REP, daysSinceJoin, tasteScore)) > 0.0
  {
    Reputation.ScoreInUnitInterval(c, Reputation.FRESH_REP, daysSinceJoin, tasteScore);
    PowerBetween(stake, Reputation.Score(c, Reputation.FRESH_REP, daysSinceJoin, tasteScore));
  }

  lemma HalfIsNoQuorum(vs: Validators, a: Address, b: Address, att: Attestation)
    requires a != b && vs.Keys == {a, b} && vs[a].isActive && vs[b].isActive && att.validator == a
    requires vs[a].votePower == vs[b].votePower > 0.0
    ensures !Finalized(ActiveWeights(vs), [att])
  {
    SingleAttestor(vs, a, b, att);
  }

  /** Finality does not depend on the order of the attestation list. */
  lemma {:induction false} AttestedPowerPermutes(w: map<Address, real>, atts: seq<Attestation>, atts': seq<Attestation>)
    requires multiset(atts) == multiset(atts')
    ensures AttestedPower(w, atts) == AttestedPower(w, atts')
    ensures Finalized(w, atts) <==> Finalized(w, atts')
    decreases |atts|
  {
    if atts == [] {
      assert |multiset(atts')| == 0;
    } else {
      var n := |atts| - 1;
      var k := SameElement(atts, atts');
      AttestedPowerPermutes(w, atts[..n], atts'[..k] + atts'[k + 1..]);
      AttestedPowerWithout(w, atts', k);
    }
  }

  /** The last element of a list occurs in any permutation of it, and taking both out leaves
      permutations of each other. */
  lemma SameElement(atts: seq<Attestation>, atts': seq<Attestation>) returns (k: nat)
    requires multiset(atts) == multiset(atts') && atts != []
    ensures k < |atts'| && atts'[k] == atts[|atts| - 1]
    ensures multiset(atts[..|atts| - 1]) == multiset(atts'[..k] + atts'[k + 1..])
  {
    var n := |atts| - 1;
    var last := atts[n];
    assert atts == atts[..n] + [last];
    assert last in multiset(atts');
    k :| 0 <= k < |atts'| && atts'[k] == last;
    assert atts' == atts'[..k] + [last] + atts'[k + 1..];
    assert multiset(atts) - multiset{last} == multiset(atts[..n]);
    assert multiset(atts') - multiset{last} == multiset(atts'[..k] + atts'[k + 1..]);
  }

  lemma {:induction false} AttestedPowerWithout(w: map<Address, real>, atts: seq<Attestation>, k: nat)
    requires k < |atts|
    ensures AttestedPower(w, atts) == AttestedPower(w, atts[..k] + atts[k + 1..]) + WeightOf(w, atts[k].validator)
    decreases |atts|
  {
    var n := |atts| - 1;
    if k == n {
      assert atts[..k] + atts[k + 1..] == atts[..n];
    } else {
      AttestedPowerWithout(w, atts[..n], k);
      assert (atts[..k] + atts[k + 1..])[..n - 1] == atts[..n][..k] + atts[..n][k + 1..];
    }
  }

  /** More attestations never undo finality. */
  lemma {:induction false} FinalityIsMonotone(w: map<Address, real>, atts: seq<Attestation>, more: seq<Attestation>)
    requires NonNegative(w) && Finalized(w, atts)
    ensures Finalized(w, atts + more)
    decreases |more|
  {
    SumNonNegative(w.Keys, w);
    if more == [] {
      assert atts + more == atts;
    } else {
      var n := |more| - 1;
      FinalityIsMonotone(w, atts, more[..n]);
      assert (atts + more)[..|atts + more| - 1] == atts + more[..n];
      RatioAboveTwoThirds(AttestedPower(w, atts + more[..n]), TotalPower(w));
      RatioAboveTwoThirds(AttestedPower(w, atts + more), TotalPower(w));
    }
  }

  // ----- Accountable quorum intersection

  /** The validators that attested to different hashes in the two lists. */
  function Equivocators(w: map<Address, real>, atts: seq<Attestation>, atts': seq<Attestation>): set<Address> {
    set x, y | x in atts && y in atts' && x.validator == y.validator && x.validator in w && x.blockHash != y.blockHash :: x.validator
  }

  /** Two lists that both finalize under the same active weights share attestors with more than a
      third of the power. */
  lemma QuorumIntersection(w: map<Address, real>, atts: seq<Attestation>, atts': seq<Attestation>)
    requires NonNegative(w) && NoDoubleVote(w, atts) && NoDoubleVote(w, atts')
    requires Finalized(w, atts) && Finalized(w, atts')
    ensures 3.0 * Sum(Attestors(w, atts) * Attestors(w, atts'), w) > TotalPower(w)
  {
    var a, b := Attestors(w, atts), Attestors(w, atts');
    FinalizedIsQuorum(w, atts);
    FinalizedIsQuorum(w, atts');
    SumOverlap(a, b, w);
    SumMonotone(a + b, w.Keys, w);
  }

  /** Accountability: when two engines with the same active weights finalize different hashes at
      one height, validators with more than a third of the power attested to both. */
  lemma ConflictIsAccountable(validators: Validators, validators': Validators, atts: seq<Attestation>, atts': seq<Attestation>,
                              hash: Hash, hash': Hash)
    requires var w := ActiveWeights(validators);
             && w == ActiveWeights(validators') && NonNegative(w)
             && NoDoubleVote(w, atts) && NoDoubleVote(w, atts')
             && Finalized(w, atts) && Finalized(ActiveWeights(validators'), atts')
    requires hash != hash'
    requires forall att :: att in atts ==> att.blockHash == hash
    requires forall att :: att in atts' ==> att.blockHash == hash'
    ensures var w := ActiveWeights(validators);
            3.0 * Sum(Equivocators(w, atts, atts'), w) > TotalPower(w)
  {
    var w := ActiveWeights(validators);
    QuorumIntersection(w, atts, atts');
    assert Equivocators(w, atts, atts') == Attestors(w, atts) * Attestors(w, atts');
  }

  // ----- Raw stake

  function RawStakes(validators: Validators): map<Address, real> {
    map a | a in validators && validators[a].isActive :: InEther(validators[a].stake)
  }

  /** Stakes are not negative, scores lie in [0, 1], and the power is what registration computes. */
  predicate WellWeighted(validators: Validators) {
    forall a :: a in validators ==>
      var v := validators[a];
      v.stake >= 0 && 0.0 <= v.sovereigntyScore <= 1.0 && PowerFits(v.stake, v.sovereigntyScore, v.votePower)
  }

  /** A registration, with the history of the validator's reputation record up to that moment; None
      if it has no record. */
  datatype Registration = Registration(
    addr: Address,
    stake: int,
    tasteScore: real,
    history: Option<seq<Reputation.Op>>,
    daysSinceJoin: real)

  function ScoreAt(c: Reputation.Config, r: Registration): real {
    if r.history.None? then 0.0
    else Reputation.Score(c, Reputation.Run(c, Reputation.FRESH_REP, r.history.value), r.daysSinceJoin, r.tasteScore)
  }

  /** RegisterValidator on values. */
  function Register(c: Reputation.Config, validators: Validators, r: Registration): Validators {
    var score := ScoreAt(c, r);
    var tier := if r.history.Some? then Reputation.ScoreTier(score) else 0;
    validators[r.addr := NewValidator(r.addr, r.stake, r.tasteScore, score, tier)]
  }

  /** It is what Engine.RegisterValidator does when the record on file has the XP and the uptime of the
      history. */
  lemma RegisterMatchesEngine(c: Reputation.Config, reps: Reputation.Reps, validators: Validators, r: Registration)
    requires r.history.Some? <==> r.addr in reps
    requires r.history.Some? ==>
      var rep := Reputation.Run(c, Reputation.FRESH_REP, r.history.value);
      reps[r.addr].xp == rep.xp && reps[r.addr].uptimeBps == rep.uptimeBps
    ensures r.addr in reps ==>
      var score := Reputation.Score(c, reps[r.addr], r.daysSinceJoin, r.tasteScore);
      Register(c, validators, r)
        == validators[r.addr := NewValidator(r.addr, r.stake, r.tasteScore, score, Reputation.ScoreTier(score))]
    ensures r.addr !in reps ==>
      Register(c, validators, r) == validators[r.addr := NewValidator(r.addr, r.stake, r.tasteScore, 0.0, 0)]
  {
  }

  function RegisterAll(c: Reputation.Config, rs: seq<Registration>): Validators {
    if rs == [] then map[] else Register(c, RegisterAll(c, rs[..|rs| - 1]), rs[|rs| - 1])
  }

  /** No negative stake, taste or age, and fewer than 2^64 blocks attested or missed so far. */
  predicate Reasonable(r: Registration) {
    && r.stake >= 0 && r.tasteScore >= 0.0 && r.daysSinceJoin >= 0.0
    && (r.history.Some? ==> Reputation.CountersFit(r.history.value))
  }

  lemma {:induction false} RegistrationsWellWeighted(c: Reputation.Config, rs: seq<Registration>)
    requires forall i :: 0 <= i < |rs| ==> Reasonable(rs[i])
    ensures WellWeighted(RegisterAll(c, rs))
  {
    if rs != [] {
      RegistrationsWellWeighted(c, rs[..|rs| - 1]);
      var r := rs[|rs| - 1];
      assert Reasonable(r);
      VotePowerFits(r.stake, ScoreAt(c, r));
      if r.history.Some? {
        Reputation.UptimeInRange(c, r.history.value);
        Reputation.ScoreInUnitInterval(c, Reputation.Run(c, Reputation.FRESH_REP, r.history.value), r.daysSinceJoin, r.tasteScore);
      }
    }
  }

  lemma PowerBetween(stake: int, score: real)
    requires stake >= 0 && 0.0 <= score <= 1.0
    ensures 0.0 <= InEther(stake) <= VotePower(stake, score) <= 1.5 * InEther(stake)
  {
    var x := InEther(stake);
    assert x * (1.0 + 0.5 * score) == x + 0.5 * (x * score);
    assert 0.0 <= x * score <= x;
  }

  lemma WeightsBetween(validators: Validators)
    requires WellWeighted(validators)
    ensures var u, w := RawStakes(validators), ActiveWeights(validators);
            && u.Keys == w.Keys && NonNegative(u) && NonNegative(w)
            && forall a :: a in u ==> u[a] <= w[a] <= 1.5 * u[a]
  {
    forall a | a in validators
      ensures var v := validators[a]; 0.0 <= InEther(v.stake) <= v.votePower <= 1.5 * InEther(v.stake)
    {
      PowerBetween(validators[a].stake, validators[a].sovereigntyScore);
      VotePowerFits(validators[a].stake, validators[a].sovereigntyScore);
    }
  }

  /** Whatever the scores, attestors that finalize hold more than 4/7 of the active raw stake, and
      attestors that hold more than 3/4 of it finalize. */
  lemma RawStakeBounds(c: Reputation.Config, rs: seq<Registration>, atts: seq<Attestation>)
    requires forall i :: 0 <= i < |rs| ==> Reasonable(rs[i])
    requires NoDoubleVote(ActiveWeights(RegisterAll(c, rs)), atts)
    ensures var vs := RegisterAll(c, rs);
            var u, w := RawStakes(vs), ActiveWeights(vs);
            && u.Keys == w.Keys
            && (Finalized(w, atts) ==> 7.0 * Sum(Attestors(w, atts), u) > 4.0 * TotalPower(u))
            && (4.0 * Sum(Attestors(w, atts), u) > 3.0 * TotalPower(u) ==> Finalized(w, atts))
  {
    RegistrationsWellWeighted(c, rs);
    StakeBoundsOf(RegisterAll(c, rs), atts);
  }

  lemma StakeBoundsOf(vs: Validators, atts: seq<Attestation>)
    requires WellWeighted(vs) && NoDoubleVote(ActiveWeights(vs), atts)
    ensures var u, w := RawStakes(vs), ActiveWeights(vs);
            && u.Keys == w.Keys
            && (Finalized(w, atts) ==> 7.0 * Sum(Attestors(w, atts), u) > 4.0 * TotalPower(u))
            && (4.0 * Sum(Attestors(w, atts), u) > 3.0 * TotalPower(u) ==> Finalized(w, atts))
  {
    WeightsBetween(vs);
    var u, w := RawStakes(vs), ActiveWeights(vs);
    var inside := Attestors(w, atts);
    var outside := w.Keys - inside;
    FinalizedIsQuorum(w, atts);
    SumSplit(w.Keys, inside, w);
    SumSplit(u.Keys, inside, u);
    SumBetween(inside, u, w);
    SumBetween(outside, u, w);
    SumNonNegative(inside, u);
    SumNonNegative(outside, u);
  }

  /** Two validators, one with stake x and score s that attests, one with stake y and score t. */
  function TwoValidators(a: Address, x: nat, s: real, b: Address, y: nat, t: real): Validators {
    map[b := NewValidator(b, y, 0.0, t, 0), a := NewValidator(a, x, 0.0, s, 0)]
  }

  /** For any stakes and scores: the first of two validators finalizes alone exactly when its stake,
      raised by half its score, is more than twice that of the other, raised by half of its. */
  lemma TwoValidatorThreshold(a: Address, x: nat, s: real, b: Address, y: nat, t: real, att: Attestation)
    requires a != b && att.validator == a && x > 0 && 0.0 <= s <= 1.0 && 0.0 <= t <= 1.0
    ensures Finalized(ActiveWeights(TwoValidators(a, x, s, b, y, t)), [att]) <==>
              x as real * (2.0 + s) > 2.0 * (y as real * (2.0 + t))
  {
    PowerBetween(x, s);
    PowerBetween(y, t);
    VotePowerFits(x, s);
    VotePowerFits(y, t);
    SingleAttestor(TwoValidators(a, x, s, b, y, t), a, b, att);
  }

  /** Neither constant can be improved: with scores 1 and 0 finality is exactly more than 4/7 of
      the stake, with scores 0 and 1 it is exactly more than 3/4 of it. */
  lemma RawStakeBoundsTight(a: Address, x: nat, b: Address, y: nat, att: Attestation)
    requires a != b && att.validator == a && x > 0
    ensures WellWeighted(TwoValidators(a, x, 1.0, b, y, 0.0)) && WellWeighted(TwoValidators(a, x, 0.0, b, y, 1.0))
    ensures Finalized(ActiveWeights(TwoValidators(a, x, 1.0, b, y, 0.0)), [att]) <==> 7 * x > 4 * (x + y)
    ensures Finalized(ActiveWeights(TwoValidators(a, x, 0.0, b, y, 1.0)), [att]) <==> 4 * x > 3 * (x + y)
  {
    TwoValidatorThreshold(a, x, 1.0, b, y, 0.0, att);
    TwoValidatorThreshold(a, x, 0.0, b, y, 1.0, att);
    TwoAreWellWeighted(a, x, 1.0, b, y, 0.0);
    TwoAreWellWeighted(a, x, 0.0, b, y, 1.0);
  }

  lemma TwoAreWellWeighted(a: Address, x: nat, s: real, b: Address, y: nat, t: real)
    requires 0.0 <= s <= 1.0 && 0.0 <= t <= 1.0
    ensures WellWeighted(TwoValidators(a, x, s, b, y, t))
  {
    VotePowerFits(x, s);
    VotePowerFits(y, t);
  }

  lemma SingleAttestor(vs: Validators, a: Address, b: Address, att: Attestation)
    requires a != b && vs.Keys == {a, b} && vs[a].isActive && vs[b].isActive && att.validator == a
    requires vs[a].votePower > 0.0 && vs[b].votePower >= 0.0
    ensures Finalized(ActiveWeights(vs), [att]) <==> vs[a].votePower > 2.0 * vs[b].votePower
  {
    var w := ActiveWeights(vs);
    SumPick(w.Keys, w, a);
    SumPick(w.Keys - {a}, w, b);
    assert w.Keys - {a} - {b} == {};
    assert [att][..0] == [];
    assert AttestedPower(w, [att]) == AttestedPower(w, [att][..0]) + w[a];
    RatioAboveTwoThirds(w[a], TotalPower(w));
  }
}
