/** The verification engine: a hash chain of state roots, and compute receipts.
    SHA-256 is a function parameter; where a property needs it to be collision-free, only the
    preimages that occur in the runs compared are assumed not to clash. */
module Verification {
  import opened Types
  import opened BigEndian
  import opened Preimages

  type HashFunction = Bytes -> Hash

  /** A streaming hasher: the digest is that of everything written so far. */
  class Hasher {
    const sha: HashFunction
    var data: Bytes
    ghost var parts: seq<Bytes>

    ghost predicate Valid()
      reads this
    {
      data == Concat(parts)
    }

    constructor (sha: HashFunction)
      ensures Valid() && this.sha == sha && parts == []
    {
      this.sha := sha;
      data, parts := [], [];
    }

    method Write(p: Bytes)
      requires Valid()
      modifies this
      ensures Valid() && parts == old(parts) + [p]
    {
      ConcatSnoc(parts, p);
      data := data + p;
      parts := parts + [p];
    }

    /** Writes uint64ToBytes(v). */
    method WriteUint64(v: u64)
      requires Valid()
      modifies this
      ensures Valid() && parts == old(parts) + [Fixed(v, 8)]
    {
      var word := Uint64ToBytes(v);
      Write(word[..]);
    }

    method Sum() returns (digest: Hash)
      ensures digest == sha(data)
    {
      digest := sha(data);
    }
  }

  // ----- State roots

  function Ascii(s: string): Bytes {
    seq(|s|, i requires 0 <= i < |s| => s[i] as int % 256)
  }

  function GenesisRoot(sha: HashFunction): Hash {
    sha(Ascii("insoblok-genesis") + Minimal(42069))
  }

  function RootFieldsOf(root: Hash, b: L2Block): RootFields {
    RootFields(b.number, root, b.timestamp, b.gasUsed)
  }

  function NextRoot(sha: HashFunction, root: Hash, b: L2Block): Hash {
    sha(RootPreimage(RootFieldsOf(root, b)))
  }

  /** Whether VerifyBlock approves b on top of root. A block that claims no root is approved. */
  predicate Accepts(sha: HashFunction, root: Hash, b: L2Block) {
    b.number != 0 && (b.stateRoot == "" || b.stateRoot == ToHex(NextRoot(sha, root, b)))
  }

  function RootAfter(sha: HashFunction, root: Hash, b: L2Block): Hash {
    if Accepts(sha, root, b) then NextRoot(sha, root, b) else root
  }

  datatype VerifyError = NoError | InvalidNumber | RootMismatch(got: string, expected: string)
  datatype Result = Result(blockNumber: u64, valid: bool, error: VerifyError, stateRoot: string)

  /** What VerifyBlock answers for b on top of root. */
  function ResultOf(sha: HashFunction, root: Hash, b: L2Block): Result {
    var expected := ToHex(NextRoot(sha, root, b));
    if b.number == 0 then Result(0, false, InvalidNumber, "")
    else if Accepts(sha, root, b) then Result(b.number, true, NoError, expected)
    else Result(b.number, false, RootMismatch(b.stateRoot, expected), expected)
  }

  class Engine {
    const sha: HashFunction
    var stateRoot: Hash

    constructor (sha: HashFunction)
      ensures this.sha == sha && stateRoot == GenesisRoot(sha)
      ensures stateRoot == sha([105, 110, 115, 111, 98, 108, 111, 107, 45, 103, 101, 110, 101, 115, 105, 115, 0xA4, 0x55])
    {
      this.sha := sha;
      new;
      var h := new Hasher(sha);
      h.Write(Ascii("insoblok-genesis"));
      h.Write(Minimal(42069));
      ConcatTwo(Ascii("insoblok-genesis"), Minimal(42069));
      assert h.parts == [Ascii("insoblok-genesis"), Minimal(42069)];
      var root := h.Sum();
      GenesisPreimage();
      stateRoot := root;
    }

    method VerifyBlock(block: L2Block) returns (result: Result)
      modifies this
      ensures result == ResultOf(sha, old(stateRoot), block)
      ensures result.blockNumber == block.number
      ensures result.valid <==> Accepts(sha, old(stateRoot), block)
      ensures stateRoot == RootAfter(sha, old(stateRoot), block)
      ensures block.number == 0 ==> result.error == InvalidNumber && result.stateRoot == ""
      ensures block.number != 0 ==> result.stateRoot == ToHex(NextRoot(sha, old(stateRoot), block))
      ensures block.number != 0 && !result.valid ==> result.error == RootMismatch(block.stateRoot, result.stateRoot)
      ensures result.valid ==> result.error == NoError && result.stateRoot == ToHex(stateRoot)
      ensures forall p :: RootLaidOut(p, block.number, old(stateRoot), block.timestamp, block.gasUsed) ==>
        && (result.valid <==> block.number != 0 && (block.stateRoot == "" || block.stateRoot == ToHex(sha(p))))
        && stateRoot == if result.valid then sha(p) else old(stateRoot)
    {
      LayoutIsPreimage(stateRoot, block);
      result := Result(block.number, false, NoError, "");
      if block.number == 0 {
        return result.(error := InvalidNumber);
      }
      var expectedRoot := ComputeExpectedStateRoot(block);
      result := result.(stateRoot := ToHex(expectedRoot));
      if block.stateRoot != "" && block.stateRoot != ToHex(expectedRoot) {
        return result.(error := RootMismatch(block.stateRoot, ToHex(expectedRoot)));
      }
      stateRoot := expectedRoot;
      result := result.(valid := true);
    }

    method ComputeExpectedStateRoot(block: L2Block) returns (root: Hash)
      ensures root == NextRoot(sha, stateRoot, block)
      ensures forall p :: RootLaidOut(p, block.number, stateRoot, block.timestamp, block.gasUsed) ==> root == sha(p)
    {
      LayoutIsPreimage(stateRoot, block);
      var h := new Hasher(sha);
      h.Write(Minimal(block.number));
      h.Write(stateRoot);
      h.Write(Minimal(block.timestamp));
      h.Write(Minimal(block.gasUsed));
      assert h.parts == [Minimal(block.number), stateRoot, Minimal(block.timestamp), Minimal(block.gasUsed)];
      ConcatFour(Minimal(block.number), stateRoot, Minimal(block.timestamp), Minimal(block.gasUsed));
      root := h.Sum();
    }
  }

  /** The bytes that are hashed, by their positions. */
  lemma LayoutIsPreimage(root: Hash, b: L2Block)
    ensures forall p :: RootLaidOut(p, b.number, root, b.timestamp, b.gasUsed) <==> p == RootPreimage(RootFieldsOf(root, b))
  {
    forall p
      ensures RootLaidOut(p, b.number, root, b.timestamp, b.gasUsed) <==> p == RootPreimage(RootFieldsOf(root, b))
    {
      RootLayout(RootFieldsOf(root, b), p);
    }
  }

  /** "insoblok-genesis" in ASCII, and 42069 in two bytes. */
  lemma GenesisPreimage()
    ensures Ascii("insoblok-genesis") + Minimal(42069)
         == [105, 110, 115, 111, 98, 108, 111, 107, 45, 103, 101, 110, 101, 115, 105, 115, 0xA4, 0x55]
  {
    assert Minimal(0xA4) == Minimal(0) + [0xA4];
    assert Minimal(42069) == [0xA4, 0x55];
  }

  // ----- Any sequence of VerifyBlock calls is a hash chain over the blocks it accepted

  function RunRoot(sha: HashFunction, root: Hash, calls: seq<L2Block>): Hash
    decreases |calls|
  {
    if calls == [] then root else RunRoot(sha, RootAfter(sha, root, calls[0]), calls[1..])
  }

  function AcceptedBlocks(sha: HashFunction, root: Hash, calls: seq<L2Block>): seq<L2Block>
    decreases |calls|
  {
    if calls == [] then []
    else
      var rest := AcceptedBlocks(sha, RootAfter(sha, root, calls[0]), calls[1..]);
      if Accepts(sha, root, calls[0]) then [calls[0]] + rest else rest
  }

  function ChainRoot(sha: HashFunction, root: Hash, blocks: seq<L2Block>): Hash
    decreases |blocks|
  {
    if blocks == [] then root
    else NextRoot(sha, ChainRoot(sha, root, blocks[..|blocks| - 1]), blocks[|blocks| - 1])
  }

  lemma {:induction false} ChainRootCons(sha: HashFunction, root: Hash, b: L2Block, rest: seq<L2Block>)
    ensures ChainRoot(sha, root, [b] + rest) == ChainRoot(sha, NextRoot(sha, root, b), rest)
    decreases |rest|
  {
    if rest == [] {
      assert [b] + rest == [b] && ChainRoot(sha, root, []) == root;
    } else {
      var n := |rest|;
      ChainRootCons(sha, root, b, rest[..n - 1]);
      assert ([b] + rest)[..n] == [b] + rest[..n - 1];
    }
  }

  lemma {:induction false} RunIsChainOfAccepted(sha: HashFunction, root: Hash, calls: seq<L2Block>)
    ensures RunRoot(sha, root, calls) == ChainRoot(sha, root, AcceptedBlocks(sha, root, calls))
    decreases |calls|
  {
    if calls != [] {
      var next := RootAfter(sha, root, calls[0]);
      RunIsChainOfAccepted(sha, next, calls[1..]);
      if Accepts(sha, root, calls[0]) {
        ChainRootCons(sha, root, calls[0], AcceptedBlocks(sha, next, calls[1..]));
      }
    }
  }

  // ----- The final root binds the whole history

  /** The fields hashed at the last height of a chain. */
  function LastFields(sha: HashFunction, root: Hash, blocks: seq<L2Block>): RootFields
    requires blocks != []
  {
    RootFieldsOf(ChainRoot(sha, root, blocks[..|blocks| - 1]), blocks[|blocks| - 1])
  }

  /** At no height do the preimages hashed in the two chains collide. */
  predicate NoClash(sha: HashFunction, root: Hash, blocks: seq<L2Block>, root': Hash, blocks': seq<L2Block>)
    requires |blocks| == |blocks'|
    decreases |blocks|
  {
    blocks == [] ||
    var p, p' := RootPreimage(LastFields(sha, root, blocks)), RootPreimage(LastFields(sha, root', blocks'));
    && (sha(p) == sha(p') ==> p == p')
    && NoClash(sha, root, blocks[..|blocks| - 1], root', blocks'[..|blocks| - 1])
  }

  predicate EqualWidths(b: L2Block, b': L2Block) {
    && |Minimal(b.number)| == |Minimal(b'.number)|
    && |Minimal(b.timestamp)| == |Minimal(b'.timestamp)|
  }

  /** The fields of a block that its state root covers. */
  predicate SameExecution(b: L2Block, b': L2Block) {
    b.number == b'.number && b.timestamp == b'.timestamp && b.gasUsed == b'.gasUsed
  }

  /** Two chains of equal length whose numbers and timestamps have equal byte widths end in the
      same root exactly when they start in the same root and agree at every height. */
  lemma {:induction false} ChainBinding(sha: HashFunction, root: Hash, blocks: seq<L2Block>, root': Hash, blocks': seq<L2Block>)
    requires |blocks| == |blocks'|
    requires forall i :: 0 <= i < |blocks| ==> EqualWidths(blocks[i], blocks'[i])
    requires NoClash(sha, root, blocks, root', blocks')
    ensures ChainRoot(sha, root, blocks) == ChainRoot(sha, root', blocks')
       <==> (root == root' && forall i :: 0 <= i < |blocks| ==> SameExecution(blocks[i], blocks'[i]))
    decreases |blocks|
  {
    if blocks != [] {
      var n := |blocks| - 1;
      ChainBinding(sha, root, blocks[..n], root', blocks'[..n]);
      var f, f' := LastFields(sha, root, blocks), LastFields(sha, root', blocks');
      if ChainRoot(sha, root, blocks) == ChainRoot(sha, root', blocks') {
        assert EqualWidths(blocks[n], blocks'[n]);
        RootPreimageUnambiguous(f, f');
      }
    }
  }

  /** The same for two verifiers that saw arbitrary calls: if their last accepted blocks claim the
      same root, then everything they accepted agrees, and so do the roots they started from. */
  lemma ClaimedRootBindsHistory(sha: HashFunction, root: Hash, calls: seq<L2Block>, root': Hash, calls': seq<L2Block>)
    requires var a, a' := AcceptedBlocks(sha, root, calls), AcceptedBlocks(sha, root', calls');
             && |a| == |a'| > 0
             && (forall i :: 0 <= i < |a| ==> EqualWidths(a[i], a'[i]))
             && NoClash(sha, root, a, root', a')
             && a[|a| - 1].stateRoot == a'[|a'| - 1].stateRoot != ""
    ensures root == root' && RunRoot(sha, root, calls) == RunRoot(sha, root', calls')
    ensures var a, a' := AcceptedBlocks(sha, root, calls), AcceptedBlocks(sha, root', calls');
            forall i :: 0 <= i < |a| ==> SameExecution(a[i], a'[i])
  {
    var a, a' := AcceptedBlocks(sha, root, calls), AcceptedBlocks(sha, root', calls');
    RunIsChainOfAccepted(sha, root, calls);
    RunIsChainOfAccepted(sha, root', calls');
    LastClaimIsRoot(sha, root, calls);
    LastClaimIsRoot(sha, root', calls');
    ToHexInjective(RunRoot(sha, root, calls), RunRoot(sha, root', calls'));
    ChainBinding(sha, root, a, root', a');
  }

  lemma {:induction false} LastClaimIsRoot(sha: HashFunction, root: Hash, calls: seq<L2Block>)
    ensures var a := AcceptedBlocks(sha, root, calls);
            && (a == [] ==> RunRoot(sha, root, calls) == root)
            && (a != [] && a[|a| - 1].stateRoot != "" ==> a[|a| - 1].stateRoot == ToHex(RunRoot(sha, root, calls)))
    decreases |calls|
  {
    if calls != [] {
      LastClaimIsRoot(sha, RootAfter(sha, root, calls[0]), calls[1..]);
    }
  }

  // ----- Compute receipts

  /** A receipt with its hex fields decoded; the claimed hash stays a string. */
  datatype Receipt = Receipt(fields: ReceiptFields, receiptHash: string, verified: bool)
  datatype Fetched = FetchFailed | NotFound | Found(receipt: Receipt)
  datatype ReceiptError = NoReceiptError | FetchError | ReceiptNotFound | HashMismatch(got: string, recomputed: string) | Unverified
  datatype ReceiptResult = ReceiptResult(blockNumber: u64, valid: bool, error: ReceiptError, receiptHash: string, verified: bool)

  method ComputeReceiptHash(sha: HashFunction, r: ReceiptFields) returns (digest: Hash)
    ensures digest == sha(ReceiptPreimage(r))
  {
    var h := new Hasher(sha);
    WriteExecution(h, r);
    h.WriteUint64(r.status);
    h.Write(r.inputHash);
    h.Write(r.outputHash);
    h.Write(r.logsHash);
    assert h.parts == ReceiptParts(r);
    digest := h.Sum();
  }

  /** The first seven writes of computeReceiptHash. */
  method WriteExecution(h: Hasher, r: ReceiptFields)
    requires h.Valid() && h.parts == []
    modifies h
    ensures h.Valid() && h.parts == ReceiptParts(r)[..7]
  {
    h.Write(r.txHash);
    h.WriteUint64(r.blockNumber);
    h.WriteUint64(ToUnsigned(r.txIndex));
    assert h.parts == [r.txHash, Fixed(r.blockNumber, 8), Fixed(ToUnsigned(r.txIndex), 8)];
    h.Write(r.sender);
    h.WriteUint64(r.gasUsed);
    assert h.parts == [r.txHash, Fixed(r.blockNumber, 8), Fixed(ToUnsigned(r.txIndex), 8), r.sender, Fixed(r.gasUsed, 8)];
    h.Write(r.preStateRoot);
    h.Write(r.postStateRoot);
  }

  predicate ReceiptValid(sha: HashFunction, receipt: Receipt) {
    receipt.verified && receipt.receiptHash == ToHex(sha(ReceiptPreimage(receipt.fields)))
  }

  method VerifyComputeReceipt(sha: HashFunction, fetched: Fetched) returns (result: ReceiptResult)
    ensures result.valid <==> fetched.Found? && ReceiptValid(sha, fetched.receipt)
    ensures result.error.NoReceiptError? <==> result.valid
    ensures result.valid <==> result.verified
    ensures fetched.FetchFailed? ==> result == ReceiptResult(0, false, FetchError, "", false)
    ensures fetched.NotFound? ==> result == ReceiptResult(0, false, ReceiptNotFound, "", false)
    ensures fetched.Found? ==>
      var r := fetched.receipt;
      var recomputed := ToHex(sha(ReceiptPreimage(r.fields)));
      && result.blockNumber == r.fields.blockNumber && result.receiptHash == r.receiptHash
      && (result.error == HashMismatch(r.receiptHash, recomputed) <==> r.receiptHash != recomputed)
      && (result.verified <==> r.verified && r.receiptHash == recomputed)
  {
    result := ReceiptResult(0, false, NoReceiptError, "", false);
    match fetched
    case FetchFailed => return result.(error := FetchError);
    case NotFound => return result.(error := ReceiptNotFound);
    case Found(receipt) =>
      result := result.(blockNumber := receipt.fields.blockNumber, receiptHash := receipt.receiptHash);
      var recomputed := ComputeReceiptHash(sha, receipt.fields);
      if ToHex(recomputed) != receipt.receiptHash {
        return result.(error := HashMismatch(receipt.receiptHash, ToHex(recomputed)));
      }
      result := result.(verified := receipt.verified);
      if !receipt.verified {
        return result.(error := Unverified);
      }
      result := result.(valid := true);
  }

  /** Two receipts that verify under one receipt hash agree in every decoded field. */
  lemma ReceiptHashBindsFields(sha: HashFunction, r: Receipt, r': Receipt)
    requires ReceiptValid(sha, r) && ReceiptValid(sha, r') && r.receiptHash == r'.receiptHash
    requires var p, p' := ReceiptPreimage(r.fields), ReceiptPreimage(r'.fields); sha(p) == sha(p') ==> p == p'
    ensures r == r'
  {
    ToHexInjective(sha(ReceiptPreimage(r.fields)), sha(ReceiptPreimage(r'.fields)));
    ParsePrinted(r.fields);
    ParsePrinted(r'.fields);
  }
}
