/** The byte strings that the validator hashes and signs, and what each of them determines. */
module Preimages {
  import opened Types
  import opened BigEndian

  // ----- Attestations: minimal block number, then 32 + 20 fixed bytes

  datatype AttestationFields = AttestationFields(number: u64, hash: Hash, validator: Address)

  function AttestationPreimage(f: AttestationFields): Bytes {
    Minimal(f.number) + f.hash + f.validator
  }

  /** Reads an attestation preimage from its right end; None when the bytes are not one. */
  function ParseAttestation(data: Bytes): Option<AttestationFields> {
    if |data| < 52 || |data| > 60 || (|data| > 52 && data[0] == 0) then None
    else
      var width := |data| - 52;
      ShortValue(data[..width]);
      Some(AttestationFields(Value(data[..width]), data[width..width + 32], data[width + 32..]))
  }

  lemma ShortValue(b: Bytes)
    requires |b| <= 8
    ensures Value(b) < TWO_64
  {
    FixedOfValue(b);
    PowMonotone(|b|, 8);
    U64Width(0);
  }

  lemma {:induction false} PowMonotone(j: nat, k: nat)
    requires j <= k
    ensures Pow256(j) <= Pow256(k)
    decreases k
  {
    if j < k {
      PowMonotone(j, k - 1);
    }
  }

  /** The parser undoes the preimage, and accepts nothing but preimages. */
  lemma AttestationPreimageBijective(f: AttestationFields, data: Bytes)
    ensures ParseAttestation(AttestationPreimage(f)) == Some(f)
    ensures ParseAttestation(data).Some? <==> exists g :: AttestationPreimage(g) == data
    ensures ParseAttestation(data).Some? ==> AttestationPreimage(ParseAttestation(data).value) == data
  {
    ParsePreimage(f);
    if ParseAttestation(data).Some? {
      var width := |data| - 52;
      MinimalIsCanonical(data[..width]);
      assert AttestationPreimage(ParseAttestation(data).value) == data;
    }
    forall g | AttestationPreimage(g) == data
      ensures ParseAttestation(data).Some?
    {
      ParsePreimage(g);
    }
  }

  lemma ParsePreimage(f: AttestationFields)
    ensures ParseAttestation(AttestationPreimage(f)) == Some(f)
  {
    U64Width(f.number);
    MinimalRoundTrip(f.number);
    CutThree(Minimal(f.number), f.hash, f.validator);
  }

  lemma CutThree(a: Bytes, b: Bytes, c: Bytes)
    ensures var data := a + b + c;
            data[..|a|] == a && data[|a|..|a| + |b|] == b && data[|a| + |b|..] == c
  {
  }

  /** p is the minimal number, then 32 bytes of hash, then 20 bytes of address. */
  predicate AttestationLaidOut(p: Bytes, number: u64, hash: Hash, validator: Address) {
    var w := |Minimal(number)|;
    |p| == w + 52 && p[..w] == Minimal(number) && p[w..w + 32] == hash && p[w + 32..] == validator
  }

  lemma AttestationLayout(f: AttestationFields, p: Bytes)
    ensures AttestationLaidOut(p, f.number, f.hash, f.validator) <==> p == AttestationPreimage(f)
  {
    CutThree(Minimal(f.number), f.hash, f.validator);
    var w := |Minimal(f.number)|;
    if AttestationLaidOut(p, f.number, f.hash, f.validator) {
      assert p == p[..w] + p[w..w + 32] + p[w + 32..];
    }
  }

  /** Two attestations have the same preimage only if they agree on number, hash and validator. */
  lemma AttestationPreimageInjective(f: AttestationFields, g: AttestationFields)
    requires AttestationPreimage(f) == AttestationPreimage(g)
    ensures f == g
  {
    ParsePreimage(f);
    ParsePreimage(g);
  }

  // ----- State roots: three minimal integers around the 32-byte previous root

  datatype RootFields = RootFields(number: u64, previous: Hash, timestamp: u64, gasUsed: u64)

  function RootPreimage(f: RootFields): Bytes {
    Minimal(f.number) + f.previous + Minimal(f.timestamp) + Minimal(f.gasUsed)
  }

  /** p is the minimal number, then the 32 bytes of the previous root, then the minimal timestamp, then
      the minimal gas. */
  predicate RootLaidOut(p: Bytes, number: u64, previous: Hash, timestamp: u64, gasUsed: u64) {
    var wn, wt := |Minimal(number)|, |Minimal(timestamp)|;
    && |p| >= wn + 32 + wt
    && p[..wn] == Minimal(number) && p[wn..wn + 32] == previous
    && p[wn + 32..wn + 32 + wt] == Minimal(timestamp) && p[wn + 32 + wt..] == Minimal(gasUsed)
  }

  lemma RootLayout(f: RootFields, p: Bytes)
    ensures RootLaidOut(p, f.number, f.previous, f.timestamp, f.gasUsed) <==> p == RootPreimage(f)
  {
    CutFour(Minimal(f.number), f.previous, Minimal(f.timestamp), Minimal(f.gasUsed));
    var wn, wt := |Minimal(f.number)|, |Minimal(f.timestamp)|;
    if RootLaidOut(p, f.number, f.previous, f.timestamp, f.gasUsed) {
      assert p == p[..wn] + p[wn..wn + 32] + p[wn + 32..wn + 32 + wt] + p[wn + 32 + wt..];
    }
  }

  predicate SameWidths(f: RootFields, g: RootFields) {
    && |Minimal(f.number)| == |Minimal(g.number)|
    && |Minimal(f.timestamp)| == |Minimal(g.timestamp)|
  }

  /** Equal state-root preimages come from equal fields exactly when the block numbers have the
      same byte width and so have the timestamps: nothing in the bytes marks those boundaries. */
  lemma RootPreimageUnambiguous(f: RootFields, g: RootFields)
    requires RootPreimage(f) == RootPreimage(g)
    ensures f == g <==> SameWidths(f, g)
  {
    if SameWidths(f, g) {
      CutFour(Minimal(f.number), f.previous, Minimal(f.timestamp), Minimal(f.gasUsed));
      CutFour(Minimal(g.number), g.previous, Minimal(g.timestamp), Minimal(g.gasUsed));
      MinimalRoundTrip(f.number);
      MinimalRoundTrip(g.number);
      MinimalRoundTrip(f.timestamp);
      MinimalRoundTrip(g.timestamp);
      MinimalRoundTrip(f.gasUsed);
      MinimalRoundTrip(g.gasUsed);
    }
  }

  lemma CutFour(a: Bytes, b: Bytes, c: Bytes, d: Bytes)
    ensures var data := a + b + c + d;
            && data[..|a|] == a && data[|a|..|a| + |b|] == b
            && data[|a| + |b|..|a| + |b| + |c|] == c && data[|a| + |b| + |c|..] == d
  {
  }

  /** A concrete clash: timestamp 0x0102 with 3 gas, and timestamp 1 with 0x0203 gas. */
  lemma RootPreimageClash(number: u64, previous: Hash)
    ensures RootPreimage(RootFields(number, previous, 0x0102, 3)) == RootPreimage(RootFields(number, previous, 1, 0x0203))
  {
    assert Minimal(1) == Minimal(0) + [1];
    assert Minimal(2) == Minimal(0) + [2];
    assert Minimal(3) == Minimal(0) + [3];
    assert Minimal(0x0102) == [1, 2];
    assert Minimal(0x0203) == [2, 3];
    assert Minimal(0x0102) + Minimal(3) == Minimal(1) + Minimal(0x0203);
    assert RootPreimage(RootFields(number, previous, 0x0102, 3)) == Minimal(number) + previous + (Minimal(0x0102) + Minimal(3));
    assert RootPreimage(RootFields(number, previous, 1, 0x0203)) == Minimal(number) + previous + (Minimal(1) + Minimal(0x0203));
  }

  // ----- Compute receipts: eleven fixed-width fields, 244 bytes

  type i64 = x: int | -0x8000_0000_0000_0000 <= x < 0x8000_0000_0000_0000

  datatype ReceiptFields = ReceiptFields(
    txHash: Hash,
    blockNumber: u64,
    txIndex: i64,
    sender: Address,
    gasUsed: u64,
    preStateRoot: Hash,
    postStateRoot: Hash,
    status: u64,
    inputHash: Hash,
    outputHash: Hash,
    logsHash: Hash)

  /** The conversions between int and uint64, which reinterpret the two's-complement bits. */
  function ToUnsigned(x: i64): u64 {
    if x >= 0 then x else x + TWO_64
  }

  function ToSigned(x: u64): i64 {
    if x < TWO_64 / 2 then x else x - TWO_64
  }

  /** The byte widths of the eleven fields, in the order in which they are written. */
  const RECEIPT_WIDTHS: seq<nat> := [32, 8, 8, 20, 8, 32, 32, 8, 32, 32, 32]

  function ReceiptParts(r: ReceiptFields): seq<Bytes> {
    [r.txHash, Fixed(r.blockNumber, 8), Fixed(ToUnsigned(r.txIndex), 8), r.sender, Fixed(r.gasUsed, 8),
     r.preStateRoot, r.postStateRoot, Fixed(r.status, 8), r.inputHash, r.outputHash, r.logsHash]
  }

  function ReceiptPreimage(r: ReceiptFields): Bytes {
    Concat(ReceiptParts(r))
  }

  function U64Of(b: Bytes): u64
    requires |b| == 8
  {
    ShortValue(b);
    Value(b)
  }

  function ParseReceipt(data: Bytes): ReceiptFields
    requires |data| == 244
  {
    TotalReceiptWidth();
    WidthsSpelledOut(Split(data, RECEIPT_WIDTHS));
    FromParts(Split(data, RECEIPT_WIDTHS))
  }

  /** HasWidths(p, RECEIPT_WIDTHS), spelled out. */
  predicate ReceiptShaped(p: seq<Bytes>) {
    && |p| == 11
    && |p[0]| == 32 && |p[1]| == 8 && |p[2]| == 8 && |p[3]| == 20 && |p[4]| == 8 && |p[5]| == 32
    && |p[6]| == 32 && |p[7]| == 8 && |p[8]| == 32 && |p[9]| == 32 && |p[10]| == 32
  }

  lemma WidthsSpelledOut(p: seq<Bytes>)
    ensures ReceiptShaped(p) <==> HasWidths(p, RECEIPT_WIDTHS)
  {
  }

  function FromParts(p: seq<Bytes>): ReceiptFields
    requires ReceiptShaped(p)
  {
    ReceiptFields(p[0], U64Of(p[1]), ToSigned(U64Of(p[2])), p[3], U64Of(p[4]), p[5], p[6], U64Of(p[7]), p[8], p[9], p[10])
  }

  lemma TotalReceiptWidth()
    ensures Total(RECEIPT_WIDTHS) == 244
  {
    assert RECEIPT_WIDTHS[7..] == [8, 32, 32, 32];
    assert Total([8, 32, 32, 32]) == 104;
    assert Total(RECEIPT_WIDTHS[6..]) == 136;
    assert Total(RECEIPT_WIDTHS[5..]) == 168;
    assert Total(RECEIPT_WIDTHS[4..]) == 176;
    assert Total(RECEIPT_WIDTHS[3..]) == 196;
    assert Total(RECEIPT_WIDTHS[2..]) == 204;
    assert Total(RECEIPT_WIDTHS[1..]) == 212;
  }

  lemma FixedU64(v: u64)
    ensures |Fixed(v, 8)| == 8 && U64Of(Fixed(v, 8)) == v
  {
    FixedRoundTrip(v, 8);
    U64Width(v);
  }

  lemma ReceiptPartsRoundTrip(r: ReceiptFields)
    ensures ReceiptShaped(ReceiptParts(r))
    ensures FromParts(ReceiptParts(r)) == r
  {
    FixedU64(r.blockNumber);
    FixedU64(ToUnsigned(r.txIndex));
    FixedU64(r.gasUsed);
    FixedU64(r.status);
  }

  lemma FromPartsRoundTrip(p: seq<Bytes>)
    requires ReceiptShaped(p)
    ensures ReceiptParts(FromParts(p)) == p
  {
    forall i | i in {1, 2, 4, 7}
      ensures Fixed(U64Of(p[i]), 8) == p[i]
    {
      FixedOfValue(p[i]);
    }
    SignedRoundTrip(U64Of(p[2]));
    var q := ReceiptParts(FromParts(p));
    assert q[2] == p[2];
    assert forall i :: 0 <= i < 11 ==> q[i] == p[i];
  }

  lemma SignedRoundTrip(x: u64)
    ensures ToUnsigned(ToSigned(x)) == x
  {
  }

  /** Receipts and 244-byte strings correspond one to one, so the preimage determines every
      decoded field, a negative transaction index included. */
  lemma ReceiptPreimageBijective(r: ReceiptFields, data: Bytes)
    requires |data| == 244
    ensures |ReceiptPreimage(r)| == 244 && ParseReceipt(ReceiptPreimage(r)) == r
    ensures ReceiptPreimage(ParseReceipt(data)) == data
  {
    ParsePrinted(r);
    TotalReceiptWidth();
    WidthsSpelledOut(Split(data, RECEIPT_WIDTHS));
    FromPartsRoundTrip(Split(data, RECEIPT_WIDTHS));
  }

  /** The eleven fields by their offsets in 244 bytes; integers are read back as numbers. */
  predicate ReceiptLaidOut(p: Bytes, r: ReceiptFields) {
    && |p| == 244
    && p[..32] == r.txHash && Value(p[32..40]) == r.blockNumber
    && (Value(p[40..48]) == r.txIndex || Value(p[40..48]) == r.txIndex + TWO_64)
    && p[48..68] == r.sender && Value(p[68..76]) == r.gasUsed
    && p[76..108] == r.preStateRoot && p[108..140] == r.postStateRoot
    && Value(p[140..148]) == r.status
    && p[148..180] == r.inputHash && p[180..212] == r.outputHash && p[212..] == r.logsHash
  }

  /** The preimage is the one byte string that holds the fields at those offsets. */
  lemma ReceiptLayout(r: ReceiptFields, p: Bytes)
    ensures ReceiptLaidOut(p, r) <==> p == ReceiptPreimage(r)
  {
    ParsePrinted(r);
    if |p| == 244 {
      OffsetsShaped(p);
      OffsetsJoin(p);
      FieldsAtOffsets(r, Offsets(p));
      PartsOfPreimage(r, Offsets(p), p);
    }
  }

  /** The parts of 244 bytes, cut at the offsets. */
  function Offsets(p: Bytes): seq<Bytes>
    requires |p| == 244
  {
    [p[..32], p[32..40], p[40..48], p[48..68], p[68..76], p[76..108], p[108..140], p[140..148], p[148..180],
     p[180..212], p[212..]]
  }

  lemma OffsetsShaped(p: Bytes)
    requires |p| == 244
    ensures ReceiptShaped(Offsets(p))
  {
  }

  lemma OffsetsJoin(p: Bytes)
    requires |p| == 244
    ensures Concat(Offsets(p)) == p
  {
    var parts := Offsets(p);
    assert parts[10..] == [p[212..]];
    ConcatOne(p[212..]);
    assert parts[9..][1..] == parts[10..];
    assert Concat(parts[9..]) == p[180..];
    assert parts[8..][1..] == parts[9..];
    assert Concat(parts[8..]) == p[148..];
    assert parts[7..][1..] == parts[8..];
    assert Concat(parts[7..]) == p[140..];
    assert parts[6..][1..] == parts[7..];
    assert Concat(parts[6..]) == p[108..];
    assert parts[5..][1..] == parts[6..];
    assert Concat(parts[5..]) == p[76..];
    assert parts[4..][1..] == parts[5..];
    assert Concat(parts[4..]) == p[68..];
    assert parts[3..][1..] == parts[4..];
    assert Concat(parts[3..]) == p[48..];
    assert parts[2..][1..] == parts[3..];
    assert Concat(parts[2..]) == p[40..];
    assert parts[1..][1..] == parts[2..];
    assert Concat(parts[1..]) == p[32..];
  }

  lemma PartsOfPreimage(r: ReceiptFields, q: seq<Bytes>, p: Bytes)
    requires ReceiptShaped(q) && Concat(q) == p
    ensures FromParts(q) == r <==> p == ReceiptPreimage(r)
  {
    FromPartsRoundTrip(q);
    ReceiptPartsRoundTrip(r);
    SameConcat(q, ReceiptParts(r));
  }

  /** Receipt parts can be told apart in their concatenation. */
  lemma SameConcat(q: seq<Bytes>, q': seq<Bytes>)
    requires ReceiptShaped(q) && ReceiptShaped(q')
    ensures Concat(q) == Concat(q') <==> q == q'
  {
    WidthsSpelledOut(q);
    WidthsSpelledOut(q');
    SplitConcat(q, RECEIPT_WIDTHS);
    SplitConcat(q', RECEIPT_WIDTHS);
  }

  lemma FieldsAtOffsets(r: ReceiptFields, q: seq<Bytes>)
    requires ReceiptShaped(q)
    ensures FromParts(q) == r <==>
      && q[0] == r.txHash && Value(q[1]) == r.blockNumber
      && (Value(q[2]) == r.txIndex || Value(q[2]) == r.txIndex + TWO_64)
      && q[3] == r.sender && Value(q[4]) == r.gasUsed && q[5] == r.preStateRoot && q[6] == r.postStateRoot
      && Value(q[7]) == r.status && q[8] == r.inputHash && q[9] == r.outputHash && q[10] == r.logsHash
  {
    ShortValue(q[2]);
  }

  lemma ParsePrinted(r: ReceiptFields)
    ensures |ReceiptPreimage(r)| == 244 && ParseReceipt(ReceiptPreimage(r)) == r
  {
    TotalReceiptWidth();
    ReceiptPartsRoundTrip(r);
    WidthsSpelledOut(ReceiptParts(r));
    SplitConcat(ReceiptParts(r), RECEIPT_WIDTHS);
  }

  // ----- Concatenation of parts and its inverse for known widths

  function Concat(parts: seq<Bytes>): Bytes {
    if parts == [] then [] else parts[0] + Concat(parts[1..])
  }

  predicate HasWidths(parts: seq<Bytes>, widths: seq<nat>) {
    |parts| == |widths| && forall i :: 0 <= i < |parts| ==> |parts[i]| == widths[i]
  }

  function Total(widths: seq<nat>): nat {
    if widths == [] then 0 else widths[0] + Total(widths[1..])
  }

  function Split(data: Bytes, widths: seq<nat>): (parts: seq<Bytes>)
    requires |data| == Total(widths)
    ensures HasWidths(parts, widths)
    ensures Concat(parts) == data
    decreases |widths|
  {
    if widths == [] then []
    else [data[..widths[0]]] + Split(data[widths[0]..], widths[1..])
  }

  lemma {:induction false} SplitConcat(parts: seq<Bytes>, widths: seq<nat>)
    requires HasWidths(parts, widths)
    ensures |Concat(parts)| == Total(widths)
    ensures Split(Concat(parts), widths) == parts
  {
    if parts != [] {
      SplitConcat(parts[1..], widths[1..]);
      assert Concat(parts)[..widths[0]] == parts[0];
      assert Concat(parts)[widths[0]..] == Concat(parts[1..]);
    }
  }

  lemma Associate(a: Bytes, b: Bytes, c: Bytes)
    ensures a + b + c == a + (b + c)
  {
  }

  lemma {:induction false} ConcatAppend(front: seq<Bytes>, back: seq<Bytes>)
    ensures Concat(front + back) == Concat(front) + Concat(back)
  {
    if front == [] {
      assert front + back == back;
    } else {
      ConcatAppend(front[1..], back);
      var whole := front + back;
      assert whole[1..] == front[1..] + back && whole[0] == front[0];
      assert Concat(whole) == whole[0] + Concat(whole[1..]);
      Associate(front[0], Concat(front[1..]), Concat(back));
    }
  }

  lemma ConcatSnoc(parts: seq<Bytes>, last: Bytes)
    ensures Concat(parts + [last]) == Concat(parts) + last
  {
    ConcatAppend(parts, [last]);
    ConcatOne(last);
  }

  lemma ConcatOne(a: Bytes)
    ensures Concat([a]) == a
  {
    assert [a][1..] == [];
  }

  lemma ConcatTwo(a: Bytes, b: Bytes)
    ensures Concat([a, b]) == a + b
  {
    ConcatOne(b);
    assert [a, b][1..] == [b];
  }

  lemma ConcatFour(a: Bytes, b: Bytes, c: Bytes, d: Bytes)
    ensures Concat([a, b, c, d]) == a + b + c + d
  {
    ConcatTwo(c, d);
    assert [a, b, c, d][1..] == [b, c, d] && [b, c, d][1..] == [c, d];
  }

  // ----- Hex strings, in which roots and receipt hashes are compared

  const HEX_DIGITS: string := "0123456789abcdef"

  /** common.Hash.Hex(): "0x" and two lower-case digits a byte. */
  function ToHex(b: Bytes): string {
    "0x" + HexDigits(b)
  }

  function HexDigits(b: Bytes): string {
    if b == [] then "" else [HEX_DIGITS[b[0] / 16], HEX_DIGITS[b[0] % 16]] + HexDigits(b[1..])
  }

  /** The character of a digit, without the table. */
  function DigitChar(d: nat): char
    requires d < 16
  {
    if d < 10 then '0' + d as char else 'a' + (d - 10) as char
  }

  /** Every character of the string: the prefix, then the high and the low digit of each byte. */
  lemma HexSpelled(b: Bytes, i: nat)
    requires i < |b|
    ensures |ToHex(b)| == 2 + 2 * |b| && ToHex(b)[0] == '0' && ToHex(b)[1] == 'x'
    ensures ToHex(b)[2 + 2 * i] == DigitChar(b[i] / 16) && ToHex(b)[3 + 2 * i] == DigitChar(b[i] % 16)
  {
    DigitsSpelled(b, i);
  }

  lemma {:induction false} DigitsSpelled(b: Bytes, i: nat)
    requires i < |b|
    ensures |HexDigits(b)| == 2 * |b|
    ensures HexDigits(b)[2 * i] == DigitChar(b[i] / 16) && HexDigits(b)[2 * i + 1] == DigitChar(b[i] % 16)
  {
    TableIsDigitChar(b[0] / 16);
    TableIsDigitChar(b[0] % 16);
    if |b| == 1 {
      assert HexDigits(b[1..]) == "";
    } else {
      DigitsSpelled(b[1..], if i > 0 then i - 1 else 0);
    }
  }

  lemma TableIsDigitChar(d: nat)
    requires d < 16
    ensures HEX_DIGITS[d] == DigitChar(d)
  {
  }

  lemma ToHexInjective(a: Bytes, b: Bytes)
    requires ToHex(a) == ToHex(b)
    ensures a == b
  {
    assert HexDigits(a) == ToHex(a)[2..] == ToHex(b)[2..] == HexDigits(b);
    HexDigitsInjective(a, b);
  }

  lemma {:induction false} HexDigitsInjective(a: Bytes, b: Bytes)
    requires HexDigits(a) == HexDigits(b)
    ensures a == b
  {
    if a != [] && b != [] {
      var s := HexDigits(a);
      assert s[0] == HEX_DIGITS[a[0] / 16] == HEX_DIGITS[b[0] / 16];
      assert s[1] == HEX_DIGITS[a[0] % 16] == HEX_DIGITS[b[0] % 16];
      DigitsDistinct(a[0] / 16, b[0] / 16);
      DigitsDistinct(a[0] % 16, b[0] % 16);
      assert HexDigits(a[1..]) == s[2..] == HexDigits(b[1..]);
      HexDigitsInjective(a[1..], b[1..]);
      assert a == [a[0]] + a[1..] && b == [b[0]] + b[1..];
    }
  }

  lemma DigitsDistinct(i: nat, j: nat)
    requires i < 16 && j < 16 && HEX_DIGITS[i] == HEX_DIGITS[j]
    ensures i == j
  {
  }
}
