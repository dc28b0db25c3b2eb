/** Big-endian integers: the minimal form that big.Int.Bytes() yields, the fixed-width form of
    uint64ToBytes and PutUint32, and the value that both denote. */
module BigEndian {
  import opened Types

  function Pow256(k: nat): (p: nat)
    ensures p > 0
  {
    if k == 0 then 1 else 256 * Pow256(k - 1)
  }

  /** The value that a byte string denotes, most significant byte first. */
  function Value(b: Bytes): nat {
    if |b| == 0 then 0 else 256 * Value(b[..|b| - 1]) + b[|b| - 1]
  }

  /** The shortest encoding; zero is the empty string. */
  function Minimal(n: nat): Bytes {
    if n == 0 then [] else Minimal(n / 256) + [n % 256]
  }

  /** The low `width` bytes of n. */
  function Fixed(n: nat, width: nat): Bytes
    decreases width
  {
    if width == 0 then [] else Fixed(n / 256, width - 1) + [n % 256]
  }

  function Zeros(k: nat): Bytes {
    seq(k, i => 0)
  }

  /** Bytes further left weigh more: each byte to their right multiplies them by 256. */
  lemma {:induction false} ValueOfJoined(a: Bytes, b: Bytes)
    ensures Value(a + b) == Value(a) * Pow256(|b|) + Value(b)
    decreases |b|
  {
    if b == [] {
      assert a + b == a;
    } else {
      var front, last := b[..|b| - 1], b[|b| - 1];
      ValueOfJoined(a, front);
      TimesPow(Value(a), |front|);
      assert (a + b)[..|a + b| - 1] == a + front && (a + b)[|a + b| - 1] == last;
    }
  }

  lemma TimesPow(x: nat, k: nat)
    ensures 256 * (x * Pow256(k)) == x * Pow256(k + 1)
  {
    var y := Pow256(k);
    assert Pow256(k + 1) == 256 * y;
    assert x * (256 * y) == 256 * (x * y);
  }

  lemma {:induction false} MinimalRoundTrip(n: nat)
    ensures Value(Minimal(n)) == n
    ensures n > 0 ==> |Minimal(n)| > 0 && Minimal(n)[0] != 0
  {
    if n > 0 {
      MinimalRoundTrip(n / 256);
      assert Minimal(n)[..|Minimal(n)| - 1] == Minimal(n / 256);
    }
  }

  /** A byte string is the minimal encoding of its value exactly when it has no leading zero. */
  lemma {:induction false} MinimalIsCanonical(b: Bytes)
    ensures Minimal(Value(b)) == b <==> (b == [] || b[0] != 0)
  {
    if b != [] {
      var front := b[..|b| - 1];
      MinimalIsCanonical(front);
      assert b == front + [b[|b| - 1]];
      if b[0] != 0 {
        if front == [] {
          assert Minimal(b[0]) == Minimal(0) + [b[0]];
        } else {
          assert Value(b) / 256 == Value(front) && Value(b) % 256 == b[|b| - 1];
        }
      } else {
        MinimalRoundTrip(Value(b));
      }
    }
  }

  lemma {:induction false} MinimalWidth(n: nat, k: nat)
    ensures |Minimal(n)| <= k <==> n < Pow256(k)
    decreases k
  {
    if n > 0 && k > 0 {
      MinimalWidth(n / 256, k - 1);
    }
  }

  lemma {:induction false} FixedRoundTrip(n: nat, width: nat)
    ensures |Fixed(n, width)| == width
    ensures n < Pow256(width) ==> Value(Fixed(n, width)) == n
    decreases width
  {
    if width > 0 {
      FixedRoundTrip(n / 256, width - 1);
      assert Fixed(n, width)[..width - 1] == Fixed(n / 256, width - 1);
    }
  }

  lemma {:induction false} FixedOfValue(b: Bytes)
    ensures Fixed(Value(b), |b|) == b && Value(b) < Pow256(|b|)
  {
    if b != [] {
      var front := b[..|b| - 1];
      FixedOfValue(front);
      assert b == front + [b[|b| - 1]];
      assert Value(b) / 256 == Value(front);
    }
  }

  /** Left-padding the minimal form with zeros gives the fixed-width form. */
  lemma {:induction false} PaddedIsFixed(n: nat, width: nat)
    requires |Minimal(n)| <= width
    ensures Zeros(width - |Minimal(n)|) + Minimal(n) == Fixed(n, width)
    decreases width
  {
    if width > 0 {
      if n > 0 {
        PaddedIsFixed(n / 256, width - 1);
      } else {
        PaddedIsFixed(0, width - 1);
        assert Zeros(width) == Zeros(width - 1) + [0];
      }
    }
  }

  lemma U64Width(v: u64)
    ensures Pow256(8) == TWO_64
    ensures |Minimal(v)| <= 8
  {
    assert Pow256(8) == TWO_64 by {
      assert Pow256(2) == 0x1_0000 && Pow256(4) == 0x1_0000_0000;
      assert Pow256(6) == 0x1_0000_0000_0000;
    }
    MinimalWidth(v, 8);
  }

  /** uint64ToBytes: the minimal form copied into the tail of a zeroed 8-byte buffer. */
  method Uint64ToBytes(v: u64) returns (padded: array<u8>)
    ensures fresh(padded) && padded.Length == 8
    ensures padded[..] == Fixed(v, 8)
    ensures Value(padded[..]) == v
  {
    var b := Minimal(v);
    U64Width(v);
    padded := new u8[8](i => 0);
    var start := 8 - |b|;
    var i := 0;
    while i < |b|
      invariant 0 <= i <= |b|
      invariant padded[..start + i] == Zeros(start) + b[..i]
      invariant forall k :: start + i <= k < 8 ==> padded[k] == 0
    {
      padded[start + i] := b[i];
      i := i + 1;
    }
    assert padded[..] == Zeros(start) + b;
    PaddedIsFixed(v, 8);
    FixedRoundTrip(v, 8);
  }

  /** binary.BigEndian.PutUint32 on a 4-byte buffer. */
  method PutUint32(buf: array<u8>, v: int)
    requires buf.Length == 4 && 0 <= v < 0x1_0000_0000
    modifies buf
    ensures buf[..] == Fixed(v, 4)
    ensures v == 0x100_0000 * (buf[0] as int) + 0x1_0000 * (buf[1] as int) + 0x100 * (buf[2] as int) + buf[3] as int
  {
    buf[0] := v / 0x100_0000;
    buf[1] := v / 0x1_0000 % 256;
    buf[2] := v / 0x100 % 256;
    buf[3] := v % 256;
    assert Fixed(v, 1) == [v % 256];
    assert v / 256 / 256 / 256 == v / 0x100_0000;
    assert Fixed(v / 256 / 256 / 256, 1) == [v / 0x100_0000];
    assert Fixed(v / 256 / 256, 2) == [v / 0x100_0000, v / 0x1_0000 % 256];
    assert Fixed(v / 256, 3) == [v / 0x100_0000, v / 0x1_0000 % 256, v / 0x100 % 256];
  }
}
