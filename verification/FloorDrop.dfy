/** The integer recurrence behind both slashing and XP decay: an amount loses the floor of a
    fixed fraction of itself, again and again. Fractions are exact reals. */
module FloorDrop {

  /** a times q, as a sum: the recurrence needs no more arithmetic than this. */
  function Share(a: nat, q: real): real {
    if a == 0 then 0.0 else Share(a - 1, q) + q
  }

  lemma {:induction false} ShareIsProduct(a: nat, q: real)
    ensures Share(a, q) == a as real * q
  {
    if a > 0 {
      ShareIsProduct(a - 1, q);
      OneMore((a - 1) as real, q);
    }
  }

  lemma OneMore(x: real, q: real)
    ensures (x + 1.0) * q == x * q + q
  {
  }

  function Drop(a: nat, q: real): nat
    requires 0.0 <= q <= 1.0
  {
    FloorOfShare(a, q);
    a - Share(a, q).Floor
  }

  function DropN(a: nat, q: real, k: nat): nat
    requires 0.0 <= q <= 1.0
  {
    if k == 0 then a else Drop(DropN(a, q, k - 1), q)
  }

  function Pow(x: real, k: nat): real {
    if k == 0 then 1.0 else x * Pow(x, k - 1)
  }

  lemma FloorOfShare(a: nat, q: real)
    requires 0.0 <= q <= 1.0
    ensures 0.0 <= Share(a, q) <= a as real
    ensures 0 <= Share(a, q).Floor <= a
  {
    ShareGap(0, a, q);
  }

  lemma {:induction false} ShareGap(a: nat, b: nat, q: real)
    requires 0.0 <= q <= 1.0 && a <= b
    ensures Share(a, q) <= Share(b, q) <= Share(a, q) + (b - a) as real
    decreases b
  {
    if a < b {
      ShareGap(a, b - 1, q);
    }
  }

  /** One drop keeps at least the exact remainder and less than one unit more. */
  lemma DropBounds(a: nat, q: real)
    requires 0.0 <= q <= 1.0
    ensures (1.0 - q) * a as real <= Drop(a, q) as real < (1.0 - q) * a as real + 1.0
  {
    FloorOfShare(a, q);
    ShareIsProduct(a, q);
    Complement(a as real, q);
  }

  lemma Complement(x: real, q: real)
    ensures (1.0 - q) * x == x - x * q
  {
  }

  /** Dropping keeps the order of two amounts and never widens the gap between them. */
  lemma DropMonotone(a: nat, b: nat, q: real)
    requires 0.0 <= q <= 1.0 && a <= b
    ensures 0 <= Drop(b, q) - Drop(a, q) <= b - a
  {
    ShareGap(a, b, q);
    FloorGap(Share(a, q), Share(b, q), b - a);
  }

  lemma FloorGap(x: real, y: real, gap: nat)
    requires x <= y <= x + gap as real
    ensures x.Floor <= y.Floor <= x.Floor + gap
  {
  }

  /** An amount is a fixed point exactly when its share is below one unit. */
  lemma DropFixed(a: nat, q: real)
    requires 0.0 <= q <= 1.0
    ensures Drop(a, q) == a <==> Share(a, q) < 1.0
  {
    FloorOfShare(a, q);
  }

  /** left is at least a (1 - q)^k, and exceeds it by less than 1/q. */
  predicate WithinGeometric(a: nat, q: real, k: nat, left: nat)
    requires q > 0.0
  {
    Pow(1.0 - q, k) * a as real <= left as real < Pow(1.0 - q, k) * a as real + 1.0 / q
  }

  lemma GeometricBounds(a: nat, q: real, k: nat)
    requires 0.0 < q <= 1.0
    ensures WithinGeometric(a, q, k, DropN(a, q, k))
  {
    GeometricIsPow(a, q, k);
    DropNNearGeometric(a, q, 1.0 / q, k);
  }

  function Geometric(a: nat, q: real, k: nat): real {
    if k == 0 then a as real else (1.0 - q) * Geometric(a, q, k - 1)
  }

  lemma {:induction false} GeometricIsPow(a: nat, q: real, k: nat)
    ensures Geometric(a, q, k) == Pow(1.0 - q, k) * a as real
  {
    if k > 0 {
      GeometricIsPow(a, q, k - 1);
      Associate(1.0 - q, Pow(1.0 - q, k - 1), a as real);
    }
  }

  lemma Associate(x: real, y: real, z: real)
    ensures x * (y * z) == (x * y) * z
  {
  }

  lemma {:induction false} DropNNearGeometric(a: nat, q: real, inverse: real, k: nat)
    requires 0.0 < q <= 1.0 && q * inverse == 1.0
    ensures Geometric(a, q, k) <= DropN(a, q, k) as real < Geometric(a, q, k) + inverse
  {
    if k > 0 {
      DropNNearGeometric(a, q, inverse, k - 1);
      DropBounds(DropN(a, q, k - 1), q);
      OneStep(q, inverse, Geometric(a, q, k - 1), DropN(a, q, k - 1) as real, DropN(a, q, k) as real);
    }
  }

  lemma OneStep(q: real, inverse: real, exact: real, x: real, y: real)
    requires 0.0 < q <= 1.0 && q * inverse == 1.0
    requires exact <= x < exact + inverse
    requires (1.0 - q) * x <= y < (1.0 - q) * x + 1.0
    ensures (1.0 - q) * exact <= y < (1.0 - q) * exact + inverse
  {
    var r := 1.0 - q;
    ScaleOrder(r, exact, x);
    ScaleOrder(r, x, exact + inverse);
    var high, share := r * (exact + inverse), r * exact;
    assert high == share + inverse - 1.0 by {
      assert high == share + r * inverse;
      assert r * inverse == inverse - q * inverse;
    }
    assert y < high + 1.0;
  }

  lemma ScaleOrder(r: real, x: real, y: real)
    requires 0.0 <= r && x <= y
    ensures r * x <= r * y
  {
    assert 0.0 <= r * (y - x);
  }

  /** Above a floor whose own share is below one unit, drops never cross that floor. */
  lemma {:induction false} StaysAbove(a: nat, q: real, floor: nat, k: nat)
    requires 0.0 <= q <= 1.0 && floor <= a && Share(floor, q) < 1.0
    ensures floor <= DropN(a, q, k) <= a
  {
    if k > 0 {
      StaysAbove(a, q, floor, k - 1);
      DropMonotone(floor, DropN(a, q, k - 1), q);
      DropFixed(floor, q);
    }
  }

  /** While the share is at least one unit every drop strictly decreases the amount, so after
      a - level drops it has been at or below any level above which that holds. */
  lemma FallsBelow(a: nat, q: real, level: nat, k: nat)
    requires 0.0 <= q <= 1.0 && Share(level + 1, q) >= 1.0
    requires k >= a - level
    ensures DropN(a, q, k) <= level
  {
    FallsOrCounts(a, q, level, k);
  }

  lemma {:induction false} FallsOrCounts(a: nat, q: real, level: nat, k: nat)
    requires 0.0 <= q <= 1.0 && Share(level + 1, q) >= 1.0
    ensures DropN(a, q, k) <= level || DropN(a, q, k) + k <= a
  {
    if k > 0 {
      FallsOrCounts(a, q, level, k - 1);
      StrictDrop(DropN(a, q, k - 1), q, level);
    }
  }

  lemma StrictDrop(x: nat, q: real, level: nat)
    requires 0.0 <= q <= 1.0 && Share(level + 1, q) >= 1.0
    ensures Drop(x, q) <= x
    ensures x > level ==> Drop(x, q) < x
  {
    FloorOfShare(x, q);
    if x > level {
      ShareGap(level + 1, x, q);
      DropFixed(x, q);
    }
  }

  /** Where the drops end: at `limit`, the largest amount whose share is below one unit. It is
      reached from any larger amount after at most a - limit drops, each of them strict above the
      limit; an amount at or below the limit never changes. */
  lemma LimitReached(a: nat, q: real, limit: nat, k: nat)
    requires 0.0 <= q <= 1.0
    requires Share(limit, q) < 1.0 <= Share(limit + 1, q)
    ensures a >= limit && k >= a - limit ==> DropN(a, q, k) == limit
    ensures a <= limit ==> DropN(a, q, k) == a
    ensures a > limit ==> Drop(a, q) < a
  {
    if a <= limit {
      ShareGap(a, limit, q);
      StaysAbove(a, q, a, k);
    } else {
      StrictDrop(a, q, limit);
    }
    if a >= limit && k >= a - limit {
      FallsBelow(a, q, limit, k);
      StaysAbove(a, q, limit, k);
    }
  }
}
