/** What the `progress` field of a report can hold: the three terminal
    markers, and the percentage computed for each transfer callback. */
module Progress {
  import opened Values

  /** The terminal markers of a download (the `Progress` enum). */
  datatype Marker = Error | Stopped | Success

  /** The string each marker is reported as. */
  function MarkerValue(m: Marker): string
  {
    match m
    case Error => "error"
    case Stopped => "stopped"
    case Success => "success"
  }

  /** `Progress(s)`: the enum member whose value is `s`; None where Python
      raises ValueError. */
  function MarkerFromValue(s: string): (m: Option<Marker>)
    ensures m.Some? ==> MarkerValue(m.value) == s
    ensures m.None? ==> forall k: Marker :: MarkerValue(k) != s
  {
    if s == "error" then Some(Error)
    else if s == "stopped" then Some(Stopped)
    else if s == "success" then Some(Success)
    else None
  }

  /** Every marker is found again from its value; so the three values are
      pairwise distinct. */
  lemma MarkerValueRoundTrip(m: Marker)
    ensures MarkerFromValue(MarkerValue(m)) == Some(m)
  {
  }

  lemma MarkerValuesDistinct(m1: Marker, m2: Marker)
    ensures MarkerValue(m1) == MarkerValue(m2) <==> m1 == m2
  {
    MarkerValueRoundTrip(m1);
    MarkerValueRoundTrip(m2);
  }

  /** A terminal marker is never mistaken for a percentage or an unknown size. */
  predicate IsMarkerValue(v: PyValue)
  {
    v.PStr? && MarkerFromValue(v.s).Some?
  }

  function Abs(x: int): nat
  {
    if x < 0 then -x else x
  }

  /** Rounds a / b to the nearest integer for a >= 0 < b, halves up. */
  function RoundNonNegative(a: nat, b: nat): (q: nat)
    requires b > 0
    ensures 2 * (b * q) <= 2 * a + b < 2 * (b * q) + 2 * b
  {
    var q := (2 * a + b) / (2 * b);
    DivBounds(2 * a + b, 2 * b);
    assert (2 * b) * q == 2 * (b * q);
    q
  }

  lemma DivBounds(x: nat, y: nat)
    requires y > 0
    ensures y * (x / y) <= x < y * (x / y) + y
  {
  }

  lemma MulNegate(x: int, y: int)
    ensures (-x) * y == -(x * y) && x * (-y) == -(x * y)
  {
  }

  /** Multiplying by a positive number keeps an inequality. */
  lemma MulMonotone(d: int, r: int, k: int)
    requires d > 0 && r >= k
    ensures d * r >= d * k
  {
    assert d * r - d * k == d * (r - k);
  }

  /** Python 2 `round(n / d)` on the exact quotient: the nearest integer,
      halves rounded away from zero. Floating point is idealised away. */
  function RoundHalfAway(n: int, d: int): (r: int)
    requires d != 0
    ensures Abs(2 * (d * r - n)) <= Abs(d)
    ensures 2 * Abs(d * r - n) == Abs(d) ==> Abs(d * r) > Abs(n)
  {
    var q: int := RoundNonNegative(Abs(n), Abs(d));
    var r: int := if (n < 0) == (d < 0) || n == 0 then q else -q;
    SignedProduct(n, d, q, r);
    r
  }

  /** Putting the signs back: `d * r` is `|d| * q` carrying the sign of `n`. */
  lemma SignedProduct(n: int, d: int, q: int, r: int)
    requires d != 0 && q >= 0
    requires r == if (n < 0) == (d < 0) || n == 0 then q else -q
    requires 2 * (Abs(d) * q) <= 2 * Abs(n) + Abs(d) < 2 * (Abs(d) * q) + 2 * Abs(d)
    ensures Abs(2 * (d * r - n)) <= Abs(d)
    ensures 2 * Abs(d * r - n) == Abs(d) ==> Abs(d * r) > Abs(n)
  {
    var b := Abs(d);
    MulNegate(b, q);
    if n < 0 {
      assert d * r == -(b * q) by {
        if d < 0 { assert d == -b && r == q; } else { assert d == b && r == -q; }
      }
    } else {
      assert d * r == b * q by {
        if d < 0 {
          if n == 0 { assert q == 0; } else { assert d == -b && r == -q; MulNegate(-b, q); }
        } else { assert d == b && r == q; }
      }
    }
  }

  /** The percentage a callback reports: with a known size, the rounded
      share of bytes received so far, capped at 100; with an unknown size
      (zero or the transport's -1), None. */
  function PercentDone(blockCount: nat, blockSize: nat, totalSize: int): (p: PyValue)
    ensures totalSize <= 0 <==> p == PNone
    ensures totalSize > 0 ==> p.PInt? && 0 <= p.i <= 100
    ensures totalSize > 0 ==>
              (p.i == 100 <==> 200 * (blockCount * blockSize) >= 199 * totalSize)
    ensures totalSize > 0 && p.i < 100 ==>
              2 * (totalSize * p.i) - totalSize <= 200 * (blockCount * blockSize) < 2 * (totalSize * p.i) + totalSize
  {
    if totalSize > 0 then
      var bytes := blockCount * blockSize;
      var r := RoundHalfAway(100 * bytes, totalSize);
      var q := if r < 100 then r else 100;
      PercentFromRound(bytes, totalSize, r, q);
      PInt(q)
    else PNone
  }

  /** For a non-negative byte count, the rounded percentage capped at 100
      pins the byte count to a half-open interval around it (ties go up). */
  lemma PercentFromRound(bytes: int, d: int, r: int, q: int)
    requires bytes >= 0 && d > 0
    requires Abs(2 * (d * r - 100 * bytes)) <= Abs(d)
    requires 2 * Abs(d * r - 100 * bytes) == Abs(d) ==> Abs(d * r) > Abs(100 * bytes)
    requires q == if r < 100 then r else 100
    ensures 0 <= q <= 100
    ensures q == 100 <==> 200 * bytes >= 199 * d
    ensures q < 100 ==> 2 * (d * q) - d <= 200 * bytes < 2 * (d * q) + d
  {
    if r < 0 {
      MulMonotone(d, -r, 1);
      MulNegate(d, r);
      assert false;
    }
    if r >= 100 {
      MulMonotone(d, r, 100);
    } else {
      MulMonotone(d, 99, r);
    }
  }
}
