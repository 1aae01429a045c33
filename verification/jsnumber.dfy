/** The JavaScript remainder operator `%` on the integer-valued numbers the
    rotator computes with. JavaScript truncates toward zero, so the result has
    the sign of the dividend, and a zero divisor gives `NaN`, which is `None`
    here. Dafny's own `%` is Euclidean and is used only on non-negative values. */
module JsNumber {
  import opened Options

  function Abs(x: int): (r: int)
    ensures r >= 0 && (r == x || r == -x)
  {
    if x < 0 then -x else x
  }

  function NatRemainder(x: nat, n: nat): (m: nat)
    requires n > 0
    ensures m < n
  {
    x % n
  }

  /** `a % b` as JavaScript evaluates it (section 6.1.6.1.6 of ECMA-262,
      Number::remainder): `NaN` for a zero divisor, otherwise the value that
      differs from the dividend by a multiple of the divisor, is smaller than
      it in magnitude and has the dividend's sign. */
  function Remainder(a: int, b: int): (r: Option<int>)
    ensures r.None? <==> b == 0
    ensures r.Some? ==> -Abs(b) < r.value < Abs(b)
    ensures r.Some? && a >= 0 ==> r.value >= 0
    ensures r.Some? && a < 0 ==> r.value <= 0
    ensures r.Some? ==> (a - r.value) % Abs(b) == 0
  {
    if b == 0 then None
    else
      var m: int := NatRemainder(Abs(a), Abs(b));
      TruncatedRemainderCongruent(a, Abs(b));
      Some(if a < 0 then -m else m)
  }

  /** The truncated remainder differs from the dividend by a multiple of `n`. */
  lemma TruncatedRemainderCongruent(a: int, n: int)
    requires n > 0
    ensures var m := Abs(a) % n; (a - (if a < 0 then -m else m)) % n == 0
  {
    var m := Abs(a) % n;
    var q := Abs(a) / n;
    assert Abs(a) == n * q + m;
    if a < 0 {
      assert a + m == n * -q + 0;
      ModUnique(a + m, n, -q, 0);
    } else {
      assert a - m == n * q + 0;
      ModUnique(a - m, n, q, 0);
    }
  }

  /** On a non-negative dividend the JavaScript remainder is the Euclidean
      remainder by the divisor's magnitude; sequence positions and the clear
      rule are computed this way. Proved from the contract of `Remainder`
      alone: its value is the in-range non-negative number congruent to `a`. */
  lemma RemainderOfNatural(a: nat, b: int)
    requires b != 0
    ensures Remainder(a, b) == Some(a % Abs(b))
  {
    var n := Abs(b);
    var r := Remainder(a, b).value;
    var q := (a - r) / n;
    assert a - r == n * q + 0 by {
      assert (a - r) % n == 0;
    }
    assert a == n * q + r;
    ModUnique(a, n, q, r);
  }

  /** `n * d` is at least `n` for a positive factor `d`. */
  lemma {:induction false} MulAtLeast(n: nat, d: int)
    requires d >= 1
    ensures n * d >= n
    decreases d
  {
    if d > 1 {
      MulAtLeast(n, d - 1);
      assert n * d == n * (d - 1) + n;
    }
  }

  /** Euclidean division is unique: a quotient and a remainder in range
      determine `x % n`. */
  lemma ModUnique(x: int, n: nat, q: int, r: int)
    requires n > 0 && 0 <= r < n
    requires x == n * q + r
    ensures x % n == r
    ensures x / n == q
  {
    var q' := x / n;
    var r' := x % n;
    assert n * q + r == n * q' + r';
    assert n * (q - q') == r' - r;
    if q > q' {
      MulAtLeast(n, q - q');
    } else if q < q' {
      MulAtLeast(n, q' - q);
    }
  }

  /** Adding the modulus does not change the remainder. */
  lemma ModShift(a: int, n: nat)
    requires n > 0
    ensures (a + n) % n == a % n
  {
    assert a + n == n * (a / n + 1) + a % n;
    ModUnique(a + n, n, a / n + 1, a % n);
  }

  /** Moving from `i` to `i + 1` raises `i / n` by one exactly when `i + 1`
      is a multiple of `n`. */
  lemma DivStep(i: nat, n: nat)
    requires n > 0
    ensures (i + 1) / n == i / n + (if (i + 1) % n == 0 then 1 else 0)
  {
    var q := i / n;
    var r := i % n;
    assert i == n * q + r;
    if r == n - 1 {
      assert i + 1 == n * (q + 1) + 0;
      ModUnique(i + 1, n, q + 1, 0);
    } else {
      assert i + 1 == n * q + (r + 1);
      ModUnique(i + 1, n, q, r + 1);
    }
  }
}
