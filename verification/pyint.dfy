/** Python's arbitrary-precision integers, as far as the MMIO alignment
    arithmetic uses them: the bitwise `&` and `~` operators, which treat an
    integer as an infinite two's-complement bit string, and the floor
    division and modulo of `//` and `%`, which round toward minus infinity.
    Dafny's own `/` and `%` are Euclidean; they agree with Python's only when
    the divisor is positive, so the negative-divisor case is written out. */
module PyInt {

  /** 2 to the power k. */
  function Pow2(k: nat): (r: nat)
    ensures r >= 1
  {
    if k == 0 then 1 else 2 * Pow2(k - 1)
  }

  function Abs(x: int): nat {
    if x < 0 then -x else x
  }

  /** Halving (floor division by 2) never moves away from zero, and it moves
      strictly toward zero for every integer but 0 and -1. */
  lemma HalfShrinks(a: int)
    ensures Abs(a / 2) <= Abs(a)
    ensures a != 0 && a != -1 ==> Abs(a / 2) < Abs(a)
  {
  }

  /** Python's `a & b`. The two operands are consumed one bit at a time from
      the low end; once both are all-zeros (0) or all-ones (-1) the remaining
      infinitely many bits are all equal. */
  function BitAnd(a: int, b: int): (r: int)
    ensures 0 <= a ==> 0 <= r <= a
    ensures 0 <= b ==> 0 <= r <= b
    ensures a < 0 && b < 0 ==> r < 0
    decreases Abs(a) + Abs(b)
  {
    if (a == 0 || a == -1) && (b == 0 || b == -1) then
      (if a == -1 && b == -1 then -1 else 0)
    else
      HalfShrinks(a);
      HalfShrinks(b);
      assert 0 <= (a % 2) * (b % 2) <= a % 2 && (a % 2) * (b % 2) <= b % 2;
      2 * BitAnd(a / 2, b / 2) + (a % 2) * (b % 2)
  }

  /** One step of `&` away from the all-zeros and all-ones operands. */
  lemma BitAndStep(a: int, b: int)
    requires b != 0 && b != -1
    ensures b % 2 == 0 ==> BitAnd(a, b) == 2 * BitAnd(a / 2, b / 2)
    ensures b % 2 == 1 ==> BitAnd(a, b) == 2 * BitAnd(a / 2, b / 2) + a % 2
  {
  }

  /** Python's `~x`. */
  function BitNot(x: int): int {
    -x - 1
  }

  /** Python's `a // b`: the quotient rounded toward minus infinity. */
  function FloorDiv(a: int, b: int): int
    requires b != 0
  {
    if b > 0 then a / b else (-a) / (-b)
  }

  /** Python's `a % b`: the remainder takes the sign of the divisor. */
  function FloorMod(a: int, b: int): (r: int)
    requires b != 0
    ensures b > 0 ==> 0 <= r < b
    ensures b < 0 ==> b < r <= 0
  {
    a - b * FloorDiv(a, b)
  }

  /** Splitting off the lowest bit of a remainder modulo 2m. */
  lemma ModDoubling(a: nat, m: nat)
    requires m >= 1
    ensures a % (2 * m) == 2 * ((a / 2) % m) + a % 2
  {
    var q, r := a / 2, a % 2;
    var t, s := q / m, q % m;
    assert a == 2 * m * t + (2 * s + r);
    assert 0 <= 2 * s + r < 2 * m;
    ModUnique(a, 2 * m, t, 2 * s + r);
  }

  /** A remainder is determined by any quotient/remainder decomposition. */
  lemma ModUnique(a: int, d: nat, t: int, x: int)
    requires d >= 1
    requires a == d * t + x && 0 <= x < d
    ensures a % d == x && a / d == t
  {
    var t', x' := a / d, a % d;
    assert d * t + x == d * t' + x';
    if t < t' {
      MulMono(d, t + 1, t');
      assert false;
    } else if t' < t {
      MulMono(d, t' + 1, t);
      assert false;
    }
  }

  lemma MulMono(d: nat, x: int, y: int)
    requires x <= y
    ensures d * x <= d * y
  {
  }

  /** `a & -1` keeps every bit of a non-negative a. */
  lemma {:induction false} BitAndAllOnes(a: nat)
    ensures BitAnd(a, -1) == a
  {
    if a != 0 {
      BitAndAllOnes(a / 2);
    }
  }

  /** `a & 0` clears every bit. */
  lemma {:induction false} BitAndZero(a: nat)
    ensures BitAnd(a, 0) == 0
  {
    if a != 0 {
      BitAndZero(a / 2);
    }
  }

  /** For a non-negative a, `a & ~(2**k - 1)` (that is, `a & -(2**k)`) rounds
      a down to a multiple of 2**k. */
  lemma {:induction false} BitAndClearsLowBits(a: nat, k: nat)
    ensures BitAnd(a, -(Pow2(k) as int)) == a - a % Pow2(k)
  {
    if k == 0 {
      BitAndAllOnes(a);
    } else {
      var p := Pow2(k - 1);
      var b := -(Pow2(k) as int);
      assert b == 2 * -(p as int);
      assert b / 2 == -(p as int) && b % 2 == 0;
      BitAndStep(a, b);
      BitAndClearsLowBits(a / 2, k - 1);
      assert BitAnd(a, b) == 2 * (a / 2 - (a / 2) % p);
      ModDoubling(a, p);
      assert a % Pow2(k) == 2 * ((a / 2) % p) + a % 2;
    }
  }

  /** For a non-negative a, `a & (2**k - 1)` keeps the low k bits of a, which
      is its remainder modulo 2**k. */
  lemma {:induction false} BitAndKeepsLowBits(a: nat, k: nat)
    ensures BitAnd(a, Pow2(k) - 1) == a % Pow2(k)
  {
    if k == 0 {
      BitAndZero(a);
    } else {
      var p := Pow2(k - 1);
      var b := Pow2(k) - 1;
      assert b == 2 * (p - 1) + 1;
      assert b / 2 == p - 1 && b % 2 == 1;
      BitAndStep(a, b);
      BitAndKeepsLowBits(a / 2, k - 1);
      assert BitAnd(a, b) == 2 * ((a / 2) % p) + a % 2;
      ModDoubling(a, p);
    }
  }

  /** Python's `a % -4` is zero exactly when a is a multiple of 4, whatever
      the sign of a. */
  lemma FloorModByMinusFour(a: int)
    ensures FloorMod(a, -4) == 0 <==> a % 4 == 0
  {
    var q := (-a) / 4;
    assert FloorMod(a, -4) == a + 4 * q;
    if a % 4 == 0 {
      ModUnique(-a, 4, -(a / 4), 0);
    } else {
      if a + 4 * q == 0 {
        ModUnique(a, 4, -q, 0);
        assert false;
      }
    }
  }
}
