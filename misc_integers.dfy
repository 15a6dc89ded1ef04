/** The integer helpers of gorilla/core/misc.py: `is_power2` with its bit
    trick, and `is_multiple` on integers. Python integers are unbounded and
    behave as infinite two's-complement bit strings under `&`. */
module MiscIntegers {
  import opened Python

  /** A measure that halving shrinks until the value is 0 or -1. */
  function Magnitude(a: int): nat {
    if a >= 0 then a else -a - 1
  }

  /** Python's `a & b`: bit by bit from the lowest, where 0 has no bit set
      and -1 has every bit set. */
  function BitAnd(a: int, b: int): int
    decreases Magnitude(a) + Magnitude(b)
  {
    if a == 0 || b == 0 then 0
    else if a == -1 then b
    else if b == -1 then a
    else 2 * BitAnd(a / 2, b / 2) + (a % 2) * (b % 2)
  }

  /** `2 ** k`. */
  function Pow2(k: nat): nat {
    if k == 0 then 1 else 2 * Pow2(k - 1)
  }

  /** `is_power2(num)`: `num != 0 and num & (num - 1) == 0`; only a
      positive number can pass. */
  predicate IsPower2(num: int): (b: bool)
    ensures b ==> num > 0
  {
    var b := num != 0 && BitAnd(num, num - 1) == 0;
    if num < 0 then NegativeNotPower2(num); b else b
  }

  /** Every value is idempotent under `&`. */
  lemma {:induction false} BitAndSelf(a: int)
    ensures BitAnd(a, a) == a
    decreases Magnitude(a)
  {
    if a != 0 && a != -1 {
      var h, bit := a / 2, a % 2;
      assert bit == 0 || bit == 1;
      assert bit * bit == bit;
      BitAndSelf(h);
      assert BitAnd(a, a) == 2 * BitAnd(h, h) + bit * bit;
    }
  }

  /** For a positive `n`, clearing its lowest set bit leaves nothing exactly
      when `n` is a power of two. */
  lemma {:induction false} PositivePower2(n: int)
    requires n > 0
    ensures BitAnd(n, n - 1) == 0 <==> exists k: nat :: Pow2(k) == n
    decreases n
  {
    if n == 1 {
      assert Pow2(0) == 1;
    } else if n % 2 == 0 {
      var m := n / 2;
      assert (n - 1) / 2 == m - 1 && n % 2 == 0 && (n - 1) % 2 == 1;
      assert BitAnd(n, n - 1) == 2 * BitAnd(m, m - 1);
      PositivePower2(m);
      if exists k: nat :: Pow2(k) == m {
        var k: nat :| Pow2(k) == m;
        assert Pow2(k + 1) == n;
      }
      if exists k: nat :: Pow2(k) == n {
        var k: nat :| Pow2(k) == n;
        assert k != 0;
        assert Pow2(k - 1) == m;
        assert exists j: nat :: Pow2(j) == m;
      }
    } else {
      var m := n / 2;
      assert m >= 1 && n - 1 == 2 * m && (n - 1) / 2 == m;
      BitAndSelf(m);
      assert BitAnd(n, n - 1) == 2 * BitAnd(m, m);
      forall k: nat ensures Pow2(k) != n {
        if k > 0 {
          assert Pow2(k) == 2 * Pow2(k - 1);
        }
      }
    }
  }

  /** For a negative `n`, `n & (n - 1)` is negative. */
  lemma {:induction false} NegativeNotPower2(n: int)
    requires n < 0
    ensures BitAnd(n, n - 1) < 0
    decreases Magnitude(n)
  {
    if n != -1 {
      var m := n / 2;
      if n % 2 == 0 {
        assert m <= -1 && (n - 1) / 2 == m - 1 && (n - 1) % 2 == 1;
        assert BitAnd(n, n - 1) == 2 * BitAnd(m, m - 1);
        NegativeNotPower2(m);
      } else {
        assert m <= -2 && n - 1 == 2 * m && (n - 1) / 2 == m;
        BitAndSelf(m);
        assert BitAnd(n, n - 1) == 2 * BitAnd(m, m);
      }
    }
  }

  lemma {:induction false} Pow2Positive(k: nat)
    ensures Pow2(k) > 0
  {
    if k > 0 {
      Pow2Positive(k - 1);
    }
  }

  /** `is_power2(n)` holds exactly when `n` is `2 ** k` for some `k >= 0`;
      in particular it is false for 0 and for every negative number. */
  lemma IsPower2Correct(n: int)
    ensures IsPower2(n) <==> exists k: nat :: Pow2(k) == n
  {
    if n > 0 {
      PositivePower2(n);
    } else {
      if n < 0 {
        NegativeNotPower2(n);
      }
      forall k: nat ensures Pow2(k) != n {
        Pow2Positive(k);
      }
    }
  }

  /** Python's `a % b` on integers, `b != 0`: the remainder has the sign of
      the divisor. */
  function PyMod(a: int, b: int): int
    requires b != 0
  {
    if b > 0 then a % b else -((-a) % (-b))
  }

  /** Python's `a // b` on integers, `b != 0`: the quotient rounded down. */
  function PyFloorDiv(a: int, b: int): int
    requires b != 0
  {
    if b > 0 then a / b else (-a) / (-b)
  }

  /** Python's `%` and `//` satisfy `a == b * (a // b) + a % b`, with the
      remainder between 0 and the divisor. */
  lemma PyDivMod(a: int, b: int)
    requires b != 0
    ensures a == b * PyFloorDiv(a, b) + PyMod(a, b)
    ensures b > 0 ==> 0 <= PyMod(a, b) < b
    ensures b < 0 ==> b < PyMod(a, b) <= 0
  {
    if b < 0 {
      var q, r := (-a) / (-b), (-a) % (-b);
      assert -a == (-b) * q + r;
      assert a == b * q + (-r);
    }
  }

  /** `is_multiple(num, multiple)` on integers: false for `num == 0` (the
      `%` is then never evaluated), a ZeroDivisionError for `multiple == 0`
      otherwise, else whether the remainder is 0. */
  function IsMultiple(num: int, multiple: int): (r: Result<bool>)
    ensures r.Failure? <==> num != 0 && multiple == 0
    ensures r.Failure? ==> r.error == ZeroDivisionError
    ensures r == Success(true) ==> num != 0 && multiple != 0
  {
    if num == 0 then Success(false)
    else if multiple == 0 then Failure(ZeroDivisionError)
    else Success(PyMod(num, multiple) == 0)
  }

  /** A true `is_multiple` means a non-zero `num` is an exact multiple of
      `multiple`. */
  lemma IsMultipleSound(num: int, multiple: int)
    requires IsMultiple(num, multiple) == Success(true)
    ensures num != 0 && multiple != 0
    ensures num == multiple * PyFloorDiv(num, multiple)
  {
    PyDivMod(num, multiple);
  }

  lemma {:induction false} MulAtLeast(m: int, t: int)
    requires m > 0 && t >= 1
    ensures m * t >= m
    decreases t
  {
    if t > 1 {
      MulAtLeast(m, t - 1);
      assert m * t == m * (t - 1) + m;
    }
  }

  /** A multiple of a positive `m` leaves remainder 0. */
  lemma ModOfMultiple(q: int, m: int)
    requires m > 0
    ensures (q * m) % m == 0
  {
    var a := q * m;
    var d, r := a / m, a % m;
    assert a == m * d + r && 0 <= r < m;
    var t := q - d;
    assert m * t == r;
    if t >= 1 {
      MulAtLeast(m, t);
    } else if t <= -1 {
      MulAtLeast(m, -t);
    }
  }

  /** Every non-zero multiple `q * m` of a non-zero `m` passes
      `is_multiple`. */
  lemma IsMultipleComplete(q: int, m: int)
    requires q != 0 && m != 0
    ensures IsMultiple(q * m, m) == Success(true)
  {
    assert q * m != 0;
    if m > 0 {
      ModOfMultiple(q, m);
    } else {
      assert -(q * m) == q * -m;
      ModOfMultiple(q, -m);
    }
  }

  /** The two edge cases: a zero `num` is never a multiple, and a zero
      `multiple` with a non-zero `num` raises. */
  lemma IsMultipleEdges(num: int, multiple: int)
    ensures IsMultiple(0, multiple) == Success(false)
    ensures num != 0 ==> IsMultiple(num, 0) == Failure(ZeroDivisionError)
  {
  }
}
