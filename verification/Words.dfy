/** Arithmetic on 32-bit integers that wraps around, and where equal steps lead in it. */
module Words {

  const INT_MAX := 0x7FFF_FFFF
  const WORD := 0x1_0000_0000

  type Int32 = x: int | -INT_MAX - 1 <= x <= INT_MAX

  /** What a 32-bit variable holds when `x` is stored in it. */
  function Wrap(x: int): Int32
  {
    (x + INT_MAX + 1) % WORD - INT_MAX - 1
  }

  lemma WrapIs(x: int, y: Int32, turns: int)
    requires x == y + turns * WORD
    ensures Wrap(x) == y
  {
  }

  /** How often `x` leaves the range. */
  function Around(x: int): int
  {
    (x + INT_MAX + 1) / WORD
  }

  lemma WrapsAround(x: int)
    ensures x == Wrap(x) + Around(x) * WORD
  {
  }

  /** It does not matter where in between a sum is cut to 32 bits. */
  lemma WrapSum(x: int, y: int)
    ensures Wrap(Wrap(x) + y) == Wrap(x + y)
  {
    WrapsAround(x);
    WrapsAround(x + y);
    WrapIs(Wrap(x) + y, Wrap(x + y), Around(x + y) - Around(x));
  }

  lemma WrapProduct(x: int, y: int)
    ensures Wrap(Wrap(x) * y) == Wrap(x * y)
  {
    WrapsAround(x);
    WrapsAround(x * y);
    Spread(Wrap(x), Around(x), y);
    WrapIs(Wrap(x) * y, Wrap(x * y), Around(x * y) - Around(x) * y);
  }

  lemma Spread(w: int, a: int, y: int)
    ensures (w + a * WORD) * y == w * y + a * y * WORD
  {
  }

  lemma WrapSign(x: int)
    ensures Wrap(x) >= 0 <==> x % WORD <= INT_MAX
  {
    WrapsAround(x);
    if Wrap(x) >= 0 {
      Remainder(x, WORD, Around(x), Wrap(x));
    } else {
      Remainder(x, WORD, Around(x) - 1, Wrap(x) + WORD);
    }
  }

  lemma Remainder(a: int, b: int, q: int, r: int)
    requires 0 <= r < b && a == q * b + r
    ensures a / b == q && a % b == r
  {
    var q', r' := a / b, a % b;
    assert (q - q') * b == r' - r;
    assert q - q' >= 1 ==> (q - q') * b >= b;
    assert q - q' <= -1 ==> (q - q') * b <= -b;
  }

  // ---------- powers of two ----------

  const BITS := 32

  function Pow2(n: nat): nat
  {
    if n == 0 then 1 else 2 * Pow2(n - 1)
  }

  lemma {:induction false} Pow2Splits(m: nat, n: nat)
    ensures Pow2(m + n) == Pow2(m) * Pow2(n)
  {
    if m > 0 {
      Pow2Splits(m - 1, n);
      assert m - 1 + n == m + n - 1;
      Twice(Pow2(m - 1), Pow2(n));
    }
  }

  lemma Twice(a: int, b: int)
    ensures 2 * (a * b) == 2 * a * b
  {
  }

  /** The largest power of two, up to the given one, that divides the step. */
  function TwoPart(step: int, bits: nat): (g: nat)
    ensures g > 0
    decreases bits
  {
    if bits == 0 || step % 2 == 1 then 1 else 2 * TwoPart(step / 2, bits - 1)
  }

  lemma {:induction false} TwoPartIs(step: int, bits: nat) returns (j: nat, rest: int)
    ensures j <= bits && TwoPart(step, bits) == Pow2(j) && step == Pow2(j) * rest
    ensures j == bits || rest % 2 == 1
    decreases bits
  {
    if bits == 0 || step % 2 == 1 {
      j, rest := 0, step;
    } else {
      var i, r := TwoPartIs(step / 2, bits - 1);
      j, rest := i + 1, r;
      assert 2 * (Pow2(i) * r) == 2 * Pow2(i) * r;
    }
  }

  lemma Distribute(s: int, a: int, b: int)
    ensures s * (a + b) == s * a + s * b && (a + b) * s == a * s + b * s
  {
  }

  lemma OddStep(s: int, u: nat, p: int, half: nat) returns (t: nat, q: int)
    requires s % 2 == 1 && s * u == 1 + p * half
    ensures s * t == 1 + q * (2 * half)
  {
    if p % 2 == 0 {
      t, q := u, p / 2;
      Halves(p, half);
    } else {
      t, q := u + half, (p + s) / 2;
      Halves(p + s, half);
      Distribute(s, u, half);
      Distribute(half, p, s);
    }
  }

  /** An odd number has an inverse modulo every power of two. */
  lemma {:induction false} OddInverse(s: int, n: nat) returns (t: nat, q: int)
    requires s % 2 == 1
    ensures s * t == 1 + q * Pow2(n)
  {
    if n == 0 {
      t, q := 0, -1;
    } else {
      var u, p := OddInverse(s, n - 1);
      t, q := OddStep(s, u, p, Pow2(n - 1));
    }
  }

  lemma Halves(p: int, half: nat)
    requires p % 2 == 0
    ensures p / 2 * (2 * half) == p * half
  {
    var h := p / 2;
    assert p == 2 * h;
  }

  // ---------- where equal steps lead ----------

  lemma WordIsPower()
    ensures Pow2(BITS) == WORD
  {
    assert Pow2(8) == 256;
    assert Pow2(16) == 65536;
    assert Pow2(24) == 16777216;
  }

  /** However many steps are taken from `begin`, the number reached is not beyond the greatest one
      that differs from it by a multiple of the power of two in the step. */
  lemma StepsStay(begin: Int32, step: int, turns: nat)
    ensures Wrap(begin + turns * step) <= INT_MAX - (INT_MAX - begin) % TwoPart(step, BITS)
  {
    hide Wrap, Around, TwoPart, Pow2;
    var j, rest := TwoPartIs(step, BITS);
    var g, x := Pow2(j), begin + turns * step;
    WordIsPower();
    Pow2Splits(j, BITS - j);
    WrapsAround(x);
    var z := Around(x) * Pow2(BITS - j) - turns * rest;
    Multiples(g, turns, rest, Around(x), Pow2(BITS - j));
    NotBelow(INT_MAX - Wrap(x), INT_MAX - begin, g, z);
  }

  lemma Multiples(g: int, a: int, b: int, c: int, d: int)
    ensures g * (c * d - a * b) == c * (g * d) - a * (g * b)
  {
    assert g * (c * d) == c * (g * d) && g * (a * b) == a * (g * b);
  }

  lemma NotBelow(a: int, b: int, g: int, z: int)
    requires g > 0 && 0 <= a == b + g * z
    ensures a >= b % g
  {
    var q, r := b / g, b % g;
    Joined(q, z, g);
    Remainder(a, g, q + z, r);
    AtLeastRemainder(a, g);
  }

  lemma AtLeastRemainder(a: nat, g: int)
    requires g > 0
    ensures a >= a % g
  {
    assert a / g * g >= 0;
  }

  lemma Joined(q: int, z: int, g: int)
    ensures (q + z) * g == q * g + g * z
  {
  }

  lemma Divided(a: nat, g: int)
    requires g > 0
    ensures a / g >= 0 && a == a / g * g + a % g
  {
  }

  /** And that greatest number is reached. */
  lemma StepsReach(begin: Int32, step: int) returns (turns: nat)
    ensures Wrap(begin + turns * step) == INT_MAX - (INT_MAX - begin) % TwoPart(step, BITS)
  {
    var j, rest := TwoPartIs(step, BITS);
    var g := Pow2(j);
    WordIsPower();
    Divided(INT_MAX - begin, g);
    var m := (INT_MAX - begin) / g;
    if j == BITS {
      turns := 0;
      WrapIs(begin, begin + m * g, -m);
    } else {
      turns := OddReaches(begin, m, g, rest);
    }
  }

  lemma OddReaches(begin: Int32, m: nat, g: nat, rest: int) returns (turns: nat)
    requires rest % 2 == 1 && begin + m * g <= INT_MAX
    ensures Wrap(begin + turns * (g * rest)) == begin + m * g
  {
    hide Wrap, Pow2;
    WordIsPower();
    var t, q := OddInverse(rest, BITS);
    Ways(t, m, g, rest, q);
    turns := Times(t, m);
    AtLeastBegin(begin, m, g);
    WrapIs(begin + turns * (g * rest), begin + m * g, g * m * q);
  }

  lemma Times(a: nat, b: nat) returns (c: nat)
    ensures c == a * b
  {
    c := a * b;
  }

  lemma AtLeastBegin(begin: int, m: nat, g: nat)
    ensures begin + m * g >= begin
  {
  }

  lemma Ways(t: int, m: int, g: int, rest: int, q: int)
    requires rest * t == 1 + q * WORD
    ensures t * m * (g * rest) == m * g + g * m * q * WORD
  {
    Regroup(t, m, g, rest);
    Expand(g * m, q);
  }

  lemma Regroup(t: int, m: int, g: int, rest: int)
    ensures t * m * (g * rest) == g * m * (rest * t)
  {
  }

  lemma Expand(a: int, q: int)
    ensures a * (1 + q * WORD) == a + a * q * WORD
  {
  }
}
