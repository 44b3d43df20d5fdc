/**
 * The 64-bit arithmetic of the expression machine: `int64_t` values are integers in range, the
 * bit operators are written bit by bit, and the two extension operators get their meaning.
 */
module Words {
  import opened Prelude

  const TWO63 := 0x8000_0000_0000_0000
  const TWO64 := 0x1_0000_0000_0000_0000

  type Word = x: int | -TWO63 <= x < TWO63

  predicate InRange(x: int) { -TWO63 <= x < TWO63 }

  function Unsigned(a: int): (r: nat)
    ensures r < TWO64
  {
    a % TWO64
  }

  /** The conversion of any integer to `int64_t`: the representative modulo 2^64. */
  function Signed(n: int): (w: Word)
  {
    var u := n % TWO64;
    if u < TWO63 then u else u - TWO64
  }

  function Pow2(n: nat): (r: int)
    ensures 1 <= r
  {
    if n == 0 then 1 else 2 * Pow2(n - 1)
  }

  lemma {:induction false} Pow2Add(m: nat, n: nat)
    ensures Pow2(m + n) == Pow2(m) * Pow2(n)
  {
    if m > 0 {
      Pow2Add(m - 1, n);
      assert Pow2(m) * Pow2(n) == 2 * (Pow2(m - 1) * Pow2(n));
    }
  }

  lemma {:induction false} Pow2Grows(m: nat, n: nat)
    requires m <= n
    ensures Pow2(m) <= Pow2(n)
  {
    if m < n {
      Pow2Grows(m, n - 1);
    }
  }

  lemma Pow2Of64()
    ensures Pow2(63) == TWO63 && Pow2(64) == TWO64
  {
    assert Pow2(8) == 256;
    Pow2Add(8, 8);
    Pow2Add(16, 16);
    Pow2Add(32, 32);
  }

  // ---- bit operators

  function Both(p: bool, q: bool): bool { p && q }

  function Either(p: bool, q: bool): bool { p || q }

  function Differ(p: bool, q: bool): bool { p != q }

  function Bit(p: bool): nat { if p then 1 else 0 }

  /** The low `n` bits of two numbers, combined bit by bit. */
  function Bits(op: (bool, bool) -> bool, x: nat, y: nat, n: nat): nat {
    if n == 0 then 0
    else Bit(op(x % 2 == 1, y % 2 == 1)) + 2 * Bits(op, x / 2, y / 2, n - 1)
  }

  function Bitwise(op: (bool, bool) -> bool, a: Word, b: Word): Word {
    Signed(Bits(op, Unsigned(a), Unsigned(b), 64))
  }

  lemma Halves(x: int, h: nat)
    requires 0 < h
    ensures x % (2 * h) == x % 2 + 2 * ((x / 2) % h)
  {
    var q, r := x / 2 / h, (x / 2) % h;
    assert x / 2 == q * h + r;
    assert q * (2 * h) == 2 * (q * h);
    Mod(x, q, 2 * r + x % 2, 2 * h);
  }

  /** Masking with 2^n - 1 is reduction modulo 2^n. */
  lemma {:induction false} MaskIsMod(x: nat, n: nat, w: nat)
    requires n <= w
    ensures Bits(Both, x, Pow2(n) - 1, w) == x % Pow2(n)
  {
    if n == 0 {
      NothingInCommon(x, w);
    } else {
      var h := Pow2(n - 1);
      assert Pow2(n) == 2 * h;
      assert Bits(Both, x, 2 * h - 1, w) == Bit(x % 2 == 1) + 2 * Bits(Both, x / 2, h - 1, w - 1);
      hide Pow2, Bits;
      MaskIsMod(x / 2, n - 1, w - 1);
      Halves(x, h);
    }
  }

  lemma {:induction false} NothingInCommon(x: nat, w: nat)
    ensures Bits(Both, x, 0, w) == 0
  {
    if w > 0 {
      NothingInCommon(x / 2, w - 1);
    }
  }

  lemma {:induction false} OrNothing(r: nat, w: nat)
    requires r < Pow2(w)
    ensures Bits(Either, 0, r, w) == r
  {
    if w > 0 {
      OrNothing(r / 2, w - 1);
    }
  }

  /** Setting all bits from `n` up leaves the low bits alone. */
  lemma {:induction false} OrHigh(r: nat, n: nat, w: nat)
    requires n <= w && r < Pow2(n) && Pow2(n) <= Pow2(w)
    ensures Bits(Either, Pow2(w) - Pow2(n), r, w) == Pow2(w) - Pow2(n) + r
  {
    if n > 0 {
      OrHigh(r / 2, n - 1, w - 1);
    } else if w > 0 {
      OrHigh(0, 0, w - 1);
      assert (Pow2(w) - 1) / 2 == Pow2(w - 1) - 1;
    }
  }

  lemma Regroup(q: int, k: int, m: int, q': int, r: int)
    ensures q * (k * m) + (q' * m + r) == (q * k + q') * m + r
  {
    assert q * (k * m) == (q * k) * m;
    assert (q * k + q') * m == (q * k) * m + q' * m;
  }

  lemma ModOfMod(a: int, k: int, m: int, km: int)
    requires 0 < m && 0 < km && km == k * m
    ensures (a % km) % m == a % m
  {
    var u := a % km;
    assert a == (a / km) * km + u;
    assert u == (u / m) * m + u % m;
    Regroup(a / km, k, m, u / m, u % m);
    Mod(a, (a / km) * k + u / m, u % m, m);
  }

  /** Reducing modulo 2^64 first does not change the low bits. */
  lemma LowBits(a: int, n: nat)
    requires n <= 64
    ensures Unsigned(a) % Pow2(n) == a % Pow2(n)
  {
    hide Pow2;
    Pow2Of64();
    Pow2Add(64 - n, n);
    ModOfMod(a, Pow2(64 - n), Pow2(n), TWO64);
  }

  // ---- extension

  function ShiftRight(a: Word, n: nat): (r: int)
  {
    a / Pow2(n)
  }

  lemma FloorBounds(a: int, m: int)
    requires 1 <= m
    ensures a >= 0 ==> 0 <= a / m <= a
    ensures a < 0 ==> a <= a / m < 0
  {
    var q := a / m;
    assert q * m + a % m == a;
    if q >= 0 {
      NonNegative(q, m - 1);
      assert q * m == q * (m - 1) + q;
    } else {
      NonNegative(-q - 1, m - 1);
      assert q * m + m - 1 == q - (-q - 1) * (m - 1);
    }
  }

  lemma ShiftInRange(a: Word, n: nat)
    ensures InRange(ShiftRight(a, n))
  {
    FloorBounds(a, Pow2(n));
  }

  function LowMask(n: nat): (r: Word)
    requires n < 64
    ensures r == Pow2(n) - 1
  {
    Pow2Of64();
    Pow2Grows(n, 63);
    Pow2(n) - 1
  }

  function ZeroExtend(a: Word, n: nat): Word
    requires n < 64
  {
    Bitwise(Both, a, LowMask(n))
  }

  /** The source's formula: (sign_bit * ~n_mask) | (a & n_mask). */
  function SignExtend(a: Word, n: nat): Word
    requires 0 < n < 64
  {
    ShiftInRange(a, n - 1);
    var signBit := Bitwise(Both, ShiftRight(a, n - 1), 1);
    Bitwise(Either, Signed(signBit * (-LowMask(n) - 1)), Bitwise(Both, a, LowMask(n)))
  }

  /** Zero extension keeps the value modulo 2^n and nothing else. */
  lemma ZeroExtendMeaning(a: Word, n: nat)
    requires n < 64
    ensures ZeroExtend(a, n) == a % Pow2(n)
  {
    hide Bits, Pow2;
    Pow2Of64();
    Pow2Grows(n, 63);
    MaskIsMod(Unsigned(a), n, 64);
    LowBits(a, n);
    Small(LowMask(n));
    Small(a % Pow2(n));
  }

  /** The bit at the half decides which half of the remainder's range it is in. */
  lemma HighBit(a: int, h: int)
    requires 0 < h
    ensures (a / h) % 2 == if a % (2 * h) < h then 0 else 1
  {
    var q := a / h;
    var k, s, r := q / 2, q % 2, a % h;
    assert a == q * h + r;
    assert q * h == k * (2 * h) + s * h;
    assert s * h == if s == 0 then 0 else h;
    Mod(a, k, s * h + r, 2 * h);
  }

  lemma Small(x: int)
    requires 0 <= x < TWO63
    ensures Unsigned(x) == x && Signed(x) == x
  {
  }

  lemma SignBit(a: Word, n: nat)
    requires 0 < n < 64 && InRange(ShiftRight(a, n - 1))
    ensures Bitwise(Both, ShiftRight(a, n - 1), 1) == if a % Pow2(n) < Pow2(n - 1) then 0 else 1
  {
    hide Bits;
    var q := ShiftRight(a, n - 1);
    assert Pow2(1) == 2;
    assert Pow2(n) == 2 * Pow2(n - 1);
    hide Pow2;
    MaskIsMod(Unsigned(q), 1, 64);
    LowBits(q, 1);
    HighBit(a, Pow2(n - 1));
  }

  /** Or-ing in the sign: nothing, or all the bits above the low `n`. */
  lemma SpreadSign(low: Word, n: nat)
    requires 0 < n < 64 && 0 <= low < Pow2(n) <= TWO63
    ensures Bitwise(Either, 0, low) == low
    ensures Signed(-Pow2(n)) == -Pow2(n)
    ensures Bitwise(Either, -Pow2(n), low) == low - Pow2(n)
  {
    hide Bits, Signed, Unsigned, Pow2;
    Pow2Of64();
    Small(low);
    Small(0);
    OrNothing(low, 64);
    OrHigh(low, n, 64);
    High(low, Pow2(n));
  }

  lemma Multiple(bit: int, m: int)
    ensures bit == 0 ==> bit * m == 0
    ensures bit == 1 ==> bit * m == m
  {
  }

  lemma SignExtendByLow(a: Word, n: nat, low: Word)
    requires 0 < n < 64 && low == ZeroExtend(a, n) && 0 <= low < Pow2(n) <= TWO63
    requires InRange(ShiftRight(a, n - 1))
    requires Bitwise(Both, ShiftRight(a, n - 1), 1) == if low < Pow2(n - 1) then 0 else 1
    ensures SignExtend(a, n) == if low < Pow2(n - 1) then low else low - Pow2(n)
  {
    hide Bits, Signed, Unsigned, Bitwise, Pow2, ShiftRight;
    Multiple(Bitwise(Both, ShiftRight(a, n - 1), 1), -LowMask(n) - 1);
    Small(0);
    SpreadSign(low, n);
  }

  /** Sign extension: the one value congruent to `a` modulo 2^n in the range of n-bit signed numbers. */
  lemma SignExtendMeaning(a: Word, n: nat)
    requires 0 < n < 64
    ensures -Pow2(n - 1) <= SignExtend(a, n) < Pow2(n - 1)
    ensures SignExtend(a, n) == a % Pow2(n) || SignExtend(a, n) == a % Pow2(n) - Pow2(n)
  {
    hide Bits, Signed, Unsigned, Bitwise, SignExtend, ZeroExtend, ShiftRight;
    Pow2Of64();
    Pow2Grows(n, 63);
    assert Pow2(n) == 2 * Pow2(n - 1);
    hide Pow2;
    ZeroExtendMeaning(a, n);
    ShiftInRange(a, n - 1);
    SignBit(a, n);
    SignExtendByLow(a, n, ZeroExtend(a, n));
  }

  lemma High(low: int, m: int)
    requires 0 <= low < m <= TWO63
    ensures Signed(-m) == -m && Unsigned(-m) == TWO64 - m
    ensures Signed(TWO64 - m + low) == low - m
  {
  }
}
