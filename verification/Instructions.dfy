/**
 * What each instruction of the expression machine does, by its number: the arithmetic written out on
 * integers, the bit operators bit by bit, operands byte by byte.
 */
module Instructions {
  import opened Prelude
  import opened Words
  import opened AgentMachine

  predicate Fits(x: int) { -0x8000_0000_0000_0000 <= x < 0x8000_0000_0000_0000 }

  /** Equal as 64-bit words. */
  predicate Congruent(x: int, y: int) { (x - y) % 0x1_0000_0000_0000_0000 == 0 }

  /** As an unsigned 64-bit number. */
  function AsUnsigned(a: int): nat { a % 0x1_0000_0000_0000_0000 }

  /** The machine has gone on to `next` with one more item on `s`. */
  predicate Pushed(o: Outcome, next: nat, s: seq<Word>) {
    o.Go? && o.pc == next && |o.stack| == |s| + 1 && o.stack[..|s|] == s
  }

  lemma SignedIs(n: int)
    ensures Congruent(Signed(n), n) && (Fits(n) ==> Signed(n) == n)
  {
    var u, m := n % 0x1_0000_0000_0000_0000, 0x1_0000_0000_0000_0000;
    assert n == (n / m) * m + u;
    assert Signed(n) - n == (if u < TWO63 then 0 - n / m else -1 - n / m) * m;
    MultipleMod(if u < TWO63 then 0 - n / m else -1 - n / m, m);
  }

  lemma MultipleMod(k: int, m: int)
    requires 0 < m
    ensures (k * m) % m == 0
  {
    Mod(k * m, k, 0, m);
  }

  // ---- two operands

  lemma Binary(t: Target, code: seq<byte>, pc: nat, s: seq<Word>, a: Word, b: Word)
    requires pc < |code| && IsBinary(code[pc])
    ensures Next(t, code, pc, s + [a, b]) ==
              match Apply(t, code[pc], a, b) case None => Fail case Some(w) => Go(pc + 1, s + [w])
  {
    hide Apply, BigEndian;
    var op, stack := code[pc], s + [a, b];
    assert code[pc + 1..pc + 1] == [] && BigEndian([]) == 0 by { NoBytes(); }
    assert stack[|s|..] == [a, b] && stack[..|s|] == s;
  }

  lemma NoBytes()
    ensures BigEndian([]) == 0
  {
  }

  /** With fewer items than an instruction takes it fails. */
  lemma TooShort(t: Target, code: seq<byte>, pc: nat, s: seq<Word>)
    requires pc < |code| && |s| < 2
    requires 0x02 <= code[pc] <= 0x0b || 0x0f <= code[pc] <= 0x11 || 0x13 <= code[pc] <= 0x15 || code[pc] == 0x2b
    ensures Next(t, code, pc, s) == Fail
  {
    hide Apply, BigEndian;
  }

  lemma Sums(t: Target, code: seq<byte>, pc: nat, s: seq<Word>, a: Word, b: Word)
    requires pc < |code|
    ensures var o := Next(t, code, pc, s + [a, b]);
            && (code[pc] == 0x02 ==>
                  Pushed(o, pc + 1, s) && o.stack[|s|] == if Fits(a + b) then a + b else t.undefined(0x02, a, b))
            && (code[pc] == 0x03 ==>
                  && Pushed(o, pc + 1, s)
                  && (if Fits(a - b) then o.stack[|s|] + b == a else o.stack[|s|] == t.undefined(0x03, a, b)))
            && (code[pc] == 0x04 ==>
                  Pushed(o, pc + 1, s) && o.stack[|s|] == if Fits(a * b) then a * b else t.undefined(0x04, a, b))
  {
    if 0x02 <= code[pc] <= 0x04 {
      Binary(t, code, pc, s, a, b);
    }
  }

  /** Division that drops the fraction: the remainder is smaller than the divisor and has the dividend's sign. */
  predicate Truncated(a: int, b: int, q: int, m: int) {
    && a == q * b + m && -Abs(b) < m < Abs(b)
    && (m != 0 ==> (m < 0 <==> a < 0))
  }

  function Abs(x: int): int { if x < 0 then -x else x }

  lemma TruncatedOnce(a: int, b: int, q: int, m: int, q': int, m': int)
    requires Truncated(a, b, q, m) && Truncated(a, b, q', m')
    ensures q == q' && m == m'
  {
    var d := q - q';
    assert d * b == m' - m;
    if b > 0 {
      SmallMultiple(d, b);
    } else {
      assert d * b == -d * -b;
      SmallMultiple(-d, -b);
    }
  }

  lemma QuotientIs(a: int, b: int)
    requires b != 0
    ensures Truncated(a, b, Quotient(a, b), Remainder(a, b))
  {
    RoundsTowardZero(a, b);
  }

  lemma SignedDivisions(t: Target, code: seq<byte>, pc: nat, s: seq<Word>, a: Word, b: Word, q: int, m: int)
    requires pc < |code| && (b != 0 ==> Truncated(a, b, q, m))
    ensures var o := Next(t, code, pc, s + [a, b]);
            && (code[pc] == 0x05 || code[pc] == 0x07 ==> if b == 0 then o == Fail else Pushed(o, pc + 1, s))
            && (code[pc] == 0x05 && b != 0 ==> o.stack[|s|] == if Fits(q) then q else t.undefined(0x05, a, b))
            && (code[pc] == 0x07 && b != 0 ==> o.stack[|s|] == if Fits(q) then m else t.undefined(0x07, a, b))
  {
    hide Quotient, Remainder, Signed;
    if code[pc] == 0x05 || code[pc] == 0x07 {
      Binary(t, code, pc, s, a, b);
      if b != 0 {
        QuotientIs(a, b);
        TruncatedOnce(a, b, q, m, Quotient(a, b), Remainder(a, b));
        RemainderFits(a, b, m);
        SignedIs(m);
      }
    }
  }

  lemma RemainderFits(a: Word, b: Word, m: int)
    requires -Abs(b) < m < Abs(b)
    ensures Fits(m)
  {
  }

  lemma UnsignedDivisions(t: Target, code: seq<byte>, pc: nat, s: seq<Word>, a: Word, b: Word, q: nat, m: nat)
    requires pc < |code| && (b != 0 ==> AsUnsigned(a) == q * AsUnsigned(b) + m && m < AsUnsigned(b))
    ensures var o := Next(t, code, pc, s + [a, b]);
            && (code[pc] == 0x06 || code[pc] == 0x08 ==> if b == 0 then o == Fail else Pushed(o, pc + 1, s))
            && (code[pc] == 0x06 && b != 0 ==> Congruent(o.stack[|s|], q))
            && (code[pc] == 0x08 && b != 0 ==> Congruent(o.stack[|s|], m))
  {
    hide Signed;
    if code[pc] == 0x06 || code[pc] == 0x08 {
      Binary(t, code, pc, s, a, b);
      if b != 0 {
        DivisionIs(AsUnsigned(a), AsUnsigned(b), q, m);
        SignedIs(q);
        SignedIs(m);
      }
    }
  }

  lemma DivisionIs(x: nat, y: nat, q: nat, m: nat)
    requires x == q * y + m && m < y
    ensures x / y == q && x % y == m
  {
    assert x == (x / y) * y + x % y;
    EuclidUnique(q, m, x / y, x % y, y);
  }

  lemma Shifts(t: Target, code: seq<byte>, pc: nat, s: seq<Word>, a: Word, b: Word)
    requires pc < |code|
    ensures var o := Next(t, code, pc, s + [a, b]);
            && (0x09 <= code[pc] <= 0x0b ==> Pushed(o, pc + 1, s))
            && (0x09 <= code[pc] <= 0x0b && !(0 <= b < 64) ==> o.stack[|s|] == t.undefined(code[pc], a, b))
            && (code[pc] == 0x09 && 0 <= b < 64 ==> Congruent(o.stack[|s|], a * Pow2(b)))
            && (code[pc] == 0x0a && 0 <= b < 64 ==>
                  o.stack[|s|] * Pow2(b) <= a < (o.stack[|s|] + 1) * Pow2(b))
            && (code[pc] == 0x0b && 0 <= b < 64 ==>
                  AsUnsigned(o.stack[|s|]) * Pow2(b) <= AsUnsigned(a) < (AsUnsigned(o.stack[|s|]) + 1) * Pow2(b))
  {
    hide Signed, Pow2;
    if 0x09 <= code[pc] <= 0x0b {
      Binary(t, code, pc, s, a, b);
      if 0 <= b < 64 {
        SignedIs(a * Pow2(b));
        ShiftInRange(a, b);
        SignedIs(ShiftRight(a, b));
        Floored(a, Pow2(b));
        UnsignedFloor(a, Pow2(b));
      }
    }
  }

  lemma Floored(a: int, m: int)
    requires 0 < m
    ensures a / m * m <= a < (a / m + 1) * m
  {
    assert a == a / m * m + a % m;
  }

  lemma UnsignedFloor(a: Word, m: int)
    requires 1 <= m
    ensures AsUnsigned(Signed(Unsigned(a) / m)) == AsUnsigned(a) / m
    ensures AsUnsigned(a) / m * m <= AsUnsigned(a) < (AsUnsigned(a) / m + 1) * m
  {
    FloorBounds(AsUnsigned(a), m);
    Floored(AsUnsigned(a), m);
    AsUnsignedSigned(AsUnsigned(a) / m);
  }

  lemma AsUnsignedSigned(n: nat)
    requires n < 0x1_0000_0000_0000_0000
    ensures AsUnsigned(Signed(n)) == n
  {
  }

  lemma Comparisons(t: Target, code: seq<byte>, pc: nat, s: seq<Word>, a: Word, b: Word)
    requires pc < |code|
    ensures var o := Next(t, code, pc, s + [a, b]);
            && (code[pc] == 0x13 ==> Pushed(o, pc + 1, s) && o.stack[|s|] == if a == b then 1 else 0)
            && (code[pc] == 0x14 ==> Pushed(o, pc + 1, s) && o.stack[|s|] == if a < b then 1 else 0)
            && (code[pc] == 0x15 ==>
                  Pushed(o, pc + 1, s) && o.stack[|s|] == if AsUnsigned(a) < AsUnsigned(b) then 1 else 0)
  {
    if 0x13 <= code[pc] <= 0x15 {
      Binary(t, code, pc, s, a, b);
    }
  }

  // ---- bits

  /** Bit `i` of the two's complement. */
  predicate BitOf(a: int, i: nat) { (a / Pow2(i)) % 2 == 1 }

  lemma DivTwice(x: int, h: int)
    requires 0 < h
    ensures x / (2 * h) == (x / 2) / h
  {
    var q, r := (x / 2) / h, (x / 2) % h;
    assert x / 2 == q * h + r;
    assert x == q * (2 * h) + (2 * r + x % 2);
    assert x == (x / (2 * h)) * (2 * h) + x % (2 * h);
    EuclidUnique(x / (2 * h), x % (2 * h), q, 2 * r + x % 2, 2 * h);
  }

  lemma NextBit(x: int, i: nat)
    requires 0 < i
    ensures BitOf(x, i) == BitOf(x / 2, i - 1)
  {
    DivTwice(x, Pow2(i - 1));
  }

  lemma {:induction false} BitsAt(op: (bool, bool) -> bool, x: nat, y: nat, n: nat, i: nat)
    requires i < n
    ensures BitOf(Bits(op, x, y, n), i) <==> op(BitOf(x, i), BitOf(y, i))
  {
    var r, rest := Bits(op, x, y, n), Bits(op, x / 2, y / 2, n - 1);
    assert r == Bit(op(x % 2 == 1, y % 2 == 1)) + 2 * rest;
    hide Bits;
    if i == 0 {
      assert Pow2(0) == 1;
      EvenPlus(rest, Bit(op(x % 2 == 1, y % 2 == 1)));
    } else {
      BitsAt(op, x / 2, y / 2, n - 1, i - 1);
      NextBit(r, i);
      NextBit(x, i);
      NextBit(y, i);
      assert r / 2 == rest;
    }
  }

  /** The low 64 bits of a number are those of its 64-bit word. */
  lemma BitOfUnsigned(a: int, i: nat)
    requires i < 64
    ensures BitOf(AsUnsigned(a), i) == BitOf(a, i)
  {
    Pow2Of64();
    Pow2Add(64 - i, i);
    assert Pow2(64 - i) == 2 * Pow2(63 - i);
    BitOfRest(a, TWO64, Pow2(63 - i), Pow2(i));
  }

  lemma BitOfRest(a: int, m: int, e: int, p: int)
    requires 0 < p && 0 < m == 2 * e * p
    ensures (a % m / p) % 2 == (a / p) % 2
  {
    var q, u := a / m, a % m;
    assert a == q * m + u && u == u / p * p + u % p;
    Split(q, e, p, u / p, u % p);
    EuclidUnique(a / p, a % p, 2 * (q * e) + u / p, u % p, p);
    EvenPlus(q * e, u / p);
  }

  lemma Split(q: int, e: int, p: int, h: int, r: int)
    ensures q * (2 * e * p) + (h * p + r) == (2 * (q * e) + h) * p + r
  {
    assert q * (2 * e * p) == 2 * (q * e) * p;
    assert (2 * (q * e) + h) * p == 2 * (q * e) * p + h * p;
  }

  lemma EvenPlus(k: int, x: int)
    ensures (2 * k + x) % 2 == x % 2
  {
  }

  lemma BitOfSigned(n: nat, i: nat)
    requires i < 64 && n < 0x1_0000_0000_0000_0000
    ensures BitOf(Signed(n), i) == BitOf(n, i)
  {
    BitOfUnsigned(Signed(n), i);
    AsUnsignedSigned(n);
  }

  lemma BitsFit(op: (bool, bool) -> bool, x: nat, y: nat, n: nat)
    ensures Bits(op, x, y, n) < Pow2(n)
  {
  }

  lemma BitwiseAt(op: (bool, bool) -> bool, a: Word, b: Word, i: nat)
    requires i < 64
    ensures BitOf(Bitwise(op, a, b), i) <==> op(BitOf(a, i), BitOf(b, i))
  {
    hide BitOf, Bits, Pow2, Signed;
    var x, y := AsUnsigned(a), AsUnsigned(b);
    BitsFit(op, x, y, 64);
    Pow2Of64();
    BitOfSigned(Bits(op, x, y, 64), i);
    BitsAt(op, x, y, 64, i);
    BitOfUnsigned(a, i);
    BitOfUnsigned(b, i);
  }

  lemma BitOperators(t: Target, code: seq<byte>, pc: nat, s: seq<Word>, a: Word, b: Word, i: nat)
    requires pc < |code| && i < 64
    ensures var o := Next(t, code, pc, s + [a, b]);
            && (0x0f <= code[pc] <= 0x11 ==> Pushed(o, pc + 1, s))
            && (code[pc] == 0x0f ==> (BitOf(o.stack[|s|], i) <==> BitOf(a, i) && BitOf(b, i)))
            && (code[pc] == 0x10 ==> (BitOf(o.stack[|s|], i) <==> BitOf(a, i) || BitOf(b, i)))
            && (code[pc] == 0x11 ==> (BitOf(o.stack[|s|], i) <==> BitOf(a, i) != BitOf(b, i)))
  {
    hide BitOf, Bitwise;
    if 0x0f <= code[pc] <= 0x11 {
      Binary(t, code, pc, s, a, b);
      BitwiseAt(Both, a, b, i);
      BitwiseAt(Either, a, b, i);
      BitwiseAt(Differ, a, b, i);
    }
  }

  // ---- one operand

  lemma Unary(t: Target, code: seq<byte>, pc: nat, s: seq<Word>, a: Word)
    requires pc < |code| && OperandBytes(code[pc]) == 0 && Pops(code[pc], 0) == 1
    ensures Next(t, code, pc, s + [a]) ==
              match Effect(t, code[pc], 0, [a])
              case None => Fail
              case Some(pushed) => if code[pc] == OP_END then Done(s + [a]) else Go(pc + 1, s + pushed)
  {
    hide Effect, BigEndian;
    assert code[pc + 1..pc + 1] == [] && BigEndian([]) == 0 by { NoBytes(); }
    assert (s + [a])[|s|..] == [a] && (s + [a])[..|s|] == s;
  }

  lemma Nots(t: Target, code: seq<byte>, pc: nat, s: seq<Word>, a: Word, i: nat)
    requires pc < |code|
    ensures var o := Next(t, code, pc, s + [a]);
            && (code[pc] == 0x0e ==> Pushed(o, pc + 1, s) && o.stack[|s|] == if a == 0 then 1 else 0)
            && (code[pc] == 0x12 ==> Pushed(o, pc + 1, s) && (BitOf(o.stack[|s|], i) <==> !BitOf(a, i)))
    ensures code[pc] == 0x0e || code[pc] == 0x12 ==> Next(t, code, pc, []) == Fail
  {
    hide BitOf;
    if code[pc] == 0x0e || code[pc] == 0x12 {
      Unary(t, code, pc, s, a);
      Complement(a, i);
    }
  }

  lemma Complement(a: int, i: nat)
    ensures BitOf(-a - 1, i) <==> !BitOf(a, i)
  {
    var p := Pow2(i);
    hide Pow2;
    var q, r := a / p, a % p;
    assert a == q * p + r;
    assert (-q - 1) * p == -(q * p) - p;
    assert -a - 1 == (-q - 1) * p + (p - 1 - r);
    assert -a - 1 == ((-a - 1) / p) * p + (-a - 1) % p;
    EuclidUnique((-a - 1) / p, (-a - 1) % p, -q - 1, p - 1 - r, p);
    EvenPlus(-q - 1, q + 1);
  }

  lemma Loads(t: Target, code: seq<byte>, pc: nat, s: seq<Word>, a: Word, size: nat)
    requires pc < |code|
    requires (code[pc], size) in [(0x17, 1), (0x18, 2), (0x19, 4), (0x1a, 8)]
    ensures var o := Next(t, code, pc, s + [a]);
            match t.memory(AsUnsigned(a), size)
            case None => o == Fail
            case Some(v) => Pushed(o, pc + 1, s) && Congruent(o.stack[|s|], v)
    ensures Next(t, code, pc, []) == Fail
  {
    hide Signed;
    Unary(t, code, pc, s, a);
    var v := t.memory(AsUnsigned(a), size);
    if v.Some? {
      SignedIs(v.value);
    }
  }

  // ---- moving items

  lemma Moves(t: Target, code: seq<byte>, pc: nat, s: seq<Word>, a: Word, b: Word, c: Word)
    requires pc < |code|
    ensures code[pc] == 0x28 ==> Next(t, code, pc, s + [a]) == Go(pc + 1, s + [a, a]) && Next(t, code, pc, []) == Fail
    ensures code[pc] == 0x29 ==> Next(t, code, pc, s + [a]) == Go(pc + 1, s) && Next(t, code, pc, []) == Fail
    ensures code[pc] == 0x2b ==> Next(t, code, pc, s + [a, b]) == Go(pc + 1, s + [b, a])
    ensures code[pc] == 0x33 ==> Next(t, code, pc, s + [a, b, c]) == Go(pc + 1, s + [c, b, a])
    ensures code[pc] == 0x33 && |s| < 3 ==> Next(t, code, pc, s) == Fail
    ensures code[pc] == 0x27 ==> Next(t, code, pc, s) == Done(s)
  {
    hide Apply, BigEndian;
    Tops(s, a, b, c);
    assert s + [] == s;
  }

  lemma Tops(s: seq<Word>, a: Word, b: Word, c: Word)
    ensures (s + [a])[|s|..] == [a] && (s + [a])[..|s|] == s
    ensures (s + [a, b])[|s|..] == [a, b] && (s + [a, b])[..|s|] == s
    ensures (s + [a, b, c])[|s|..] == [a, b, c] && (s + [a, b, c])[..|s|] == s
  {
  }

  /** Every number that is not an instruction of the machine fails. */
  lemma Unknown(t: Target, code: seq<byte>, pc: nat, s: seq<Word>)
    requires pc < |code|
    requires code[pc] < 0x02 || 0x0c <= code[pc] <= 0x0d || 0x1b <= code[pc] <= 0x1f || 0x2c <= code[pc] <= 0x31
             || 0x34 <= code[pc]
    ensures Next(t, code, pc, s) == Fail
  {
  }

  /** So does standing behind the end of the program, and an operand that is not all there. */
  lemma CutShort(t: Target, code: seq<byte>, pc: nat, s: seq<Word>, n: nat)
    requires pc < |code|
    requires (code[pc], n) in [(0x16, 1), (0x2a, 1), (0x32, 1), (0x22, 1), (0x20, 2), (0x21, 2), (0x23, 2), (0x26, 2),
                               (0x24, 4), (0x25, 8)]
    ensures |code| < pc + 1 + n ==> Next(t, code, pc, s) == Fail
    ensures Next(t, code, |code|, s) == Fail
  {
  }

  // ---- operands

  lemma TwoBytes(code: seq<byte>, at: nat)
    requires at + 1 < |code|
    ensures BigEndian(code[at..at + 2]) == code[at] as int * 256 + code[at + 1]
    ensures BigEndian(code[at..at + 1]) == code[at]
  {
    NoBytes();
    assert code[at..at + 2][..1] == code[at..at + 1] && code[at..at + 1][..0] == [];
  }

  lemma {:induction false} MoreBytes(code: seq<byte>, at: nat, m: nat, n: nat)
    requires at + m + n <= |code|
    ensures BigEndian(code[at..at + m + n]) ==
              BigEndian(code[at..at + m]) * Power256(n) + BigEndian(code[at + m..at + m + n])
  {
    hide BigEndian;
    if n == 0 {
      NoBytes();
      assert code[at + m..at + m] == [];
    } else {
      MoreBytes(code, at, m, n - 1);
      LastByte(code, at, at + m + n);
      LastByte(code, at + m, at + m + n);
      TimesMore(BigEndian(code[at..at + m]), Power256(n - 1), BigEndian(code[at + m..at + m + n - 1]));
    }
  }

  lemma LastByte(code: seq<byte>, from: nat, to: nat)
    requires from < to <= |code|
    ensures BigEndian(code[from..to]) == BigEndian(code[from..to - 1]) * 256 + code[to - 1]
  {
    assert code[from..to][..to - from - 1] == code[from..to - 1];
  }

  lemma TimesMore(h: nat, p: nat, l: nat)
    ensures (h * p + l) * 256 == h * (256 * p) + l * 256
  {
    assert (h * p) * 256 == h * (256 * p);
  }

  function Power256(n: nat): nat { if n == 0 then 1 else 256 * Power256(n - 1) }

  lemma OneByteAt(code: seq<byte>, at: nat)
    requires at < |code|
    ensures BigEndian(code[at..at + 1]) == code[at]
  {
    NoBytes();
    assert code[at..at + 1][..0] == [];
  }

  /** The big-endian number of 2, 4 and 8 bytes, byte by byte. */
  function Two(code: seq<byte>, at: nat): nat
    requires at + 2 <= |code|
  {
    code[at] as int * 0x100 + code[at + 1]
  }

  function Four(code: seq<byte>, at: nat): nat
    requires at + 4 <= |code|
  {
    code[at] as int * 0x100_0000 + code[at + 1] as int * 0x1_0000 + code[at + 2] as int * 0x100 + code[at + 3]
  }

  lemma FourBytes(code: seq<byte>, at: nat)
    requires at + 4 <= |code|
    ensures BigEndian(code[at..at + 4]) == Four(code, at)
  {
    hide BigEndian;
    TwoBytes(code, at);
    TwoBytes(code, at + 2);
    MoreBytes(code, at, 2, 2);
    assert Power256(2) == 0x1_0000;
  }

  lemma EightBytes(code: seq<byte>, at: nat)
    requires at + 8 <= |code|
    ensures BigEndian(code[at..at + 8]) == Four(code, at) * 0x1_0000_0000 + Four(code, at + 4)
  {
    hide BigEndian;
    FourBytes(code, at);
    FourBytes(code, at + 4);
    MoreBytes(code, at, 4, 4);
    assert Power256(4) == 0x1_0000_0000;
  }

  lemma Constants(t: Target, code: seq<byte>, pc: nat, s: seq<Word>)
    requires pc < |code|
    ensures code[pc] == 0x22 && pc + 1 < |code| ==>
              var o := Next(t, code, pc, s);
              Pushed(o, pc + 2, s) && o.stack[|s|] == code[pc + 1]
    ensures code[pc] == 0x23 && pc + 2 < |code| ==>
              var o := Next(t, code, pc, s);
              Pushed(o, pc + 3, s) && o.stack[|s|] == Two(code, pc + 1)
    ensures code[pc] == 0x24 && pc + 4 < |code| ==>
              var o := Next(t, code, pc, s);
              Pushed(o, pc + 5, s) && o.stack[|s|] == Four(code, pc + 1)
    ensures code[pc] == 0x25 && pc + 8 < |code| ==>
              var o := Next(t, code, pc, s);
              && Pushed(o, pc + 9, s)
              && Congruent(o.stack[|s|], Four(code, pc + 1) * 0x1_0000_0000 + Four(code, pc + 5))
  {
    hide BigEndian, Signed;
    assert s[|s|..] == [] && s[..|s|] == s;
    if code[pc] == 0x22 && pc + 1 < |code| {
      OneByteAt(code, pc + 1);
      SignedIs(code[pc + 1]);
    } else if code[pc] == 0x23 && pc + 2 < |code| {
      TwoBytes(code, pc + 1);
      SignedIs(Two(code, pc + 1));
    } else if code[pc] == 0x24 && pc + 4 < |code| {
      FourBytes(code, pc + 1);
      SignedIs(Four(code, pc + 1));
    } else if code[pc] == 0x25 && pc + 8 < |code| {
      EightBytes(code, pc + 1);
      SignedIs(Four(code, pc + 1) * 0x1_0000_0000 + Four(code, pc + 5));
    }
  }

  lemma Jumps(t: Target, code: seq<byte>, pc: nat, s: seq<Word>, a: Word)
    requires pc + 2 < |code|
    ensures code[pc] == 0x20 ==>
              && Next(t, code, pc, s + [a]) == Go(if a == 0 then pc + 3 else Two(code, pc + 1), s)
              && Next(t, code, pc, []) == Fail
    ensures code[pc] == 0x21 ==> Next(t, code, pc, s) == Go(Two(code, pc + 1), s)
  {
    hide BigEndian, Apply;
    TwoBytes(code, pc + 1);
    Tops(s, a, a, a);
    assert s + [] == s && s[|s|..] == [] && s[..|s|] == s;
  }

  lemma Registers(t: Target, code: seq<byte>, pc: nat, s: seq<Word>)
    requires pc + 2 < |code| && code[pc] == 0x26
    ensures var o := Next(t, code, pc, s);
            match t.register(Two(code, pc + 1))
            case None => o == Fail
            case Some(r) =>
              if r.size == 1 || r.size == 2 || r.size == 4 || r.size == 8
              then Pushed(o, pc + 3, s) && Congruent(o.stack[|s|], r.value) else o == Fail
  {
    hide BigEndian, Signed;
    TwoBytes(code, pc + 1);
    assert s[|s|..] == [] && s[..|s|] == s;
    var r := t.register(Two(code, pc + 1));
    if r.Some? {
      SignedIs(r.value.value);
    }
  }

  /** `n` counts from the top, the top being 0. */
  lemma Picks(t: Target, code: seq<byte>, pc: nat, s: seq<Word>)
    requires pc + 1 < |code| && code[pc] == 0x32
    ensures var n := code[pc + 1];
            Next(t, code, pc, s) == if n < |s| then Go(pc + 2, s + [s[|s| - 1 - n]]) else Fail
  {
    hide BigEndian;
    var n := code[pc + 1];
    OneByteAt(code, pc + 1);
    if n < |s| {
      assert s[..|s| - 1 - n] + (s[|s| - 1 - n..] + [s[|s| - 1 - n]]) == s + [s[|s| - 1 - n]];
    }
  }

  /** Sign and zero extension from `n` bits: the number congruent modulo 2^n in the range. */
  lemma Extensions(t: Target, code: seq<byte>, pc: nat, s: seq<Word>, a: Word)
    requires pc + 1 < |code| && (code[pc] == 0x16 || code[pc] == 0x2a)
    ensures var n := code[pc + 1];
            && (n >= 64 ==> Next(t, code, pc, s) == Go(pc + 2, s))
            && (n == 0 && code[pc] == 0x16 ==> Next(t, code, pc, s) == Fail)
            && (n < 64 ==> Next(t, code, pc, []) == Fail)
            && (n < 64 && code[pc] == 0x2a ==>
                  var o := Next(t, code, pc, s + [a]);
                  && Pushed(o, pc + 2, s) && 0 <= o.stack[|s|] < Pow2(n)
                  && (o.stack[|s|] - a) % Pow2(n) == 0)
            && (0 < n < 64 && code[pc] == 0x16 ==>
                  var o := Next(t, code, pc, s + [a]);
                  && Pushed(o, pc + 2, s) && -Pow2(n - 1) <= o.stack[|s|] < Pow2(n - 1)
                  && (o.stack[|s|] - a) % Pow2(n) == 0)
  {
    hide BigEndian, SignExtend, ZeroExtend, Pow2;
    var n := code[pc + 1];
    OneByteAt(code, pc + 1);
    Tops(s, a, a, a);
    assert s + [] == s && s[|s|..] == [] && s[..|s|] == s;
    if n < 64 {
      ZeroExtendMeaning(a, n);
      CongruentRest(a, Pow2(n), a % Pow2(n));
      if 0 < n {
        SignExtendMeaning(a, n);
        CongruentRest(a, Pow2(n), SignExtend(a, n));
      }
    }
  }

  lemma CongruentRest(a: int, m: int, r: int)
    requires 0 < m && (r == a % m || r == a % m - m)
    ensures (r - a) % m == 0
  {
    var k := if r == a % m then -(a / m) else -(a / m) - 1;
    assert a == a / m * m + a % m;
    assert r - a == k * m;
    MultipleMod(k, m);
  }
}
