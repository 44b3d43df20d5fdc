/** Small shared vocabulary: bytes, optional values, sequence facts. */
module Prelude {
  type byte = b: int | 0 <= b < 256

  datatype Option<+T> = None | Some(value: T)

  function Min(a: int, b: int): int { if a < b then a else b }

  function Max(a: int, b: int): int { if a < b then b else a }

  /** Concatenation of a list of chunks, in order. */
  function Flatten<T>(chunks: seq<seq<T>>): seq<T> {
    if chunks == [] then [] else chunks[0] + Flatten(chunks[1..])
  }

  lemma {:induction false} FlattenSnoc<T>(chunks: seq<seq<T>>, last: seq<T>)
    ensures Flatten(chunks + [last]) == Flatten(chunks) + last
  {
    if chunks == [] {
      assert chunks + [last] == [last];
      assert Flatten([last]) == last + Flatten<T>([]);
    } else {
      assert (chunks + [last])[1..] == chunks[1..] + [last];
      FlattenSnoc(chunks[1..], last);
    }
  }

  lemma Associative<T>(a: seq<T>, b: seq<T>, c: seq<T>)
    ensures a + b + c == a + (b + c)
  {
  }

  /** A multiple of `m` strictly between `-m` and `m` is zero. */
  lemma SmallMultiple(d: int, m: int)
    requires -m < d * m < m
    ensures d == 0
  {
    if d > 0 {
      assert d * m == (d - 1) * m + m;
      NonNegative(d - 1, m);
    } else if d < 0 {
      assert d * m == -((-d - 1) * m) - m;
      NonNegative(-d - 1, m);
    }
  }

  lemma NonNegative(a: nat, b: nat)
    ensures 0 <= a * b
  {
  }

  /** Quotient and remainder are unique. */
  lemma EuclidUnique(q: int, r: int, q': int, r': int, m: int)
    requires q * m + r == q' * m + r' && 0 <= r < m && 0 <= r' < m
    ensures q == q' && r == r'
  {
    assert (q - q') * m == q * m - q' * m;
    SmallMultiple(q - q', m);
  }

  lemma Mod(n: int, q: int, r: int, m: int)
    requires 0 <= r < m && n == q * m + r
    ensures n % m == r
  {
    var q' := n / m;
    assert n == q' * m + n % m;
    EuclidUnique(q', n % m, q, r, m);
  }
}
