/**
 * Seeded Fibonacci hashing of the nghttp3 hash map (lib/nghttp3_map.c).
 *
 * Arithmetic on the C `uint64_t` key wraps modulo 2^64; it is written out
 * here with `% TWO64` on unbounded integers.
 */
module MapHash {
  import opened NghttpTypes

  const TWO64: int := 0x1_0000_0000_0000_0000

  /** Multiplier taken from rustc-hash, to spread every input bit. */
  const HASHER: int := 0xf135_7aea_2e62_a9c5
  /** 64-bit golden-ratio constant used to take well distributed high bits. */
  const FIBO: int := 0x9e37_79b9_7f4a_7c15

  /** Width of `size_t` on the modelled platform. */
  const SIZE_T_BITS: nat := 64

  /** 2^n, the value of `(size_t)1 << n`. */
  function Pow2(n: nat): (r: nat)
    ensures r >= 1
  {
    if n == 0 then 1 else 2 * Pow2(n - 1)
  }

  lemma {:induction false} Pow2Add(a: nat, b: nat)
    ensures Pow2(a + b) == Pow2(a) * Pow2(b)
  {
    if a > 0 {
      Pow2Add(a - 1, b);
      calc {
        Pow2(a + b);
        2 * Pow2(a - 1 + b);
        2 * (Pow2(a - 1) * Pow2(b));
        (2 * Pow2(a - 1)) * Pow2(b);
      }
    }
  }

  lemma {:induction false} Pow2Monotone(a: nat, b: nat)
    requires a < b
    ensures Pow2(a) < Pow2(b)
  {
    if b > a + 1 {
      Pow2Monotone(a, b - 1);
    }
  }

  lemma Pow2Is8()
    ensures Pow2(8) == 0x100
  {
    assert Pow2(2) == 4;
    Pow2Add(2, 2);
    Pow2Add(4, 4);
  }

  lemma Pow2Is32()
    ensures Pow2(32) == 0x1_0000_0000
  {
    Pow2Is8();
    Pow2Add(8, 8);
    Pow2Add(16, 16);
  }

  lemma Pow2Is64()
    ensures Pow2(64) == TWO64
  {
    Pow2Is32();
    Pow2Add(32, 32);
  }

  lemma QuotientBelow(x: int, a: int, b: int)
    requires 0 <= x < a * b && 0 < b
    ensures 0 <= x / b < a
    ensures (x / b) * b <= x < (x / b + 1) * b
  {
  }

  /** The 64-bit product (key + seed) * HASHER * FIBO, wrapping at 2^64. */
  function Mix(key: uint64, seed: uint64): (h: int)
    ensures 0 <= h < TWO64
  {
    var k := (key as int + seed as int) % TWO64;
    var m := (k * HASHER) % TWO64;
    (m * FIBO) % TWO64
  }

  /**
   * `map_index`: the top `hashbits` bits of the mixed key, i.e. an index of
   * a table of 2^hashbits slots.  The shift `64 - hashbits` is defined in C
   * only for 1 <= hashbits <= 63.
   */
  function MapIndex(key: uint64, seed: uint64, hashbits: nat): (r: nat)
    requires 1 <= hashbits < SIZE_T_BITS
    ensures r < Pow2(hashbits)
  {
    var d := Pow2(64 - hashbits);
    var h := Mix(key, seed);
    Pow2Add(hashbits, 64 - hashbits);
    Pow2Is64();
    QuotientBelow(h, Pow2(hashbits), d);
    h / d
  }

  /** Bit `j` of a non-negative integer. */
  predicate Bit(x: nat, j: nat) {
    (x / Pow2(j)) % 2 == 1
  }

  /**
   * The index is the mixed key shifted right by 64 - hashbits: its bit `j`
   * is bit `64 - hashbits + j` of the mixed key, and it has no bit at or
   * above `hashbits`.
   */
  lemma MapIndexIsTopBits(key: uint64, seed: uint64, hashbits: nat)
    requires 1 <= hashbits < SIZE_T_BITS
    ensures forall j: nat :: j < hashbits ==>
              (Bit(MapIndex(key, seed, hashbits), j) <==> Bit(Mix(key, seed), 64 - hashbits + j))
    ensures forall j: nat :: hashbits <= j ==> !Bit(MapIndex(key, seed, hashbits), j)
  {
    var d := Pow2(64 - hashbits);
    var h := Mix(key, seed);
    var r := MapIndex(key, seed, hashbits);
    assert r == h / d;
    forall j: nat | j < hashbits
      ensures Bit(r, j) <==> Bit(h, 64 - hashbits + j)
    {
      DivDiv(h, d, Pow2(j));
      Pow2Add(64 - hashbits, j);
    }
    forall j: nat | hashbits <= j
      ensures !Bit(r, j)
    {
      if hashbits < j {
        Pow2Monotone(hashbits, j);
      }
      DivUnique(r, Pow2(j), 0, r);
    }
  }

  /** Shifting right by `a` and then by `b` is one division by `a * b`. */
  lemma DivDiv(x: nat, a: nat, b: nat)
    requires 0 < a && 0 < b
    ensures x / a / b == x / (a * b)
  {
    var q, r := x / a, x % a;
    var q2, r2 := q / b, q % b;
    assert x == a * q + r;
    assert q == b * q2 + r2;
    Regroup(a, b, q2, r2, r);
    RemainderBelow(a, b, r2, r);
    DivUnique(x, a * b, q2, a * r2 + r);
  }

  lemma Regroup(a: int, b: int, q2: int, r2: int, r: int)
    ensures a * (b * q2 + r2) + r == (a * b) * q2 + (a * r2 + r)
  {
  }

  lemma RemainderBelow(a: int, b: int, r2: int, r: int)
    requires 0 <= r < a && 0 <= r2 < b
    ensures 0 <= a * r2 + r < a * b
  {
    assert a * r2 <= a * (b - 1);
  }

  /** Division by `m` is determined by a quotient and a remainder below `m`. */
  lemma DivUnique(x: int, m: int, q: int, t: int)
    requires 0 < m && 0 <= t < m && x == m * q + t
    ensures x / m == q
  {
    var k := x / m - q;
    MulSign(m, k);
    assert m * k == t - x % m;
  }

  lemma MulSign(m: int, k: int)
    requires 0 < m
    ensures 1 <= k ==> m <= m * k
    ensures k <= -1 ==> m * k <= -m
  {
  }
}
