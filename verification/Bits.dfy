/** Fixed-width unsigned values and the C bit operators the bootloaders use, as functions on naturals. */
module Bits {

  type byte = x: int | 0 <= x < 256
  type word = x: int | 0 <= x < 65536

  function Zeros(n: nat): (r: seq<byte>)
    ensures |r| == n && forall i :: 0 <= i < n ==> r[i] == 0
  {
    if n == 0 then [] else Zeros(n - 1) + [0]
  }

  /** Chunks of bytes, packets or record contents, joined into one stream. */
  function Concat(chunks: seq<seq<byte>>): (r: seq<byte>) {
    if chunks == [] then [] else chunks[0] + Concat(chunks[1..])
  }

  function Pow2(k: nat): (r: nat)
    ensures r > 0
  {
    if k == 0 then 1 else 2 * Pow2(k - 1)
  }

  /** Bitwise AND. */
  function And(x: nat, y: nat): (r: nat)
    ensures r <= x && r <= y
  {
    if x == 0 || y == 0 then 0
    else 2 * And(x / 2, y / 2) + (if x % 2 == 1 && y % 2 == 1 then 1 else 0)
  }

  /** Bitwise OR. */
  function Or(x: nat, y: nat): nat {
    if x == 0 then y else if y == 0 then x
    else 2 * Or(x / 2, y / 2) + (if x % 2 == 1 || y % 2 == 1 then 1 else 0)
  }

  /** A 16-bit value from its two bytes; by OrIsSum this is `(hi << 8) | lo`. */
  function LE16(lo: byte, hi: byte): (w: word) {
    lo + 256 * hi
  }

  /** The C remainder of unsigned operands, by repeated subtraction; see RemIsModulo. */
  function Rem(a: nat, m: nat): (r: nat)
    requires m > 0
    ensures r < m && r <= a
  {
    if a < m then a else Rem(a - m, m)
  }

  lemma {:induction false} RemIsModulo(a: nat, m: nat)
    requires m > 0
    ensures Rem(a, m) == a % m
    decreases a
  {
    if a >= m {
      RemIsModulo(a - m, m);
      assert a == (a - m) / m * m + (a - m) % m + m;
      assert (a - m) / m * m + m == ((a - m) / m + 1) * m;
      DivModUnique(a, m, (a - m) / m + 1, (a - m) % m);
    } else {
      DivModUnique(a, m, 0, a);
    }
  }

  lemma {:induction false} DivModUnique(a: int, m: int, q: int, r: int)
    requires m > 0 && a == q * m + r && 0 <= r < m
    ensures a / m == q && a % m == r
  {
    var d := a / m - q;
    assert d * m == (a / m) * m - q * m == r - a % m;
    MulBound(d, m);
  }

  lemma {:induction false} MulBound(d: int, m: int)
    requires m > 0
    ensures d >= 1 ==> d * m >= m
    ensures d <= -1 ==> d * m <= -m
  {
  }

  /** A multiple of m added in front does not change the remainder. */
  lemma {:induction false} RemSum(a: nat, b: nat, m: nat)
    requires m > 0 && Rem(a, m) == 0
    ensures Rem(a + b, m) == Rem(b, m)
    decreases a
  {
    if a != 0 {
      RemSum(a - m, b, m);
    }
  }

  lemma {:induction false} RemBase(a: nat, m: nat)
    requires m > 0
    ensures Rem(a - Rem(a, m), m) == 0
    decreases a
  {
    if a >= m {
      RemBase(a - m, m);
    }
  }

  /** Distinct multiples of m are at least m apart. */
  lemma {:induction false} RemGap(a: nat, b: nat, m: nat)
    requires m > 0 && Rem(a, m) == 0 && Rem(b, m) == 0 && a < b
    ensures a + m <= b && Rem(b - a, m) == 0
    decreases a
  {
    if a != 0 {
      RemGap(a - m, b - m, m);
    }
  }

  /** Even numbers have even remainders by even divisors. */
  /** Numbers less than m apart have different remainders. */
  lemma {:induction false} RemDiffers(j: nat, k: nat, m: nat)
    requires m > 0 && j < k < j + m
    ensures Rem(j, m) != Rem(k, m)
  {
    if Rem(j, m) == Rem(k, m) {
      var r := Rem(j, m);
      RemBase(j, m);
      RemBase(k, m);
      RemGap(j - r, k - r, m);
    }
  }

  lemma {:induction false} RemEven(a: nat, m: nat)
    requires m > 0 && m % 2 == 0
    ensures Rem(a, m) % 2 == a % 2
    decreases a
  {
    if a >= m {
      RemEven(a - m, m);
      assert a % 2 == (a - 2 * (m / 2)) % 2;
    }
  }

  /** Halving: the remainder by 2m, from the remainder of the half by m. */
  lemma {:induction false} RemHalf(x: nat, m: nat)
    requires m > 0
    ensures Rem(x, 2 * m) == 2 * Rem(x / 2, m) + x % 2
    decreases x
  {
    if x >= 2 * m {
      RemHalf(x - 2 * m, m);
      assert x / 2 - m == (x - 2 * m) / 2;
    }
  }

  /** Masking with 2^k - 1 is the remainder by 2^k. */
  lemma {:induction false} AndMask(x: nat, k: nat)
    ensures And(x, Pow2(k) - 1) == Rem(x, Pow2(k))
    ensures And(Pow2(k) - 1, x) == Rem(x, Pow2(k))
    decreases k
  {
    if k == 0 {
      RemOne(x);
    } else {
      var m := Pow2(k - 1);
      AndMask(x / 2, k - 1);
      RemHalf(x, m);
      assert (2 * m - 1) / 2 == m - 1;
    }
  }

  lemma {:induction false} RemOne(x: nat)
    ensures Rem(x, 1) == 0
  {
  }

  lemma {:induction false} RemSmall(x: nat, m: nat)
    requires x < m
    ensures Rem(x, m) == x
  {
  }

  /** Masking a w-bit value with ~(2^k - 1) rounds it down to a multiple of 2^k. */
  lemma {:induction false} AndNotMask(x: nat, k: nat, w: nat, p: nat, q: nat)
    requires k <= w && p == Pow2(k) && q == Pow2(w) && x < q
    ensures p <= q && And(x, q - p) == x - Rem(x, p)
    decreases k
  {
    hide And, Rem;
    if k == 0 {
      AndMask(x, w);
      RemOne(x);
      RemSmall(x, q);
    } else {
      assert q == 2 * Pow2(w - 1) && p == 2 * Pow2(k - 1);
      AndNotMask(x / 2, k - 1, w - 1, Pow2(k - 1), Pow2(w - 1));
      AndNotHalf(x, Pow2(k - 1), Pow2(w - 1));
    }
  }

  lemma {:induction false} AndNotHalf(x: nat, p: nat, q: nat)
    requires 0 < p <= q && And(x / 2, q - p) == x / 2 - Rem(x / 2, p)
    ensures And(x, 2 * q - 2 * p) == x - Rem(x, 2 * p)
  {
    RemHalf(x, p);
    assert (2 * q - 2 * p) / 2 == q - p;
  }

  lemma {:induction false} Pow2Mono(a: nat, b: nat)
    requires a <= b
    ensures Pow2(a) <= Pow2(b)
    decreases b
  {
    if a < b {
      Pow2Mono(a, b - 1);
    }
  }

  lemma {:induction false} ModAdd(x: nat, y: nat, m: nat)
    requires m > 0
    ensures (x % m + y) % m == (x + y) % m
  {
    var z := x % m + y;
    assert x + y == (x / m) * m + (z / m) * m + z % m;
    assert (x / m) * m + (z / m) * m == (x / m + z / m) * m;
    DivModUnique(x + y, m, x / m + z / m, z % m);
  }

  lemma {:induction false} ModSum(x: nat, y: nat)
    ensures (x % 256 + y) % 256 == (x + y) % 256
  {
  }

  lemma {:induction false} Pow2Divides(k: nat, n: nat)
    requires k <= n
    ensures Rem(Pow2(n), Pow2(k)) == 0
    decreases n
  {
    if k < n {
      Pow2Divides(k, n - 1);
      RemSum(Pow2(n - 1), Pow2(n - 1), Pow2(k));
    }
  }

  /** Divisibility is transitive. */
  lemma {:induction false} RemTrans(a: nat, m: nat, n: nat)
    requires m > 0 && n > 0 && Rem(m, n) == 0 && Rem(a, m) == 0
    ensures Rem(a, n) == 0
    decreases a
  {
    if a != 0 {
      RemTrans(a - m, m, n);
      RemSum(m, a - m, n);
    }
  }

  /** Adding b to the sum c gives 0 modulo 256 exactly when b is `(~c + 1) & 0xFF`. */
  lemma {:induction false} Negation(c: byte, b: byte)
    ensures b == (255 - c + 1) % 256 <==> (c + b) % 256 == 0
  {
  }

  lemma {:induction false} NibbleShift(x: byte, d: nat)
    requires d < 16
    ensures x * 16 % 256 + d == 16 * (x % 16) + d
    ensures (x * 16 % 256 + d) % 16 == d
  {
    DivModUnique(x * 16, 256, x / 16, 16 * (x % 16));
    DivModUnique(16 * (x % 16) + d, 16, x % 16, d);
  }

  /** Two shifts by four bits leave only the digits shifted in. */
  lemma {:induction false} NibblePair(x: byte, hi: nat, lo: nat)
    requires hi < 16 && lo < 16
    ensures (x * 16 % 256 + hi) * 16 % 256 + lo == hi * 16 + lo
  {
    assert x * 16 % 256 == (x % 16) * 16;
    assert (x % 16 * 16 + hi) * 16 == (x % 16) * 256 + hi * 16;
  }

  /** OR of values that share no bit is their sum. */
  lemma {:induction false} OrIsSum(x: nat, y: nat, k: nat)
    requires Rem(x, Pow2(k)) == 0 && y < Pow2(k)
    ensures Or(x, y) == x + y
    decreases k
  {
    if k > 0 {
      RemHalf(x, Pow2(k - 1));
      OrIsSum(x / 2, y / 2, k - 1);
    }
  }
}
