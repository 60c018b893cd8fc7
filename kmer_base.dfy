/** Integer vocabulary shared by the k-mer model: bytes, powers of two and four,
    the 64-bit shift that kmer_utils.c uses for powers of four, and base-4
    numerals written most significant digit first. */
module KmerBase {

  /** An unsigned byte, as `unsigned char` holds it. */
  type Byte = b: int | 0 <= b < 256

  datatype Option<T> = None | Some(value: T)

  /** 2^64: `unsigned long long` and `size_t` arithmetic is taken modulo this. */
  const U64: nat := 0x1_0000_0000_0000_0000

  function Pow2(n: nat): (r: nat)
    ensures r >= 1
  {
    if n == 0 then 1 else 2 * Pow2(n - 1)
  }

  function Pow4(n: nat): (r: nat)
    ensures r >= 1
  {
    if n == 0 then 1 else 4 * Pow4(n - 1)
  }

  /** C's `v << n` on a 64-bit unsigned value; the shift is undefined for n >= 64. */
  function ShiftLeft64(v: nat, n: nat): (r: nat)
    requires v < U64 && n < 64
    ensures r < U64
  {
    (v * Pow2(n)) % U64
  }

  lemma {:induction false} Pow2Twice(x: nat)
    ensures Pow2(2 * x) == Pow4(x)
  {
    if x > 0 {
      Pow2Twice(x - 1);
      assert Pow2(2 * x) == 4 * Pow2(2 * x - 2);
    }
  }

  lemma {:induction false} Pow4Monotone(a: nat, b: nat)
    requires a <= b
    ensures Pow4(a) <= Pow4(b)
  {
    if a < b {
      Pow4Monotone(a, b - 1);
    }
  }

  lemma Pow4Split(a: nat, b: nat)
    ensures Pow4(a + b) == Pow4(a) * Pow4(b)
    decreases b
  {
    if b > 0 {
      Pow4Split(a, b - 1);
      assert Pow4(a + b) == 4 * Pow4(a + b - 1);
    }
  }

  lemma Pow4Of32()
    ensures Pow4(32) == U64 && Pow4(31) < U64
  {
    Pow4Split(1, 1);
    Pow4Split(2, 2);
    Pow4Split(4, 4);
    Pow4Split(8, 8);
    Pow4Split(16, 16);
  }

  /** kmer_pow_four: 4^x computed as `1 << (x * 2)` in 64 bits; x < 32 keeps the
      shift defined. */
  function KmerPowFour(x: nat): (r: nat)
    requires x < 32
    ensures r == Pow4(x) && r < U64
  {
    Pow2Twice(x);
    Pow4Monotone(x, 31);
    Pow4Of32();
    ShiftLeft64(1, 2 * x)
  }

  /** n divided by 4^(d+1) is n divided by 4^d and then by 4. */
  lemma DivPow4Step(n: nat, d: nat)
    ensures n / Pow4(d) / 4 == n / Pow4(d + 1)
  {
    var p := Pow4(d);
    var q := n / p / 4;
    var r1 := n % p;
    var r2 := (n / p) % 4;
    assert n == p * (n / p) + r1;
    assert n / p == 4 * q + r2;
    assert n == (4 * p) * q + (p * r2 + r1) by {
      calc {
        n;
        p * (4 * q + r2) + r1;
        { assert p * (4 * q + r2) == (4 * p) * q + p * r2; }
        (4 * p) * q + (p * r2 + r1);
      }
    }
    assert p * r2 + r1 < 4 * p by {
      assert p * r2 <= p * 3;
    }
    DivModUnique(n, 4 * p, q, p * r2 + r1);
  }

  /** Division with remainder has exactly one answer. */
  lemma DivModUnique(n: int, m: int, q: int, r: int)
    requires m > 0 && 0 <= r < m && n == m * q + r
    ensures n / m == q && n % m == r
  {
    var q0, r0 := n / m, n % m;
    assert n == m * q0 + r0;
    if q0 > q {
      assert m * q0 >= m * (q + 1) by { MulMonotone(m, q + 1, q0); }
      assert false;
    } else if q0 < q {
      assert m * q >= m * (q0 + 1) by { MulMonotone(m, q0 + 1, q); }
      assert false;
    }
  }

  lemma MulMonotone(m: int, a: int, b: int)
    requires m >= 0 && a <= b
    ensures m * a <= m * b
  {
    assert m * b - m * a == m * (b - a);
  }

  /** The value of a base-4 numeral given most significant digit first. */
  function Base4(ds: seq<Byte>): nat
  {
    if ds == [] then 0 else Base4(ds[..|ds| - 1]) * 4 + ds[|ds| - 1]
  }

  /** A numeral of base-4 digits is below 4 to the power of its length. */
  lemma {:induction false} Base4Below(ds: seq<Byte>)
    requires forall j :: 0 <= j < |ds| ==> ds[j] < 4
    ensures Base4(ds) < Pow4(|ds|)
  {
    if ds != [] {
      Base4Below(ds[..|ds| - 1]);
      var p := Pow4(|ds| - 1);
      assert Base4(ds[..|ds| - 1]) * 4 <= (p - 1) * 4 by {
        MulMonotone(4, Base4(ds[..|ds| - 1]), p - 1);
      }
    }
  }

  /** Digit d (counting from the least significant, d = 0) of n in base 4. */
  function Digit(n: nat, d: nat): (r: Byte)
    ensures r < 4
  {
    (n / Pow4(d)) % 4
  }

  /** The k lowest base-4 digits of n, most significant first. */
  function Digits(n: nat, k: nat): (ds: seq<Byte>)
    ensures |ds| == k
    ensures forall j :: 0 <= j < k ==> ds[j] < 4
  {
    if k == 0 then [] else Digits(n / 4, k - 1) + [n % 4]
  }

  /** Reading the k digits of n back as a numeral gives n modulo 4^k. */
  lemma {:induction false} Base4OfDigits(n: nat, k: nat)
    ensures Base4(Digits(n, k)) == n % Pow4(k)
  {
    if k > 0 {
      var ds := Digits(n, k);
      assert ds[..k - 1] == Digits(n / 4, k - 1);
      Base4OfDigits(n / 4, k - 1);
      ModCombine(n, Pow4(k - 1));
    }
  }

  /** The remainder of n by 4p, from the remainder of n / 4 by p and of n by 4. */
  lemma ModCombine(n: nat, p: nat)
    requires p > 0
    ensures ((n / 4) % p) * 4 + n % 4 == n % (4 * p)
  {
    var a, b := (n / 4) / p, (n / 4) % p;
    assert n / 4 == p * a + b;
    assert n == (4 * p) * a + (4 * b + n % 4) by {
      assert n == 4 * (n / 4) + n % 4;
      assert 4 * (p * a + b) == (4 * p) * a + 4 * b;
    }
    DivModUnique(n, 4 * p, a, 4 * b + n % 4);
  }

  /** Position j of Digits(n, k) holds digit k-1-j of n. */
  lemma {:induction false} DigitsAt(n: nat, k: nat, j: nat)
    requires j < k
    ensures Digits(n, k)[j] == Digit(n, k - 1 - j)
  {
    if j < k - 1 {
      DigitsAt(n / 4, k - 1, j);
      DivPow4Step(n, 0);
      DivOfDiv(n, k - 2 - j);
    }
  }

  /** (n / 4) / 4^d == n / 4^(d+1). */
  lemma {:induction false} DivOfDiv(n: nat, d: nat)
    ensures n / 4 / Pow4(d) == n / Pow4(d + 1)
  {
    if d == 0 {
    } else {
      DivOfDiv(n, d - 1);
      DivPow4Step(n / 4, d - 1);
      DivPow4Step(n, d);
    }
  }

  /** Every digit at or above position d of a number below 4^d is zero. */
  lemma DigitAboveIsZero(n: nat, m: nat, d: nat)
    requires n < Pow4(m) && m <= d
    ensures Digit(n, d) == 0
  {
    Pow4Monotone(m, d);
    DivModUnique(n, Pow4(d), 0, n);
  }
}
