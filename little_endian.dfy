// Unsigned little-endian byte strings: the representation FSA5 uses for
// arc words and per-node data.

module LittleEndian {

  /** An unsigned octet, as written to the output stream. */
  newtype byte = x: int | 0 <= x < 256

  /** 256 to the power n: the number of values n bytes can hold. */
  function Pow256(n: nat): (r: nat)
    ensures r >= 1
    ensures n > 0 ==> r >= 256
  {
    if n == 0 then 1 else 256 * Pow256(n - 1)
  }

  /** The low n bytes of x, least significant first (a truncating write). */
  function ToLE(x: nat, n: nat): (r: seq<byte>)
    ensures |r| == n
  {
    if n == 0 then [] else [(x % 256) as byte] + ToLE(x / 256, n - 1)
  }

  /** The number whose little-endian bytes are bs. */
  function FromLE(bs: seq<byte>): (r: nat)
    ensures r < Pow256(|bs|)
  {
    if bs == [] then 0
    else
      var rest := FromLE(bs[1..]);
      assert rest <= Pow256(|bs| - 1) - 1;
      assert 256 * rest <= 256 * Pow256(|bs| - 1) - 256;
      bs[0] as nat + 256 * rest
  }

  /** Concatenation regrouped, for proofs that build a sequence piece by
      piece. */
  lemma Regroup<T>(a: seq<T>, b: seq<T>, c: seq<T>)
    ensures a + (b + c) == (a + b) + c
  {
  }

  /** A product of two non-negative numbers is non-negative. */
  lemma MulNonneg(a: int, b: int)
    ensures a >= 0 && b >= 0 ==> a * b >= 0
  {
  }

  /** A positive multiple of m is at least m. */
  lemma MulAtLeast(m: int, a: int)
    requires m >= 0
    ensures a >= 1 ==> m * a >= m
  {
    MulNonneg(m, a - 1);
    assert m * a == m * (a - 1) + m;
  }

  /** Euclidean division is determined by its quotient and remainder. */
  lemma DivModUnique(x: nat, m: nat, q: nat, r: nat)
    requires m > 0 && r < m && x == m * q + r
    ensures x / m == q && x % m == r
  {
    var q', r' := x / m, x % m;
    assert x == m * q' + r';
    var d := q' - q;
    assert m * d == r - r' by {
      assert m * q' - m * q == m * (q' - q);
    }
    MulAtLeast(m, d);
    MulAtLeast(m, -d);
    assert m * (-d) == -(m * d);
  }

  /** Dividing by a and then by b splits x into a quotient by a * b and a
      remainder below a * b. */
  lemma SplitTwice(x: nat, a: nat, b: nat)
    requires a > 0 && b > 0
    ensures x == (a * b) * (x / a / b) + (a * ((x / a) % b) + x % a)
    ensures a * ((x / a) % b) + x % a < a * b
  {
    var q1, r1 := x / a, x % a;
    var q2, r2 := q1 / b, q1 % b;
    assert x == a * q1 + r1;
    assert q1 == b * q2 + r2;
    assert a * q1 == a * (b * q2) + a * r2;
    assert a * (b * q2) == (a * b) * q2;
    MulNonneg(a, b - 1 - r2);
    assert a * (b - 1) - a * r2 == a * (b - 1 - r2);
    assert a * (b - 1) == a * b - a;
  }

  /** Shifting right by a bytes and then by 8 bits is shifting by a + 1 bytes. */
  lemma DivDiv(x: nat, p: nat)
    requires p > 0
    ensures x / p / 256 == x / (256 * p)
  {
    SplitTwice(x, p, 256);
    assert p * 256 == 256 * p;
    DivModUnique(x, 256 * p, x / p / 256, p * ((x / p) % 256) + x % p);
  }

  /** The low bytes of x modulo 256 p: its low byte, then the next ones. */
  lemma ModSplit(x: nat, p: nat)
    requires p > 0
    ensures x % (256 * p) == x % 256 + 256 * ((x / 256) % p)
  {
    SplitTwice(x, 256, p);
    DivModUnique(x, 256 * p, x / 256 / p, 256 * ((x / 256) % p) + x % 256);
  }

  /** What is left of x after n bytes have been shifted out is zero exactly
      when x fits in n bytes. */
  lemma ShiftedOutIsZero(x: nat, n: nat)
    ensures (x / Pow256(n) == 0) <==> x < Pow256(n)
  {
    var p := Pow256(n);
    if x < p {
      DivModUnique(x, p, 0, x);
    } else {
      assert x == p * (x / p) + x % p;
    }
  }

  /** Decoding the n-byte little-endian form of x gives x modulo 256^n;
      in particular it gives x back whenever x fits in n bytes. */
  lemma {:induction false} RoundTrip(x: nat, n: nat)
    ensures FromLE(ToLE(x, n)) == x % Pow256(n)
  {
    if n > 0 {
      var bs := ToLE(x, n);
      assert bs[1..] == ToLE(x / 256, n - 1);
      RoundTrip(x / 256, n - 1);
      ModSplit(x, Pow256(n - 1));
    }
  }

  /** A value that fits survives the round trip unchanged. */
  lemma RoundTripExact(x: nat, n: nat)
    requires x < Pow256(n)
    ensures FromLE(ToLE(x, n)) == x
  {
    RoundTrip(x, n);
    DivModUnique(x, Pow256(n), 0, x);
  }

  /** The first byte of a little-endian form is the low byte of the value. */
  lemma FirstByte(x: nat, n: nat)
    requires n > 0
    ensures ToLE(x, n)[0] as nat == x % 256
  {
  }

  /** A truncating write keeps exactly the value modulo 256^n, so two numbers
      that agree modulo 256^n are written identically. */
  lemma {:induction false} ToLEMod(x: nat, n: nat)
    ensures ToLE(x % Pow256(n), n) == ToLE(x, n)
  {
    if n > 0 {
      var p := Pow256(n - 1);
      var y := x % (256 * p);
      ModSplit(x, p);
      DivModUnique(y, 256, (x / 256) % p, x % 256);
      ToLEMod(x / 256, n - 1);
    }
  }
}
