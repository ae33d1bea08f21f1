/** Powers of two, binary digits and little-endian byte strings. */
module Numbers {

  type Byte = b: int | 0 <= b < 256
  type U64 = n: int | 0 <= n < 0x1_0000_0000_0000_0000

  function Pow2(n: nat): (r: nat)
    ensures r >= 1
  {
    if n == 0 then 1 else 2 * Pow2(n - 1)
  }

  lemma {:induction false} Pow2Sum(a: nat, b: nat)
    ensures Pow2(a + b) == Pow2(a) * Pow2(b)
  {
    if a == 0 {
    } else {
      Pow2Sum(a - 1, b);
      assert Pow2(a + b) == 2 * Pow2(a - 1 + b);
      MulAssoc(2, Pow2(a - 1), Pow2(b));
    }
  }

  lemma MulAssoc(a: int, b: int, c: int)
    ensures a * b * c == a * (b * c)
  {
  }

  lemma {:induction false} Pow2Mono(a: nat, b: nat)
    requires a <= b
    ensures Pow2(a) <= Pow2(b)
    decreases b
  {
    if a >= b {
    } else {
      Pow2Mono(a, b - 1);
    }
  }

  /** Digit `i` of the binary expansion of `x`. */
  function Bit(x: nat, i: nat): (b: nat)
    ensures b < 2
  {
    (x / Pow2(i)) % 2
  }

  /** The number whose binary digits are the low `h` digits of `x`. */
  function LowSum(x: nat, h: nat): nat {
    if h == 0 then 0 else LowSum(x, h - 1) + Pow2(h - 1) * Bit(x, h - 1)
  }

  /** Collecting the low `h` digits is the same as reducing modulo 2^h. */
  lemma {:induction false} LowSumIsMod(x: nat, h: nat)
    ensures LowSum(x, h) == x % Pow2(h)
  {
    if h == 0 {
    } else {
      LowSumIsMod(x, h - 1);
      ModDouble(x, Pow2(h - 1));
    }
  }

  lemma ModDouble(x: nat, m: nat)
    requires m >= 1
    ensures x % (2 * m) == x % m + m * ((x / m) % 2)
  {
    var q, r := x / m, x % m;
    DivMod(x, m);
    SplitDivision(x, m, 2, q, r, q / 2, q % 2);
    ModUnique(x, m * 2, q / 2, m * (q % 2) + r);
  }

  lemma MulDistr(a: int, b: int, c: int)
    ensures a * (b + c) == a * b + a * c
  {
  }

  /** A quotient and a small remainder determine each other. */
  lemma ModUnique(x: int, m: int, q: int, r: int)
    requires m > 0 && 0 <= r < m && x == m * q + r
    ensures x % m == r && x / m == q
  {
    var q', r' := x / m, x % m;
    DivMod(x, m);
    MulDistr(m, q, -q');
    assert m * -q' == -(m * q');
    SmallMultiple(m, q - q', r' - r);
  }

  /** The only multiple of m strictly between -m and m is zero. */
  lemma SmallMultiple(m: int, k: int, d: int)
    requires m > 0 && -m < d < m && m * k == d
    ensures k == 0
  {
    MultipleAtLeast(m, k);
  }

  lemma MultipleAtLeast(m: int, k: int)
    requires m > 0
    ensures k >= 1 ==> m * k >= m
    ensures k <= -1 ==> m * k <= -m
  {
  }

  lemma DivMod(x: int, m: int)
    requires m > 0
    ensures x == m * (x / m) + x % m && 0 <= x % m < m
  {
  }

  lemma MulMono(a: nat, b: int, c: int)
    requires b <= c
    ensures a * b <= a * c
  {
  }

  lemma PosMul(a: int, b: int)
    requires a >= 1 && b >= 1
    ensures a * b >= 1
  {
  }

  /** Dividing by `a` and then by `b`, and what is left over, as one division by `a * b`. */
  lemma SplitDivision(x: int, a: int, b: int, q: int, r: int, q2: int, r2: int)
    requires a >= 1 && b >= 1 && x == a * q + r && 0 <= r < a && q == b * q2 + r2 && 0 <= r2 < b
    ensures x == (a * b) * q2 + (a * r2 + r) && 0 <= a * r2 + r < a * b
  {
    MulDistr(a, b * q2, r2);
    MulAssoc(a, b, q2);
    MulMono(a, r2, b - 1);
    MulDistr(a, b, -1);
    MulMono(a, 0, r2);
  }

  lemma DivDiv(x: nat, a: nat, b: nat)
    requires a >= 1 && b >= 1
    ensures a * b >= 1 && (x / a) / b == x / (a * b)
  {
    var q, r := x / a, x % a;
    var q2, r2 := q / b, q % b;
    DivMod(x, a);
    DivMod(q, b);
    PosMul(a, b);
    SplitDivision(x, a, b, q, r, q2, r2);
    ModUnique(x, a * b, q2, a * r2 + r);
  }

  /** Dropping `k` digits one at a time, from either side of the step. */
  lemma DropDigits(x: nat, k: nat)
    ensures x / Pow2(0) == x
    ensures (x / 2) / Pow2(k) == x / Pow2(k + 1)
    ensures (x / Pow2(k)) / 2 == x / Pow2(k + 1)
  {
    DivDiv(x, 2, Pow2(k));
    DivDiv(x, Pow2(k), 2);
  }

  /** Reducing modulo a multiple first does not change a remainder. */
  lemma ModOfMod(x: nat, a: nat, b: nat)
    requires a >= 1 && b >= 1
    ensures a * b >= 1 && (x % (a * b)) % a == x % a
  {
    PosMul(a, b);
    var m := a * b;
    var q, r := x / m, x % m;
    var q2, r2 := r / a, r % a;
    DivMod(x, m);
    DivMod(r, a);
    MulAssoc(a, b, q);
    MulDistr(a, b * q, q2);
    ModUnique(x, a, b * q + q2, r2);
  }

  /** Little-endian value of a byte string. */
  function LeValue(bytes: seq<Byte>): nat {
    if bytes == [] then 0 else bytes[0] + 256 * LeValue(bytes[1..])
  }

  lemma {:induction false} LeValueBound(bytes: seq<Byte>)
    ensures LeValue(bytes) < Pow2(8 * |bytes|)
  {
    if bytes == [] {
    } else {
      LeValueBound(bytes[1..]);
      Pow2Sum(8, 8 * |bytes[1..]|);
      assert Pow2(8) == 256;
      assert 8 * |bytes| == 8 + 8 * |bytes[1..]|;
    }
  }

  /** Strings of one length are determined by their value. */
  lemma {:induction false} LeValueInjective(a: seq<Byte>, b: seq<Byte>)
    requires |a| == |b| && LeValue(a) == LeValue(b)
    ensures a == b
  {
    if a == [] {
    } else {
      assert a[0] == LeValue(a) % 256 && b[0] == LeValue(b) % 256;
      LeValueInjective(a[1..], b[1..]);
      assert a == [a[0]] + a[1..] && b == [b[0]] + b[1..];
    }
  }

  /** The `w` low bytes of a number, least significant first. */
  function LeBytes(n: nat, w: nat): (b: seq<Byte>)
    ensures |b| == w
  {
    if w == 0 then [] else [n % 256] + LeBytes(n / 256, w - 1)
  }

  /** Writing a number in enough bytes and reading it back. */
  lemma {:induction false} LeBytesValue(n: nat, w: nat)
    requires n < Pow2(8 * w)
    ensures LeValue(LeBytes(n, w)) == n
    decreases w
  {
    hide Pow2;
    if w == 0 {
      PowStep(0);
    } else {
      Pow2Sum(8, 8 * (w - 1));
      PowByte();
      DivMod(n, 256);
      LeBytesValue(n / 256, w - 1);
    }
  }

  /** Reading bytes and writing them back. */
  lemma {:induction false} LeBytesOf(bytes: seq<Byte>)
    ensures LeBytes(LeValue(bytes), |bytes|) == bytes
  {
    if bytes == [] {
    } else {
      ModUnique(LeValue(bytes), 256, LeValue(bytes[1..]), bytes[0]);
      LeBytesOf(bytes[1..]);
      assert bytes == [bytes[0]] + bytes[1..];
    }
  }

  /** Byte `i` of a number is its digit to the base 256 at place `i`. */
  lemma {:induction false} LeBytesAt(n: nat, w: nat, i: nat)
    requires i < w
    ensures LeBytes(n, w)[i] == (n / Pow2(8 * i)) % 256
    decreases w
  {
    hide Pow2;
    if i == 0 {
      PowStep(0);
    } else {
      LeBytesAt(n / 256, w - 1, i - 1);
      PowByte();
      Pow2Sum(8, 8 * (i - 1));
      DivDiv(n, 256, Pow2(8 * (i - 1)));
    }
  }

  lemma PowByte()
    ensures Pow2(8) == 256
  {
  }

  /** The largest power of two below `n`. */
  function Split(n: nat): (k: nat)
    requires n >= 2
    ensures k < n <= 2 * k && exists e: nat :: k == Pow2(e)
  {
    if n == 2 then
      assert 1 == Pow2(0);
      1
    else
      var half := Split((n + 1) / 2);
      var e: nat :| half == Pow2(e);
      assert 2 * half == Pow2(e + 1);
      2 * half
  }

  lemma SplitHalves(n: nat)
    requires n > 2
    ensures Split(n) % 2 == 0 && Split((n + 1) / 2) == Split(n) / 2
  {
  }

  /** There is one power of two below `n` that is at least half of it. */
  lemma SplitIs(n: nat, e: nat)
    requires n >= 2 && Pow2(e) < n <= 2 * Pow2(e)
    ensures Split(n) == Pow2(e)
  {
    hide Pow2;
    var f: nat :| Split(n) == Pow2(f);
    if f < e {
      Pow2Mono(f + 1, e);
      PowStep(f);
    } else if e < f {
      Pow2Mono(e + 1, f);
      PowStep(e);
    }
  }

  lemma PowStep(e: nat)
    ensures Pow2(e + 1) == 2 * Pow2(e) && Pow2(0) == 1
  {
  }
}
