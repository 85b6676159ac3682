/** Powers of two, bit lengths, and big-endian bit strings.
    A bit string is a `seq<bool>` whose first element is the most significant bit. */
module Binary {

  type byte = x: int | 0 <= x < 256

  type bits = seq<bool>

  function Pow2(n: nat): (r: int)
    ensures r >= 1
  {
    if n == 0 then 1 else 2 * Pow2(n - 1)
  }

  lemma {:induction false} Pow2Add(m: nat, n: nat)
    ensures Pow2(m + n) == Pow2(m) * Pow2(n)
    decreases n
  {
    if n == 0 {
    } else {
      Pow2Add(m, n - 1);
      assert Pow2(m + n) == 2 * (Pow2(m) * Pow2(n - 1));
    }
  }

  lemma {:induction false} Pow2Mono(m: nat, n: nat)
    requires m <= n
    ensures Pow2(m) <= Pow2(n)
    ensures m < n ==> 2 * Pow2(m) <= Pow2(n)
    decreases n
  {
    if m < n {
      Pow2Mono(m, n - 1);
    }
  }

  lemma Pow2Of30()
    ensures Pow2(30) == 1073741824
  {
    assert Pow2(10) == 1024;
    Pow2Add(10, 10);
    Pow2Add(20, 10);
  }

  /** `v >> k`, rounding toward minus infinity. */
  function Shr(v: int, k: nat): int {
    v / Pow2(k)
  }

  /** `v & (2^k - 1)`. */
  function Low(v: int, k: nat): (r: int)
    ensures 0 <= r < Pow2(k)
  {
    v % Pow2(k)
  }

  lemma ShrShr(v: int, j: nat, k: nat)
    ensures Shr(Shr(v, j), k) == Shr(v, j + k)
    ensures Low(Shr(v, j), k) == Shr(Low(v, j + k), j)
  {
    Pow2Add(k, j);
    DivMul(v, Pow2(k), Pow2(j));
  }

  lemma DivMul(v: int, p: int, q: int)
    requires p > 0 && q > 0
    ensures p * q > 0
    ensures (v / q) / p == v / (p * q)
    ensures (v % (p * q)) / q == (v / q) % p
  {
    MulAtLeast(p, q);
    var k, r := (v / q) / p, (v / q) % p;
    assert v / q == k * p + r;
    assert v == (k * p + r) * q + v % q;
    assert v == k * (p * q) + (r * q + v % q) by { assert (k * p) * q == k * (p * q); }
    assert r * q + v % q < p * q by {
      assert (p - r) * q == p * q - r * q;
      MulAtLeast(p - r, q);
    }
    assert 0 <= r * q;
    DivUnique(v, p * q, k, r * q + v % q);
    DivUnique(r * q + v % q, q, r, v % q);
  }

  lemma QuotientBound(b: nat, p: int, d: int)
    requires d > 0 && b < p * d
    ensures 0 <= b / d < p
  {
    assert b == (b / d) * d + b % d;
    if b / d >= p {
      MulMono(p, b / d, d);
    }
  }

  lemma MulMono(a: int, b: int, c: int)
    requires a <= b && c >= 0
    ensures a * c <= b * c
  {
    assert (b - a) * c == b * c - a * c;
    if b > a { MulAtLeast(b - a, c); }
  }

  /** The number of bits needed to hold `n`: the least `w` with `n < 2^w`. */
  function BitLen(n: nat): (w: nat)
    ensures n < Pow2(w)
    ensures w > 0 ==> Pow2(w - 1) <= n
  {
    if n == 0 then 0 else 1 + BitLen(n / 2)
  }

  lemma {:induction false} BitLenAtMost(n: nat, w: nat)
    requires n < Pow2(w)
    ensures BitLen(n) <= w
  {
    var l := BitLen(n);
    if l > w {
      Pow2Mono(w, l - 1);
    }
  }

  /** The low `w` bits of `v`, in two's complement when `v` is negative. */
  function ToBits(v: int, w: nat): (b: bits)
    ensures |b| == w
    decreases w, v
  {
    if w == 0 then [] else ToBits(v / 2, w - 1) + [v % 2 == 1]
  }

  /** The unsigned number that a bit string spells. */
  function Val(b: bits): (v: nat)
    ensures v < Pow2(|b|)
  {
    if |b| == 0 then 0
    else 2 * Val(b[..|b| - 1]) + (if b[|b| - 1] then 1 else 0)
  }

  lemma MulAtLeast(a: int, d: int)
    requires a >= 1 && d >= 0
    ensures a * d >= d
  {
    assert a * d == (a - 1) * d + d;
  }

  lemma QuotientUnique(d: int, q: int, r: int, q': int, r': int)
    requires q * d + r == q' * d + r' && 0 <= r < d && 0 <= r' < d
    ensures q == q'
  {
    if q > q' {
      assert (q - q') * d == q * d - q' * d;
      MulAtLeast(q - q', d);
    } else if q < q' {
      assert (q' - q) * d == q' * d - q * d;
      MulAtLeast(q' - q, d);
    }
  }

  lemma DivUnique(v: int, d: int, q: int, r: int)
    requires v == q * d + r && 0 <= r < d
    ensures v / d == q && v % d == r
  {
    assert v == (v / d) * d + v % d;
    QuotientUnique(d, q, r, v / d, v % d);
  }

  lemma {:induction false} ValOfToBits(v: int, w: nat)
    ensures Val(ToBits(v, w)) == Low(v, w)
    decreases w
  {
    if w > 0 {
      ValOfToBits(v / 2, w - 1);
      assert ToBits(v, w)[..w - 1] == ToBits(v / 2, w - 1);
      LowHalf(v, w - 1);
    }
  }

  lemma LowHalf(v: int, k: nat)
    ensures Low(v, k + 1) == 2 * Low(v / 2, k) + v % 2
    ensures Shr(v / 2, k) == Shr(v, k + 1)
  {
    var p := Pow2(k);
    var q, r := (v / 2) / p, (v / 2) % p;
    assert v / 2 == q * p + r;
    assert v == q * (2 * p) + (2 * r + v % 2);
    DivUnique(v, 2 * p, q, 2 * r + v % 2);
  }

  lemma LowSmall(v: int, k: nat)
    requires 0 <= v < Pow2(k)
    ensures Low(v, k) == v
  {
    DivUnique(v, Pow2(k), 0, v);
  }

  lemma ValOfToBitsExact(v: int, w: nat)
    requires 0 <= v < Pow2(w)
    ensures Val(ToBits(v, w)) == v
  {
    ValOfToBits(v, w);
    LowSmall(v, w);
  }

  lemma {:induction false} ToBitsOfVal(b: bits)
    ensures ToBits(Val(b), |b|) == b
  {
    if |b| > 0 {
      ToBitsOfVal(b[..|b| - 1]);
      assert Val(b) / 2 == Val(b[..|b| - 1]);
    }
  }

  /** The first `m` of `m + n` bits are the quotient by 2^n. */
  lemma {:induction false} ToBitsSplit(v: int, m: nat, n: nat)
    ensures ToBits(v, m + n) == ToBits(Shr(v, n), m) + ToBits(v, n)
    decreases n
  {
    if n == 0 {
    } else {
      ToBitsSplit(v / 2, m, n - 1);
      LowHalf(v, n - 1);
      assert ToBits(v, m + n) == ToBits(v / 2, m + n - 1) + [v % 2 == 1];
      assert ToBits(v, n) == ToBits(v / 2, n - 1) + [v % 2 == 1];
    }
  }

  /** Only the low `w` bits matter. */
  lemma {:induction false} ToBitsMod(v: int, u: int, w: nat)
    requires Low(v, w) == Low(u, w)
    ensures ToBits(v, w) == ToBits(u, w)
  {
    ValOfToBits(v, w);
    ValOfToBits(u, w);
    ToBitsOfVal(ToBits(v, w));
    ToBitsOfVal(ToBits(u, w));
  }

  lemma {:induction false} ValConcat(a: bits, b: bits)
    ensures Val(a + b) == Val(a) * Pow2(|b|) + Val(b)
    decreases |b|
  {
    if |b| == 0 {
      assert a + b == a;
    } else {
      var c := b[..|b| - 1];
      var last := if b[|b| - 1] then 1 else 0;
      ValConcat(a, c);
      assert (a + b)[..|a + b| - 1] == a + c;
      calc {
        Val(a + b);
        2 * Val(a + c) + last;
        2 * (Val(a) * Pow2(|c|) + Val(c)) + last;
        { MulTwo(Val(a), Pow2(|c|)); }
        Val(a) * Pow2(|b|) + Val(b);
      }
    }
  }

  lemma MulTwo(x: int, y: int)
    ensures 2 * (x * y) == x * (2 * y)
  {
  }

  lemma {:induction false} ValZeros(n: nat)
    ensures Val(Zeros(n)) == 0
    ensures ToBits(0, n) == Zeros(n)
  {
    if n > 0 {
      ValZeros(n - 1);
      assert Zeros(n)[..n - 1] == Zeros(n - 1);
    }
  }

  function Zeros(n: nat): (b: bits)
    ensures |b| == n
  {
    seq(n, i => false)
  }

  /** The bits of a byte string, each byte most significant bit first. */
  function BitsOf(s: seq<byte>): (b: bits)
    ensures |b| == 8 * |s|
  {
    if |s| == 0 then [] else BitsOf(s[..|s| - 1]) + ToBits(s[|s| - 1], 8)
  }

  lemma {:induction false} BitsOfConcat(s: seq<byte>, t: seq<byte>)
    ensures BitsOf(s + t) == BitsOf(s) + BitsOf(t)
    decreases |t|
  {
    hide ToBits;
    if |t| == 0 {
      assert s + t == s;
    } else {
      BitsOfConcat(s, t[..|t| - 1]);
      assert (s + t)[..|s + t| - 1] == s + t[..|t| - 1];
    }
  }

  lemma BitsOfAround(s: seq<byte>, i: nat)
    requires i < |s|
    ensures BitsOf(s) == BitsOf(s[..i]) + ToBits(s[i], 8) + BitsOf(s[i + 1..])
  {
    hide ToBits, BitsOf;
    CutAround(s, i);
    BitsOfOne(s[i]);
    BitsOfThree(s[..i], [s[i]], s[i + 1..]);
  }

  lemma CutAround<T>(s: seq<T>, i: nat)
    requires i < |s|
    ensures s == s[..i] + [s[i]] + s[i + 1..]
  {
  }

  lemma BitsOfThree(x: seq<byte>, y: seq<byte>, z: seq<byte>)
    ensures BitsOf(x + y + z) == BitsOf(x) + BitsOf(y) + BitsOf(z)
  {
    hide ToBits, BitsOf;
    BitsOfConcat(x, y);
    BitsOfConcat(x + y, z);
  }

  lemma BitsOfOne(v: byte)
    ensures BitsOf([v]) == ToBits(v, 8)
  {
    hide ToBits;
    assert [v][..0] == [];
    assert BitsOf([v][..0]) == [];
  }

  lemma BitsOfByte(s: seq<byte>, i: nat)
    requires i < |s|
    ensures BitsOf(s)[..8 * i] == BitsOf(s[..i])
    ensures BitsOf(s)[8 * i..8 * i + 8] == ToBits(s[i], 8)
    ensures BitsOf(s)[8 * i + 8..] == BitsOf(s[i + 1..])
  {
    hide ToBits, BitsOf;
    BitsOfAround(s, i);
    ThreeParts(BitsOf(s), BitsOf(s[..i]), ToBits(s[i], 8), BitsOf(s[i + 1..]));
  }

  lemma ThreeParts<T>(b: seq<T>, x: seq<T>, y: seq<T>, z: seq<T>)
    requires b == x + y + z
    ensures b[..|x|] == x && b[|x|..|x| + |y|] == y && b[|x| + |y|..] == z
  {
  }

  /** Replaces the bits of `b` from position `p` on by `x`. */
  function Splice(b: bits, p: nat, x: bits): (r: bits)
    requires p + |x| <= |b|
    ensures |r| == |b|
  {
    b[..p] + x + b[p + |x|..]
  }

  lemma SpliceTwice(b: bits, p: nat, x: bits, y: bits)
    requires p + |x| + |y| <= |b|
    ensures Splice(Splice(b, p + |x|, y), p, x) == Splice(b, p, x + y)
    ensures Splice(Splice(b, p, x), p + |x|, y) == Splice(b, p, x + y)
  {
  }

  /** Overwriting bytes with bytes splices their bits. */
  lemma BitsOfUpdate(s: seq<byte>, i: nat, v: byte)
    requires i < |s|
    ensures BitsOf(s[i := v]) == Splice(BitsOf(s), 8 * i, ToBits(v, 8))
  {
    hide ToBits, BitsOf;
    BitsOfAround(s[i := v], i);
    BitsOfByte(s, i);
    assert s[i := v][..i] == s[..i];
    assert s[i := v][i + 1..] == s[i + 1..];
  }

  /** A multiple of eight that is at least `n`: `n` rounded up to a whole octet. */
  function Pad8(n: nat): (r: nat)
    ensures n <= r < n + 8 && r % 8 == 0
  {
    if n % 8 == 0 then n else n + (8 - n % 8)
  }
}
