/** Reading and writing bit fields of arbitrary width in a byte buffer (g2/gbits.c).

    The masks and shifts of the C code act on two's complement integers, so they are the
    Euclidean quotient and remainder by a power of two: `v >> k` is `Shr(v, k)` and
    `v & ones[k-1]` is `Low(v, k)`, for negative `v` too. */
module BitFields {
  import opened Binary

  /** `b & (255 - (ones[t-1] << s))`: the byte with `t` bits cleared, `s` bits from the right. */
  function Cleared(b: nat, s: nat, t: nat): int {
    b - Low(Shr(b, s), t) * Pow2(s)
  }

  /** The `w` bits of `b` from bit `p` on. */
  function Cut(b: bits, p: nat, w: nat): (r: bits)
    requires p + w <= |b|
    ensures |r| == w
  {
    b[p..p + w]
  }

  /** Where field `i` starts: the offset `nbit` after `i` passes of the C loops. */
  function FieldAt(p: nat, w: nat, skip: nat, i: nat): (q: nat)
    ensures q >= p
  {
    if i == 0 then p else FieldAt(p, w, skip, i - 1) + w + skip
  }

  predicate Within(p: nat, w: nat, skip: nat, n: nat, size: nat) {
    n > 0 ==> FieldAt(p, w, skip, n - 1) + w <= size
  }

  /** The fields of `vals`, each `w` bits wide, stored `w + skip` bits apart from bit `p` on. */
  function StoreAll(b: bits, vals: seq<int>, p: nat, w: nat, skip: nat): (r: bits)
    requires Within(p, w, skip, |vals|, |b|)
    ensures |r| == |b|
  {
    if |vals| == 0 then b
    else
      var n := |vals| - 1;
      Splice(StoreAll(b, vals[..n], p, w, skip), FieldAt(p, w, skip, n), ToBits(vals[n], w))
  }

  /** The fields read back: `n` unsigned values. */
  function LoadAll(b: bits, p: nat, w: nat, skip: nat, n: nat): (r: seq<int>)
    requires Within(p, w, skip, n, |b|)
    ensures |r| == n
    ensures forall i :: 0 <= i < n ==> 0 <= r[i] < Pow2(w)
  {
    if n == 0 then []
    else
      var q := FieldAt(p, w, skip, n - 1);
      LoadAll(b, p, w, skip, n - 1) + [Val(Cut(b, q, w))]
  }

  // ---- one byte ----

  /** The `t` bits of a byte from bit `i` on, as a number. */
  lemma PartOfByte(b: byte, i: nat, t: nat)
    requires i + t <= 8
    ensures Val(Cut(ToBits(b, 8), i, t)) == Shr(Low(b, 8 - i), 8 - i - t)
    ensures Val(Cut(ToBits(b, 8), i, t)) == Low(Shr(b, 8 - i - t), t)
  {
    hide Pow2, ToBits, Val, Shr, Low;
    var d := 8 - i - t;
    var x := Shr(b, d);
    ToBitsSplit(b, i + t, d);
    ToBitsSplit(x, i, t);
    ThreeParts(ToBits(b, 8), ToBits(Shr(x, t), i), ToBits(x, t), ToBits(b, d));
    ValOfToBits(x, t);
    ShrShr(b, d, t);
  }

  /** Writing the low `t` bits of `v` into an `n`-bit number, `s` bits from the right. */
  lemma PutBits(b: nat, n: nat, s: nat, t: nat, v: int)
    requires s + t <= n && b < Pow2(n)
    ensures var c := Cleared(b, s, t) + Low(v, t) * Pow2(s);
      && 0 <= c < Pow2(n)
      && ToBits(c, n) == ToBits(b, n)[..n - s - t] + ToBits(v, t) + ToBits(b, n)[n - s..]
  {
    hide Pow2, ToBits, Val, Shr, Low, Cleared;
    var u := n - s - t;
    var top := ToBits(Shr(Shr(b, s), t), u);
    ThreeFields(b, u, t, s);
    var x := top + ToBits(v, t) + ToBits(b, s);
    assert Val(x) == (Val(top) * Pow2(t) + Low(v, t)) * Pow2(s) + Low(b, s) by {
      ValConcat(top + ToBits(v, t), ToBits(b, s));
      ValConcat(top, ToBits(v, t));
      ValOfToBits(v, t);
      ValOfToBits(b, s);
    }
    PutArith(b, s, t, Low(v, t));
    ToBitsOfVal(x);
  }

  /** The bits of a number cut into three, and the value of the first part. */
  lemma ThreeFields(b: nat, u: nat, t: nat, s: nat)
    requires b < Pow2(u + t + s)
    ensures var top := ToBits(Shr(Shr(b, s), t), u);
      && ToBits(b, u + t + s)[..u] == top
      && ToBits(b, u + t + s)[u + t..] == ToBits(b, s)
      && Val(top) == Shr(Shr(b, s), t)
  {
    hide Pow2, ToBits, Val, Shr, Low;
    var q := Shr(b, s);
    ToBitsSplit(b, u + t, s);
    ToBitsSplit(q, u, t);
    ThreeParts(ToBits(b, u + t + s), ToBits(Shr(q, t), u), ToBits(q, t), ToBits(b, s));
    QuotientFits(b, u + t, s);
    QuotientFits(q, u, t);
    ValOfToBitsExact(Shr(q, t), u);
  }

  lemma QuotientFits(b: nat, m: nat, k: nat)
    requires b < Pow2(m + k)
    ensures 0 <= Shr(b, k) < Pow2(m)
  {
    Pow2Add(m, k);
    QuotientBound(b, Pow2(m), Pow2(k));
  }

  lemma PutArith(b: nat, s: nat, t: nat, m: int)
    ensures Cleared(b, s, t) + m * Pow2(s) == (Shr(Shr(b, s), t) * Pow2(t) + m) * Pow2(s) + Low(b, s)
  {
    var q, lo, hi, mid := Shr(b, s), Low(b, s), Shr(Shr(b, s), t), Low(Shr(b, s), t);
    ShrLow(b, s);
    ShrLow(q, t);
    hide Pow2, Shr, Low;
    Distribute(hi * Pow2(t), mid, Pow2(s));
    Distribute(hi * Pow2(t), m, Pow2(s));
  }

  lemma ShrLow(v: int, k: nat)
    ensures v == Shr(v, k) * Pow2(k) + Low(v, k)
  {
  }

  lemma Distribute(a: int, b: int, c: int)
    ensures (a + b) * c == a * c + b * c
  {
  }

  lemma SpliceInside(b: bits, i: nat, m: nat, x: bits)
    requires 8 * i + 8 <= |b| && m + |x| <= 8
    ensures Splice(b, 8 * i, b[8 * i..8 * i + 8][..m] + x + b[8 * i..8 * i + 8][m + |x|..])
         == Splice(b, 8 * i + m, x)
  {
    hide Pow2;
  }

  /** Replaces `t` bits of one byte. */
  lemma PutInBuffer(s: seq<byte>, i: nat, sh: nat, t: nat, v: int)
    requires i < |s| && sh + t <= 8
    ensures 0 <= Cleared(s[i], sh, t) + Low(v, t) * Pow2(sh) < 256
    ensures BitsOf(s[i := Cleared(s[i], sh, t) + Low(v, t) * Pow2(sh)])
         == Splice(BitsOf(s), 8 * i + 8 - sh - t, ToBits(v, t))
  {
    hide Shr, Low, Cleared, ToBits, Val, BitsOf;
    assert Pow2(8) == 256;
    PutBits(s[i], 8, sh, t, v);
    BitsOfUpdate(s, i, Cleared(s[i], sh, t) + Low(v, t) * Pow2(sh));
    BitsOfByte(s, i);
    SpliceInside(BitsOf(s), i, 8 - sh - t, ToBits(v, t));
  }

  // ---- the two loops of gbits.c ----

  method PutByte(out: array<byte>, index: nat, sh: nat, t: nat, v: int)
    requires index < out.Length && sh + t <= 8
    modifies out
    ensures BitsOf(out[..]) == Splice(old(BitsOf(out[..])), 8 * index + 8 - sh - t, ToBits(v, t))
  {
    hide Pow2, Shr, Low, ToBits, Val, BitsOf, Cleared;
    PutInBuffer(out[..], index, sh, t, v);
    ghost var before := out[..];
    var b := Cleared(out[index], sh, t) + Low(v, t) * Pow2(sh);
    out[index] := b;
    assert out[..] == before[index := b];
  }

  /** One pass of the loop of `sbits`: stores the low `w` bits of `v` at bit `p`, from the
      rightmost byte to the left. */
  method StoreField(out: array<byte>, v: int, p: nat, w: nat)
    requires w >= 1 && p + w <= 8 * out.Length
    modifies out
    ensures BitsOf(out[..]) == Splice(old(BitsOf(out[..])), p, ToBits(v, w))
  {
    hide Pow2, Shr, Low, ToBits, Val, BitsOf, Splice, Stored;
    var nbit := p + w - 1;
    var itmp, bitcnt := v, w;
    var index, ibit := nbit / 8, nbit % 8;
    ghost var start := BitsOf(out[..]);
    StoredNothing(start, out[..], p, w, v);
    if ibit != 7 {
      var tbit := if bitcnt < ibit + 1 then bitcnt else ibit + 1;
      ghost var before := out[..];
      PutByte(out, index, 7 - ibit, tbit, itmp);
      Widen(start, before, out[..], p, bitcnt, v, w, itmp, tbit);
      bitcnt := bitcnt - tbit;
      itmp := Shr(itmp, tbit);
      index := index - 1;
    }
    while bitcnt >= 8
      invariant 0 <= bitcnt <= w
      invariant bitcnt > 0 ==> p + bitcnt == 8 * (index + 1)
      invariant Stored(start, out[..], p, bitcnt, v, w, itmp)
    {
      ghost var before := out[..];
      PutByte(out, index, 0, 8, itmp);
      Widen(start, before, out[..], p, bitcnt, v, w, itmp, 8);
      itmp := Shr(itmp, 8);
      bitcnt := bitcnt - 8;
      index := index - 1;
    }
    if bitcnt > 0 {
      ghost var before := out[..];
      PutByte(out, index, 0, bitcnt, itmp);
      Widen(start, before, out[..], p, bitcnt, v, w, itmp, bitcnt);
    }
    StoredAll(start, out[..], p, w, v);
  }

  lemma StoredNothing(start: bits, now: seq<byte>, p: nat, w: nat, v: int)
    requires p + w <= |start| && BitsOf(now) == start
    ensures Stored(start, now, p, w, v, w, v)
  {
  }

  lemma StoredAll(start: bits, now: seq<byte>, p: nat, w: nat, v: int)
    requires p + w <= |start|
    ensures (exists rest :: Stored(start, now, p, 0, v, w, rest)) ==> BitsOf(now) == Splice(start, p, ToBits(v, w))
  {
    hide Pow2, ToBits, BitsOf, Splice;
  }

  /** All but the highest `left` bits of the field are in place, and `rest` holds those. */
  ghost predicate Stored(start: bits, now: seq<byte>, p: nat, left: nat, v: int, w: nat, rest: int)
    requires left <= w && p + w <= |start|
  {
    hide Pow2, Shr, Low, ToBits, Val, BitsOf, Splice;
    && rest == Shr(v, w - left)
    && BitsOf(now) == Splice(start, p + left, ToBits(v, w - left))
  }

  /** Storing `t` more bits to the left of the low bits already stored. */
  lemma Widen(start: bits, before: seq<byte>, now: seq<byte>, p: nat, left: nat, v: int, w: nat, rest: int, t: nat)
    requires t <= left <= w && p + w <= |start|
    requires Stored(start, before, p, left, v, w, rest)
    requires BitsOf(now) == Splice(BitsOf(before), p + left - t, ToBits(rest, t))
    ensures Stored(start, now, p, left - t, v, w, Shr(rest, t))
  {
    hide Pow2, Shr, Low, ToBits, Val, BitsOf, Splice;
    var done, q := w - left, p + left - t;
    ToBitsSplit(v, t, done);
    ShrShr(v, done, t);
    assert w - (left - t) == done + t;
    SpliceLeft(start, q, ToBits(rest, t), ToBits(v, done), q + t);
    assert BitsOf(now) == Splice(start, q, ToBits(v, t + done));
  }

  lemma SpliceLeft(b: bits, p: nat, x: bits, y: bits, q: nat)
    requires q == p + |x| && q + |y| <= |b|
    ensures Splice(Splice(b, q, y), p, x) == Splice(b, p, x + y)
  {
  }

  /** sbits: packs the low `nbyte` bits of each value, `nskip` bits apart. */
  method Sbits(out: array<byte>, vals: seq<int>, iskip: nat, nbyte: nat, nskip: nat)
    requires nbyte >= 1
    requires Within(iskip, nbyte, nskip, |vals|, 8 * out.Length)
    modifies out
    ensures BitsOf(out[..]) == StoreAll(old(BitsOf(out[..])), vals, iskip, nbyte, nskip)
  {
    hide Pow2, Shr, Low, ToBits, Val, BitsOf, Splice;
    ghost var start := BitsOf(out[..]);
    var nbit := iskip;
    for i := 0 to |vals|
      invariant nbit == FieldAt(iskip, nbyte, nskip, i)
      invariant Within(iskip, nbyte, nskip, i, |start|)
      invariant BitsOf(out[..]) == StoreAll(start, vals[..i], iskip, nbyte, nskip)
    {
      FieldsInOrder(iskip, nbyte, nskip, i, |vals| - 1);
      assert vals[..i + 1][..i] == vals[..i];
      StoreField(out, vals[i], nbit, nbyte);
      nbit := nbit + nbyte + nskip;
    }
    assert vals[..|vals|] == vals;
  }

  /** One pass of the loop of `gbits`: reads `w` bits from bit `p`, left to right. */
  method LoadField(inp: array<byte>, p: nat, w: nat) returns (itmp: int)
    requires w >= 1 && p + w <= 8 * inp.Length
    ensures itmp == Val(Cut(BitsOf(inp[..]), p, w))
  {
    hide Pow2, Shr, Low, ToBits, Val, BitsOf;
    var bitcnt := w;
    var index, ibit := p / 8, p % 8;
    var tbit := if bitcnt < 8 - ibit then bitcnt else 8 - ibit;
    FirstBits(inp[..], p, index, ibit, tbit);
    itmp := Low(inp[index], 8 - ibit);
    if tbit != 8 - ibit {
      itmp := Shr(itmp, 8 - ibit - tbit);
    } else {
      ShrZero(itmp);
    }
    index := index + 1;
    bitcnt := bitcnt - tbit;
    while bitcnt >= 8
      invariant 0 <= bitcnt <= w
      invariant bitcnt > 0 ==> p + w - bitcnt == 8 * index
      invariant itmp == Val(Cut(BitsOf(inp[..]), p, w - bitcnt))
    {
      NextBits(inp[..], p, w - bitcnt, index, 8);
      WholeByte(inp[index]);
      itmp := itmp * Pow2(8) + inp[index];
      bitcnt := bitcnt - 8;
      index := index + 1;
    }
    if bitcnt > 0 {
      NextBits(inp[..], p, w - bitcnt, index, bitcnt);
      itmp := itmp * Pow2(bitcnt) + Low(Shr(inp[index], 8 - bitcnt), bitcnt);
    }
  }

  lemma ShrZero(v: int)
    ensures Shr(v, 0) == v
  {
  }

  lemma WholeByte(b: byte)
    ensures Low(Shr(b, 0), 8) == b && Shr(Low(b, 8), 0) == b
  {
    assert Pow2(8) == 256;
  }

  lemma FirstBits(s: seq<byte>, p: nat, i: nat, from: nat, t: nat)
    requires i < |s| && from + t <= 8 && p == 8 * i + from
    ensures Val(Cut(BitsOf(s), p, t)) == Shr(Low(s[i], 8 - from), 8 - from - t)
    ensures Val(Cut(BitsOf(s), p, t)) == Low(Shr(s[i], 8 - from - t), t)
  {
    hide Pow2, Shr, Low, ToBits, Val, BitsOf, Cut;
    PartOfByte(s[i], from, t);
    OctetOf(s, i);
    CutOfCut(BitsOf(s), 8 * i, 8, from, t);
  }

  lemma OctetOf(s: seq<byte>, i: nat)
    requires i < |s|
    ensures Cut(BitsOf(s), 8 * i, 8) == ToBits(s[i], 8)
  {
    hide ToBits, BitsOf;
    BitsOfByte(s, i);
  }

  lemma CutOfCut(b: bits, p: nat, w: nat, i: nat, t: nat)
    requires p + w <= |b| && i + t <= w
    ensures Cut(Cut(b, p, w), i, t) == Cut(b, p + i, t)
  {
    var x, y := Cut(Cut(b, p, w), i, t), Cut(b, p + i, t);
    forall k | 0 <= k < t ensures x[k] == y[k] {
      assert x[k] == Cut(b, p, w)[i + k] == b[p + (i + k)];
    }
  }

  lemma NextBits(s: seq<byte>, p: nat, done: nat, i: nat, t: nat)
    requires i < |s| && p + done == 8 * i && t <= 8
    ensures Val(Cut(BitsOf(s), p, done + t)) == Val(Cut(BitsOf(s), p, done)) * Pow2(t) + Low(Shr(s[i], 8 - t), t)
  {
    hide Pow2, Shr, Low, ToBits, Val, BitsOf, Cut;
    FirstBits(s, 8 * i, i, 0, t);
    CutJoin(BitsOf(s), p, done, t);
    ValConcat(Cut(BitsOf(s), p, done), Cut(BitsOf(s), p + done, t));
  }

  lemma CutJoin(b: bits, p: nat, v: nat, w: nat)
    requires p + v + w <= |b|
    ensures Cut(b, p, v) + Cut(b, p + v, w) == Cut(b, p, v + w)
  {
  }

  /** gbits: unpacks `n` fields into `iout` from index `at` on. */
  method Gbits(inp: array<byte>, iout: array<int>, at: nat, iskip: nat, nbyte: nat, nskip: nat, n: nat)
    requires nbyte >= 1 && at + n <= iout.Length
    requires Within(iskip, nbyte, nskip, n, 8 * inp.Length)
    modifies iout
    ensures iout[..] == old(iout[..at]) + LoadAll(BitsOf(inp[..]), iskip, nbyte, nskip, n) + old(iout[at + n..])
  {
    hide Pow2, Shr, Low, ToBits, Val, BitsOf;
    ghost var b := BitsOf(inp[..]);
    ghost var before := iout[..];
    var nbit := iskip;
    for i := 0 to n
      invariant nbit == FieldAt(iskip, nbyte, nskip, i)
      invariant Within(iskip, nbyte, nskip, i, |b|)
      invariant iout[..] == before[..at] + LoadAll(b, iskip, nbyte, nskip, i) + before[at + i..]
    {
      FieldsInOrder(iskip, nbyte, nskip, i, n - 1);
      var v := LoadField(inp, nbit, nbyte);
      iout[at + i] := v;
      nbit := nbit + nbyte + nskip;
    }
  }

  // ---- what the two promise together ----

  lemma {:induction false} FieldsInOrder(p: nat, w: nat, skip: nat, i: nat, j: nat)
    requires i <= j
    ensures FieldAt(p, w, skip, i) <= FieldAt(p, w, skip, j)
    ensures i < j ==> FieldAt(p, w, skip, i) + w + skip <= FieldAt(p, w, skip, j)
    decreases j
  {
    if i < j { FieldsInOrder(p, w, skip, i, j - 1); }
  }

  ghost predicate InSomeField(k: int, p: nat, w: nat, skip: nat, n: nat) {
    exists i :: 0 <= i < n && FieldAt(p, w, skip, i) <= k < FieldAt(p, w, skip, i) + w
  }

  /** Every stored field reads back as its value modulo 2^w. */
  lemma {:induction false} StoreThenLoad(b: bits, vals: seq<int>, p: nat, w: nat, skip: nat)
    requires Within(p, w, skip, |vals|, |b|)
    ensures forall i :: 0 <= i < |vals| ==>
      LoadAll(StoreAll(b, vals, p, w, skip), p, w, skip, |vals|)[i] == Low(vals[i], w)
  {
    hide Pow2, ToBits, Val;
    if |vals| > 0 {
      var n := |vals| - 1;
      FieldsInOrder(p, w, skip, if n > 0 then n - 1 else 0, n);
      StoreThenLoad(b, vals[..n], p, w, skip);
      var q := FieldAt(p, w, skip, n);
      var r', r := StoreAll(b, vals[..n], p, w, skip), StoreAll(b, vals, p, w, skip);
      assert Cut(r, q, w) == ToBits(vals[n], w);
      ValOfToBits(vals[n], w);
      LoadLocal(r', r, p, w, skip, n, q);
    }
  }

  /** Every bit outside the stored fields keeps its old value. */
  lemma {:induction false} StoreKeepsTheRest(b: bits, vals: seq<int>, p: nat, w: nat, skip: nat, k: nat)
    requires Within(p, w, skip, |vals|, |b|)
    requires k < |b| && !InSomeField(k, p, w, skip, |vals|)
    ensures StoreAll(b, vals, p, w, skip)[k] == b[k]
  {
    hide Pow2, ToBits, Val;
    if |vals| > 0 {
      var n := |vals| - 1;
      FieldsInOrder(p, w, skip, if n > 0 then n - 1 else 0, n);
      StoreKeepsTheRest(b, vals[..n], p, w, skip, k);
      var q := FieldAt(p, w, skip, n);
      assert !(q <= k < q + w);
    }
  }

  /** Loading looks only at the bits of its fields. */
  lemma {:induction false} LoadLocal(b: bits, c: bits, p: nat, w: nat, skip: nat, n: nat, end: nat)
    requires end <= |b| && end <= |c| && b[..end] == c[..end]
    requires Within(p, w, skip, n, end)
    ensures LoadAll(b, p, w, skip, n) == LoadAll(c, p, w, skip, n)
  {
    if n > 0 {
      FieldsInOrder(p, w, skip, if n > 1 then n - 2 else 0, n - 1);
      LoadLocal(b, c, p, w, skip, n - 1, end);
      var q := FieldAt(p, w, skip, n - 1);
      SamePrefix(b, c, q, w, end);
    }
  }

  lemma SamePrefix(b: bits, c: bits, p: nat, w: nat, end: nat)
    requires p + w <= end <= |b| && end <= |c| && b[..end] == c[..end]
    ensures Cut(b, p, w) == Cut(c, p, w)
  {
    forall k | p <= k < p + w ensures b[k] == c[k] {
      assert b[k] == b[..end][k] && c[k] == c[..end][k];
    }
  }
}
