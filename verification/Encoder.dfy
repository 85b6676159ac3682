/** The steps that the two encoders of complex packing share: g2/compack.c and g2/misspack.c
    contain them word for word.  Each method appends to a bit string; `x` is what it holds so
    far, so that the whole is the stream that `Packing.Plan` describes. */
module Encoder {
  import opened Binary
  import opened BitFields
  import opened Packing
  import opened Groups
  import opened Reduce
  import opened PackGp

  ghost predicate Holds(cpack: array<byte>, x: bits)
    reads cpack
  {
    At(BitsOf(cpack[..]), 0, x)
  }

  lemma AtSplice(b: bits, x: bits, y: bits)
    requires At(b, 0, x) && |x| + |y| <= |b|
    ensures At(Splice(b, |x|, y), 0, x + y)
  {
  }

  // ---- writing ----

  /** `sbits` behind what is there. */
  method PutFields(cpack: array<byte>, vals: seq<int>, w: nat, iofst: nat, ghost x: bits)
    requires w >= 1 && iofst == |x| && Holds(cpack, x) && iofst + w * |vals| <= 8 * cpack.Length
    modifies cpack
    ensures Holds(cpack, x + Fields(vals, w))
  {
    hide BitsOf, Fields, StoreAll, At;
    WithinProduct(iofst, w, |vals|, 8 * cpack.Length);
    ghost var b := BitsOf(cpack[..]);
    StoreIsFields(b, vals, iofst, w);
    AtSplice(b, x, Fields(vals, w));
    Sbits(cpack, vals, iofst, w, 0);
  }

  /** `sbit` behind what is there. */
  method PutOne(cpack: array<byte>, v: int, w: nat, iofst: nat, ghost x: bits)
    requires w >= 1 && iofst == |x| && Holds(cpack, x) && iofst + w <= 8 * cpack.Length
    modifies cpack
    ensures Holds(cpack, x + ToBits(v, w))
  {
    hide BitsOf, ToBits, At;
    AtSplice(BitsOf(cpack[..]), x, ToBits(v, w));
    StoreField(cpack, v, iofst, w);
  }

  /** Fills up to a whole octet after `itemp` bits. */
  method PutPadding(cpack: array<byte>, itemp: nat, iofst: nat, ghost x: bits) returns (next: nat)
    requires iofst == |x| && Holds(cpack, x) && iofst + (Pad8(itemp) - itemp) <= 8 * cpack.Length
    modifies cpack
    ensures next == iofst + (Pad8(itemp) - itemp) && Holds(cpack, x + Zeros(Pad8(itemp) - itemp))
  {
    hide BitsOf, ToBits, At;
    next := iofst;
    if itemp % 8 != 0 {
      var left := 8 - itemp % 8;
      PutOne(cpack, 0, left, iofst, x);
      ValZeros(left);
      next := next + left;
    } else {
      assert x + Zeros(0) == x;
    }
  }

  /** One number for every group, and the padding. */
  method PutSection(cpack: array<byte>, vals: seq<int>, nb: nat, iofst: nat, ghost x: bits) returns (next: nat)
    requires nb >= 1 && iofst == |x| && Holds(cpack, x) && iofst + SectionSize(nb, |vals|) <= 8 * cpack.Length
    modifies cpack
    ensures next == iofst + SectionSize(nb, |vals|) && Holds(cpack, x + Section(vals, nb))
  {
    hide At, Fields, Pad8, Holds;
    var itemp := nb * |vals|;
    PutFields(cpack, vals, nb, iofst, x);
    next := PutPadding(cpack, itemp, iofst + itemp, x + Fields(vals, nb));
    assert x + Fields(vals, nb) + Zeros(Pad8(itemp) - itemp) == x + Section(vals, nb);
  }

  /** A sign bit and a magnitude; numbers that are not negative go out in one piece. */
  method PutSigned(cpack: array<byte>, v: int, n: nat, iofst: nat, ghost x: bits) returns (next: nat)
    requires n >= 2 && iofst == |x| && Holds(cpack, x) && iofst + n <= 8 * cpack.Length
    requires v < Pow2(n - 1)
    modifies cpack
    ensures next == iofst + n && Holds(cpack, x + SignedBits(v, n))
  {
    hide ToBits, Pow2, Holds;
    if v >= 0 {
      PutOne(cpack, v, n, iofst, x);
      NoSign(v, n);
      next := iofst + n;
    } else {
      PutOne(cpack, 1, 1, iofst, x);
      OneBit();
      PutOne(cpack, -v, n - 1, iofst + 1, x + [true]);
      assert x + [true] + ToBits(-v, n - 1) == x + SignedBits(v, n);
      next := iofst + 1 + (n - 1);
    }
  }

  lemma OneBit()
    ensures ToBits(1, 1) == [true]
  {
    assert ToBits(0, 0) == [];
  }

  lemma NoSign(v: int, n: nat)
    requires n >= 1 && 0 <= v < Pow2(n - 1)
    ensures ToBits(v, n) == SignedBits(v, n)
  {
    hide Pow2, ToBits;
    ToBitsSplit(v, 1, n - 1);
    DivUnique(v, Pow2(n - 1), 0, v);
    ValZeros(1);
    assert Zeros(1) == [false];
  }

  // ---- spatial differences ----

  function HeadBits(order: int, ival1: int, ival2: int, minsd: int, nbitsd: nat): (b: bits)
    requires nbitsd >= 1
    ensures |b| == if order == 2 then nbitsd + nbitsd + nbitsd else nbitsd + nbitsd
  {
    if order == 2 then SignedBits(ival1, nbitsd) + SignedBits(ival2, nbitsd) + SignedBits(minsd, nbitsd)
    else SignedBits(ival1, nbitsd) + SignedBits(minsd, nbitsd)
  }

  predicate FitsSigned(v: int, n: nat)
    requires n >= 1
  {
    -Pow2(n - 1) < v < Pow2(n - 1)
  }

  lemma HeadRead(b: bits, p: Params, ival1: int, ival2: int, minsd: int)
    requires p.Valid() && p.diff && p.nbitsd >= 1 && At(b, 0, HeadBits(p.order, ival1, ival2, minsd, p.nbitsd))
    requires FitsSigned(ival1, p.nbitsd) && FitsSigned(minsd, p.nbitsd)
    requires if p.order == 2 then FitsSigned(ival2, p.nbitsd) else ival2 == 0
    ensures p.HeadSize() <= |b| && Head(b, p) == (ival1, ival2, minsd)
  {
    hide At, SignedBits, SignedAt, Pow2;
    var n := p.nbitsd;
    AtFits(b, 0, HeadBits(p.order, ival1, ival2, minsd, n));
    if p.order == 2 {
      AtParts(b, 0, SignedBits(ival1, n) + SignedBits(ival2, n), SignedBits(minsd, n));
      AtParts(b, 0, SignedBits(ival1, n), SignedBits(ival2, n));
      SignedRead(b, n, ival2, n);
    } else {
      AtParts(b, 0, SignedBits(ival1, n), SignedBits(minsd, n));
    }
    SignedRead(b, 0, ival1, n);
    SignedRead(b, p.HeadSize() - n, minsd, n);
  }

  /** Writes the differencing header (compack.c, lines 170-209; misspack.c, lines 214-253). */
  method PutHead(cpack: array<byte>, order: int, ival1: int, ival2: int, minsd: int, nbitsd: nat) returns (iofst: nat)
    requires nbitsd >= 2 && FitsSigned(ival1, nbitsd) && FitsSigned(minsd, nbitsd)
    requires order == 2 ==> FitsSigned(ival2, nbitsd)
    requires 3 * nbitsd <= 8 * cpack.Length
    modifies cpack
    ensures Holds(cpack, HeadBits(order, ival1, ival2, minsd, nbitsd))
    ensures iofst == |HeadBits(order, ival1, ival2, minsd, nbitsd)|
  {
    hide Holds, SignedBits, Pow2;
    HoldsNothing(cpack);
    iofst := PutSigned(cpack, ival1, nbitsd, 0, []);
    assert [] + SignedBits(ival1, nbitsd) == SignedBits(ival1, nbitsd);
    ghost var x := SignedBits(ival1, nbitsd);
    if order == 2 {
      iofst := PutSigned(cpack, ival2, nbitsd, iofst, x);
      x := x + SignedBits(ival2, nbitsd);
    }
    iofst := PutSigned(cpack, minsd, nbitsd, iofst, x);
  }

  lemma HoldsNothing(cpack: array<byte>)
    ensures Holds(cpack, [])
  {
  }

  method WholeOctets(n: nat) returns (r: nat)
    requires n >= 1
    ensures n <= r < n + 8 && r % 8 == 0 && r >= 8 && (n <= 32 ==> r <= 32)
  {
    r := n;
    if r % 8 != 0 {
      r := r + (8 - r % 8);
    }
  }

  /** The number of bits of the header fields: enough for `minsd` and the first values with
      their signs, in as few whole octets as will do. */
  method HeadWidth(order: int, ival1: int, ival2: int, minsd: int) returns (nbitsd: nat)
    requires 0 <= ival1 && (order == 2 ==> 0 <= ival2)
    ensures nbitsd >= 8 && nbitsd % 8 == 0
    ensures FitsSigned(ival1, nbitsd) && FitsSigned(minsd, nbitsd) && (order == 2 ==> FitsSigned(ival2, nbitsd))
    ensures nbitsd > 8 ==> var n := nbitsd - 8;
      !FitsSigned(ival1, n) || !FitsSigned(minsd, n) || (order == 2 && !FitsSigned(ival2, n))
    ensures -2147483648 < minsd < 2147483648 && ival1 < 2147483648 && ival2 < 2147483648 ==> nbitsd <= 32
  {
    hide Pow2, FitsSigned, BitLen;
    nbitsd := BitLen(Abs(minsd)) + 1;
    var maxorig := if order == 2 && ival2 > ival1 then ival2 else ival1;
    var nbitorig := BitLen(maxorig) + 1;
    FewBits(minsd);
    FewBits(maxorig);
    if nbitorig > nbitsd {
      nbitsd := nbitorig;
    }
    ghost var bits, most := nbitsd, if nbitorig > BitLen(Abs(minsd)) + 1 then maxorig else minsd;
    nbitsd := WholeOctets(nbitsd);
    if nbitsd > 8 {
      NarrowerFails(most, nbitsd - 8);
    }
    FitsWidth(minsd, minsd, nbitsd);
    FitsWidth(ival1, maxorig, nbitsd);
    if order == 2 {
      FitsWidth(ival2, maxorig, nbitsd);
    }
  }

  function Abs(v: int): nat { if v < 0 then -v else v }

  lemma FitsWidth(v: int, m: int, n: nat)
    requires Abs(v) <= Abs(m) && BitLen(Abs(m)) + 1 <= n
    ensures FitsSigned(v, n)
  {
    Pow2Mono(BitLen(Abs(m)), n - 1);
  }

  lemma NarrowerFails(v: int, n: nat)
    requires 1 <= n <= BitLen(Abs(v))
    ensures !FitsSigned(v, n)
  {
    Pow2Mono(n - 1, BitLen(Abs(v)) - 1);
  }

  lemma FewBits(v: int)
    ensures -2147483648 < v < 2147483648 ==> BitLen(Abs(v)) <= 31
  {
    hide Pow2, BitLen;
    Pow2Of31();
    if -2147483648 < v < 2147483648 {
      BitLenAtMost(Abs(v), 31);
    }
  }

  lemma Pow2Of31()
    ensures Pow2(31) == 2147483648
  {
    Pow2Of30();
  }

  /** No two differences lie `limit` or more apart. */
  ghost predicate SpreadBelow(order: nat, vs: seq<int>, limit: int)
    requires order == 1 || order == 2
  {
    forall j, k :: order <= j < |vs| && order <= k < |vs| ==>
      Difference(order, vs, j) - Difference(order, vs, k) < limit
  }

  /** Takes the differences in place, from the last value to the first, and lowers them by
      the least one (compack.c, lines 128-148; misspack.c, lines 172-192). */
  method TakeDifferences(a: array<int>, n: nat, order: nat, ghost limit: int)
    returns (ival1: int, ival2: int, minsd: int)
    requires (order == 1 || order == 2) && 1 <= n <= a.Length && order < a.Length
    requires forall k :: n <= k < a.Length ==> a[k] == 0
    requires SpreadBelow(order, a[..n], limit) && limit > 0
    modifies a
    ensures IsDifferenced(order, old(a[..n]), ival1, ival2, minsd, a[..n])
    ensures order != 2 ==> ival2 == 0
    ensures ival1 == old(a[0]) && (order == 2 ==> ival2 == old(a[1]))
    ensures forall k :: 0 <= k < n ==> 0 <= a[k] < limit
    ensures forall k :: n <= k < a.Length ==> a[k] == 0
    ensures if n <= order then minsd == 0 else exists k :: order <= k < n && minsd == Difference(order, old(a[..n]), k)
  {
    hide Difference;
    ghost var vs := a[..n];
    ival1, ival2 := a[0], if order == 2 then a[1] else 0;
    DifferencesInPlace(a, n, order);
    minsd := LeastDifference(a, n, order);
    ghost var ds := a[..n];
    for j := order to Larger(n, order)
      invariant forall k :: 0 <= k < order && k < a.Length ==> a[k] == 0
      invariant forall k :: order <= k < n ==> a[k] == ds[k] - (if k < j then minsd else 0)
      invariant forall k :: order <= k < a.Length && n <= k ==> a[k] == 0
    {
      a[j] := a[j] - minsd;
    }
    Lowered(order, vs, ds, minsd, a[..n], limit);
  }

  lemma Lowered(order: nat, vs: seq<int>, ds: seq<int>, minsd: int, xs: seq<int>, limit: int)
    requires (order == 1 || order == 2) && |vs| == |ds| == |xs| && SpreadBelow(order, vs, limit) && limit > 0
    requires forall k :: 0 <= k < |xs| ==> xs[k] == if k < order then 0 else ds[k] - minsd
    requires forall k :: order <= k < |vs| ==> ds[k] == Difference(order, vs, k) && minsd <= ds[k]
    requires |vs| > order ==> exists k :: order <= k < |vs| && minsd == ds[k]
    ensures forall k :: order <= k < |vs| ==> xs[k] == Difference(order, vs, k) - minsd
    ensures forall k :: 0 <= k < |xs| ==> 0 <= xs[k] < limit
    ensures |vs| > order ==> exists k :: order <= k < |vs| && minsd == Difference(order, vs, k)
  {
    hide Difference;
    if |vs| > order {
      var least :| order <= least < |vs| && minsd == ds[least];
      forall k | order <= k < |vs| ensures xs[k] < limit {
        assert Difference(order, vs, k) - Difference(order, vs, least) < limit;
      }
    }
  }

  function Larger(a: nat, b: nat): nat { if a > b then a else b }

  method DifferencesInPlace(a: array<int>, n: nat, order: nat)
    requires (order == 1 || order == 2) && 1 <= n <= a.Length && order < a.Length
    requires forall k :: n <= k < a.Length ==> a[k] == 0
    modifies a
    ensures forall k :: 0 <= k < order ==> a[k] == 0
    ensures forall k :: order <= k < n ==> a[k] == Difference(order, old(a[..n]), k)
    ensures forall k :: n <= k < a.Length ==> a[k] == 0
  {
    hide Difference;
    ghost var vs := a[..n];
    var j: int := n - 1;
    while j >= order
      invariant j < n
      invariant forall k :: 0 <= k < a.Length && k <= j ==> a[k] == vs[k]
      invariant forall k :: j < k < n && order <= k ==> a[k] == Difference(order, vs, k)
      invariant forall k :: 0 <= k < n && k < order ==> a[k] == vs[k]
      invariant forall k :: n <= k < a.Length ==> a[k] == 0
    {
      DifferenceIs(order, vs, j);
      a[j] := if order == 1 then a[j] - a[j - 1] else a[j] - (2 * a[j - 1]) + a[j - 2];
      j := j - 1;
    }
    a[0] := 0;
    if order == 2 {
      a[1] := 0;
    }
  }

  lemma DifferenceIs(order: nat, vs: seq<int>, k: nat)
    requires (order == 1 || order == 2) && order <= k < |vs|
    ensures Difference(order, vs, k) ==
      if order == 1 then vs[k] - vs[k - 1] else vs[k] - (2 * vs[k - 1]) + vs[k - 2]
  {
  }

  method LeastDifference(a: array<int>, n: nat, order: nat) returns (minsd: int)
    requires n <= a.Length && order < a.Length
    ensures forall k :: order <= k < n ==> minsd <= a[k]
    ensures if n <= order then minsd == a[order] else exists k :: order <= k < n && minsd == a[k]
  {
    minsd := a[order];
    for j := order to Larger(n, order)
      invariant forall k :: order <= k < j ==> minsd <= a[k]
      invariant minsd == a[order] || exists k :: order <= k < j && minsd == a[k]
    {
      if a[j] < minsd {
        minsd := a[j];
      }
    }
  }

  // ---- group widths and lengths, and the data ----

  method LeastAndGreatest(a: array<int>, count: nat) returns (least: int, greatest: int)
    requires a.Length > 0 && count <= a.Length
    ensures least <= a[0] <= greatest && forall k :: 0 <= k < count ==> least <= a[k] <= greatest
    ensures exists k :: 0 <= k < a.Length && least == a[k]
    ensures exists k :: 0 <= k < a.Length && greatest == a[k]
  {
    greatest, least := a[0], a[0];
    for j := 1 to Larger(count, 1)
      invariant least <= a[0] <= greatest && forall k :: 0 <= k < j ==> least <= a[k] <= greatest
      invariant (exists k :: 0 <= k < a.Length && least == a[k]) && exists k :: 0 <= k < a.Length && greatest == a[k]
    {
      if a[j] > greatest { greatest := a[j]; }
      if a[j] < least { least := a[j]; }
    }
  }

  method Subtract(a: array<int>, count: nat, ref: int)
    requires count <= a.Length
    modifies a
    ensures forall k :: 0 <= k < a.Length ==> a[k] == if k < count then old(a[k]) - ref else old(a[k])
  {
    for i := 0 to count
      invariant forall k :: 0 <= k < a.Length ==> a[k] == if k < i then old(a[k]) - ref else old(a[k])
    {
      a[i] := a[i] - ref;
    }
  }

  method SetZero(a: array<int>)
    modifies a
    ensures forall k :: 0 <= k < a.Length ==> a[k] == 0
  {
    for i := 0 to a.Length
      invariant forall k :: 0 <= k < i ==> a[k] == 0
    {
      a[i] := 0;
    }
  }

  lemma SmallSection(nb: nat, n: nat, most: nat)
    requires nb <= most
    ensures SectionSize(nb, n) <= most * n + 7
  {
    MulMono(nb, most, n);
  }

  /** Writes the group widths above their least value (compack.c, lines 304-328). */
  method PutWidths(cpack: array<byte>, gwidth: array<int>, iofst: nat, ghost x: bits)
    returns (wref: int, nbw: nat, next: nat)
    requires gwidth.Length > 0 && forall k :: 0 <= k < gwidth.Length ==> 0 <= gwidth[k] <= 30
    requires iofst == |x| && Holds(cpack, x) && iofst + (5 * gwidth.Length + 7) <= 8 * cpack.Length
    modifies cpack, gwidth
    ensures 0 <= wref && nbw <= 5 && AllBelow(gwidth[..], nbw)
    ensures nbw > 0 ==> exists k :: 0 <= k < gwidth.Length && gwidth[k] >= Pow2(nbw - 1)
    ensures exists k :: 0 <= k < gwidth.Length && old(gwidth[k]) == wref
    ensures forall k :: 0 <= k < gwidth.Length ==> gwidth[k] == old(gwidth[k]) - wref
    ensures next == iofst + SectionSize(nbw, gwidth.Length) && Holds(cpack, x + Section(gwidth[..], nbw))
  {
    hide Holds, Section, SectionSize, Pow2, BitLen;
    var iwmax;
    wref, iwmax := LeastAndGreatest(gwidth, gwidth.Length);
    if iwmax != wref {
      nbw := BitLen(iwmax - wref);
      WidthBits(iwmax - wref);
      SmallSection(nbw, gwidth.Length, 5);
      Subtract(gwidth, gwidth.Length, wref);
      next := PutSection(cpack, gwidth[..], nbw, iofst, x);
    } else {
      nbw, next := 0, iofst;
      SetZero(gwidth);
      NoSection(gwidth[..], x);
    }
  }

  lemma WidthBits(n: nat)
    requires 0 < n <= 30
    ensures 1 <= BitLen(n) <= 5
  {
    assert Pow2(5) == 32;
    BitLenAtMost(n, 5);
  }

  lemma NoSection(vals: seq<int>, x: bits)
    ensures x + Section(vals, 0) == x && SectionSize(0, |vals|) == 0
    ensures (forall k :: 0 <= k < |vals| ==> vals[k] == 0) ==> AllBelow(vals, 0)
  {
    assert Pow2(0) == 1;
  }

  /** Writes the group lengths above their least value; the last group is left out of the
      search for the least and greatest, and its true length returned apart
      (compack.c, lines 335-359). */
  method PutLengths(cpack: array<byte>, glen: array<int>, iofst: nat, ghost x: bits)
    returns (lref: int, nbl: nat, last: int, next: nat)
    requires glen.Length > 0 && forall k :: 0 <= k < glen.Length ==> 0 <= glen[k] < 1073741824
    requires iofst == |x| && Holds(cpack, x) && iofst + (30 * glen.Length + 7) <= 8 * cpack.Length
    modifies cpack, glen
    ensures 0 <= lref && nbl <= 30 && last == old(glen[glen.Length - 1])
    ensures forall k :: 0 <= k < glen.Length - 1 ==> glen[k] == old(glen[k]) - lref && 0 <= glen[k] < Pow2(nbl)
    ensures nbl > 0 ==>
      glen[glen.Length - 1] == last && exists k :: 0 <= k < glen.Length && old(glen[k]) - lref >= Pow2(nbl - 1)
    ensures exists k :: 0 <= k < glen.Length && old(glen[k]) == lref
    ensures next == iofst + SectionSize(nbl, glen.Length) && Holds(cpack, x + Section(glen[..], nbl))
  {
    hide Holds, Section, SectionSize, Pow2, BitLen;
    var ngroups := glen.Length;
    var ilmax;
    lref, ilmax := LeastAndGreatest(glen, ngroups - 1);
    last := glen[ngroups - 1];
    if ilmax != lref {
      nbl := BitLen(ilmax - lref);
      LengthBits(ilmax - lref);
      SmallSection(nbl, ngroups, 30);
      Subtract(glen, ngroups - 1, lref);
      next := PutSection(cpack, glen[..], nbl, iofst, x);
    } else {
      nbl, next := 0, iofst;
      SetZero(glen);
      NoSection(glen[..], x);
    }
  }

  lemma LengthBits(n: nat)
    requires 0 < n < 1073741824
    ensures 1 <= BitLen(n) <= 30
  {
    Pow2Of30();
    BitsNeeded(n, 30);
  }

  lemma BitsNeeded(n: nat, w: nat)
    requires 0 < n < Pow2(w)
    ensures 1 <= BitLen(n) <= w
  {
    BitLenAtMost(n, w);
  }

  /** Writes the codes of every group in the width of the group (compack.c, lines 363-374). */
  method PutData(cpack: array<byte>, ifld: array<int>, gwidth: array<int>, wref: int, glen: array<int>, lref: int,
                 last: int,
                 start: nat, ghost x: bits, ghost widths: seq<int>, ghost lens: seq<int>)
    returns (iofst: nat)
    requires 1 <= gwidth.Length == glen.Length == |widths| == |lens| && NonNegative(widths) && NonNegative(lens)
    requires forall k :: 0 <= k < |widths| ==> gwidth[k] + wref == widths[k]
    requires last == lens[|lens| - 1] && forall k :: 0 <= k < |lens| - 1 ==> glen[k] + lref == lens[k]
    requires TotalLength(lens) == ifld.Length
    requires start == |x| && Holds(cpack, x) && start + TotalBits(widths, lens) <= 8 * cpack.Length
    modifies cpack
    ensures Holds(cpack, x + Data(widths, lens, ifld[..]))
    ensures iofst == start + TotalBits(widths, lens)
  {
    hide Holds, TotalBits, TotalLength, Data, Fields;
    var n: nat := 0;
    iofst := start;
    ghost var codes := ifld[..];
    DataNone(x, widths, lens, codes);
    for ng := 0 to glen.Length
      invariant n == TotalLength(lens[..ng]) <= ifld.Length && iofst == start + TotalBits(widths[..ng], lens[..ng])
      invariant Holds(cpack, x + Data(widths[..ng], lens[..ng], codes[..n]))
      invariant iofst == |x + Data(widths[..ng], lens[..ng], codes[..n])|
    {
      DataNext(x, widths, lens, codes, ng);
      var glength := if ng == glen.Length - 1 then last else glen[ng] + lref;
      var grpwidth := gwidth[ng] + wref;
      ghost var before := x + Data(widths[..ng], lens[..ng], codes[..n]);
      assert codes[n..n + glength] == ifld[n..n + glength];
      if grpwidth != 0 {
        PutFields(cpack, ifld[n..n + glength], grpwidth, iofst, before);
        iofst := iofst + grpwidth * glength;
      } else {
        NoFields(codes[n..n + glength], before);
      }
      n := n + glength;
    }
    DataAll(widths, lens, codes);
  }

  lemma {:induction false} NoFields(vals: seq<int>, x: bits)
    ensures x + Fields(vals, 0) == x
    decreases |vals|
  {
    if |vals| > 0 {
      NoFields(vals[..|vals| - 1], x);
    }
  }

  lemma DataNone(x: bits, widths: seq<int>, lens: seq<int>, codes: seq<int>)
    requires |widths| == |lens|
    ensures TotalLength(lens[..0]) == 0 && TotalBits(widths[..0], lens[..0]) == 0
    ensures x + Data(widths[..0], lens[..0], codes[..0]) == x
  {
  }

  lemma DataAll(widths: seq<int>, lens: seq<int>, codes: seq<int>)
    requires |widths| == |lens|
    ensures widths[..|widths|] == widths && lens[..|lens|] == lens && codes[..|codes|] == codes
  {
  }

  lemma DataNext(x: bits, widths: seq<int>, lens: seq<int>, codes: seq<int>, ng: nat)
    requires ng < |lens| == |widths| && NonNegative(widths) && NonNegative(lens) && TotalLength(lens) == |codes|
    ensures 0 <= widths[ng] * lens[ng]
    ensures 0 <= TotalLength(lens[..ng]) && TotalLength(lens[..ng + 1]) == TotalLength(lens[..ng]) + lens[ng] <= |codes|
    ensures TotalBits(widths[..ng + 1], lens[..ng + 1]) == TotalBits(widths[..ng], lens[..ng]) + widths[ng] * lens[ng]
    ensures TotalBits(widths[..ng + 1], lens[..ng + 1]) <= TotalBits(widths, lens)
    ensures var n := TotalLength(lens[..ng]);
      x + Data(widths[..ng + 1], lens[..ng + 1], codes[..n + lens[ng]])
      == x + Data(widths[..ng], lens[..ng], codes[..n]) + Fields(codes[n..n + lens[ng]], widths[ng])
  {
    hide Fields, TotalBits, TotalLength, Data;
    TotalsNext(widths, lens, ng);
    var m, n := ng + 1, TotalLength(lens[..ng]);
    var upto := codes[..n + lens[ng]];
    LastData(widths[..m], lens[..m], upto);
    assert widths[..m][..ng] == widths[..ng] && lens[..m][..ng] == lens[..ng];
    assert upto[..n] == codes[..n] && upto[n..] == codes[n..n + lens[ng]];
    Associates(x, Data(widths[..ng], lens[..ng], codes[..n]), Fields(codes[n..n + lens[ng]], widths[ng]));
  }

  lemma TotalsNext(widths: seq<int>, lens: seq<int>, ng: nat)
    requires ng < |lens| == |widths| && NonNegative(widths) && NonNegative(lens)
    ensures 0 <= widths[ng] * lens[ng] && 0 <= TotalLength(lens[..ng])
    ensures TotalLength(lens[..ng + 1]) == TotalLength(lens[..ng]) + lens[ng] <= TotalLength(lens)
    ensures TotalBits(widths[..ng + 1], lens[..ng + 1]) == TotalBits(widths[..ng], lens[..ng]) + widths[ng] * lens[ng]
    ensures TotalBits(widths[..ng + 1], lens[..ng + 1]) <= TotalBits(widths, lens)
  {
    hide TotalBits, TotalLength;
    var m := ng + 1;
    TotalsPrefix(widths, lens, ng);
    TotalsPrefix(widths, lens, m);
    LastTotals(widths[..m], lens[..m]);
    assert widths[..m][..ng] == widths[..ng] && lens[..m][..ng] == lens[..ng];
  }

  lemma {:induction false} DataBound(widths: seq<int>, lens: seq<int>, w: nat)
    requires |lens| == |widths| && NonNegative(widths) && NonNegative(lens)
    requires forall k :: 0 <= k < |widths| ==> widths[k] <= w
    ensures TotalBits(widths, lens) <= w * TotalLength(lens)
    decreases |lens|
  {
    if |lens| > 0 {
      var n := |lens| - 1;
      DataBound(widths[..n], lens[..n], w);
      MulMono(widths[n], w, lens[n]);
      assert w * TotalLength(lens) == w * TotalLength(lens[..n]) + w * lens[n];
    }
  }

  /** The choices made while writing the descriptions, for the template. */
  datatype Layout = Layout(wref: int, nbw: nat, lref: int, nbl: nat, last: int)

  /** The references of widths and lengths occur among them, and no narrower fields would do. */
  ghost predicate Thrifty(pl: Plan) {
    && (exists k :: 0 <= k < |pl.widths| && pl.widths[k] == pl.wref)
    && (exists k :: 0 <= k < |pl.lens| && pl.lens[k] == pl.lref)
    && (pl.nbw > 0 ==> exists k :: 0 <= k < |pl.widths| && pl.widths[k] - pl.wref >= Pow2(pl.nbw - 1))
    && (pl.nbl > 0 ==> exists k :: 0 <= k < |pl.lens| && pl.lens[k] - pl.lref >= Pow2(pl.nbl - 1))
  }

  /** Writes the group widths and lengths. */
  method PutDescriptions(cpack: array<byte>, gwidth: array<int>, glen: array<int>, start: nat, ghost x: bits)
    returns (wref: int, nbw: nat, lref: int, nbl: nat, last: int, iofst: nat)
    requires gwidth != glen && 1 <= gwidth.Length == glen.Length
    requires forall k :: 0 <= k < gwidth.Length ==> 0 <= gwidth[k] <= 30 && 0 <= glen[k] < 1073741824
    requires Holds(cpack, x) && start == |x| && start + (35 * glen.Length + 14) <= 8 * cpack.Length
    modifies cpack, gwidth, glen
    ensures 0 <= wref && AllBelow(gwidth[..], nbw)
    ensures forall k :: 0 <= k < gwidth.Length ==> gwidth[k] == old(gwidth[k]) - wref
    ensures 0 <= lref && last == old(glen[glen.Length - 1])
    ensures forall k :: 0 <= k < glen.Length - 1 ==> glen[k] == old(glen[k]) - lref && 0 <= glen[k] < Pow2(nbl)
    ensures nbl > 0 ==>
      glen[glen.Length - 1] == last && exists k :: 0 <= k < glen.Length && old(glen[k]) - lref >= Pow2(nbl - 1)
    ensures nbw > 0 ==> exists k :: 0 <= k < gwidth.Length && old(gwidth[k]) - wref >= Pow2(nbw - 1)
    ensures exists k :: 0 <= k < gwidth.Length && old(gwidth[k]) == wref
    ensures exists k :: 0 <= k < glen.Length && old(glen[k]) == lref
    ensures Holds(cpack, x + Section(gwidth[..], nbw) + Section(glen[..], nbl))
    ensures start <= iofst == |x + Section(gwidth[..], nbw) + Section(glen[..], nbl)|
    ensures iofst <= start + (35 * glen.Length + 14)
  {
    hide Holds, Section, SectionSize, Pow2, AllBelow;
    wref, nbw, iofst := PutWidths(cpack, gwidth, start, x);
    ghost var y := x + Section(gwidth[..], nbw);
    SmallSection(nbw, gwidth.Length, 5);
    lref, nbl, last, iofst := PutLengths(cpack, glen, iofst, y);
    SmallSection(nbl, glen.Length, 30);
  }

  /** Writes everything behind the group references. */
  method PutGroups(cpack: array<byte>, gwidth: array<int>, glen: array<int>, ifld: array<int>, start: nat,
                   ghost head: bits, ghost refs: seq<int>, ghost nbr: nat, ghost w: nat)
    returns (layout: Layout, lcpack: nat, ghost pl: Plan)
    requires gwidth != glen && ifld != gwidth && ifld != glen
    requires 1 <= gwidth.Length == glen.Length == |refs|
    requires w <= 30 && forall k :: 0 <= k < gwidth.Length ==> 0 <= gwidth[k] <= w
    requires NonNegative(glen[..]) && TotalLength(glen[..]) == ifld.Length < 1073741824
    requires Holds(cpack, head + Section(refs, nbr)) && start == |head + Section(refs, nbr)|
    requires start + (35 * glen.Length + w * ifld.Length + 21) <= 8 * cpack.Length
    modifies cpack, gwidth, glen
    ensures pl == Plan(refs, nbr, old(gwidth[..]), pl.wref, layout.nbw, old(glen[..]), pl.lref, 1, layout.nbl,
                       pl.lfields, ifld[..])
    ensures layout.wref == pl.wref && layout.lref == pl.lref && layout.last == old(glen[glen.Length - 1])
    ensures pl.Valid() && AllBelow(pl.WidthFields(), pl.nbw)
    ensures forall k :: 0 <= k < |pl.lens| - 1 ==>
      0 <= pl.lfields[k] < Pow2(pl.nbl) && pl.lens[k] == pl.lfields[k] + pl.lref
    ensures Holds(cpack, pl.Stream(head)) && |pl.Stream(head)| <= 8 * lcpack < |pl.Stream(head)| + 8
    ensures Thrifty(pl)
  {
    hide Holds, Section, SectionSize, Data, TotalBits, TotalLength, Pow2, AllBelow;
    ghost var x, widths, lens := head + Section(refs, nbr), gwidth[..], glen[..];
    EachAtMostTotal(lens);
    DataBound(widths, lens, w);
    TotalsNonNegative(widths, lens);
    var wref, nbw, lref, nbl, last, iofst := PutDescriptions(cpack, gwidth, glen, start, x);
    ghost var fields := glen[..];
    x := x + Section(gwidth[..], nbw) + Section(fields, nbl);
    iofst := PutData(cpack, ifld, gwidth, wref, glen, lref, last, iofst, x, widths, lens);
    x := x + Data(widths, lens, ifld[..]);
    pl := Plan(refs, nbr, widths, wref, nbw, lens, lref, 1, nbl, fields, ifld[..]);
    assert pl.WidthFields() == gwidth[..];
    assert x == pl.Stream(head);
    var padded := PutPadding(cpack, iofst, iofst, x);
    HoldsFirst(cpack, x, Zeros(Pad8(iofst) - iofst));
    lcpack := padded / 8;
    layout := Layout(wref, nbw, lref, nbl, last);
  }

  lemma HoldsFirst(cpack: array<byte>, x: bits, y: bits)
    requires Holds(cpack, x + y)
    ensures Holds(cpack, x)
  {
    AtParts(BitsOf(cpack[..]), 0, x, y);
  }

  lemma {:induction false} EachAtMostTotal(lens: seq<int>)
    requires NonNegative(lens)
    ensures TotalLength(lens) >= 0 && forall k :: 0 <= k < |lens| ==> lens[k] <= TotalLength(lens)
    decreases |lens|
  {
    if |lens| > 0 {
      var n := |lens| - 1;
      EachAtMostTotal(lens[..n]);
      assert forall k :: 0 <= k < n ==> lens[k] == lens[..n][k];
    }
  }

  // ---- the choice of groups ----

  /** Calls g2_pack_gp as both encoders do and adds the reference length back
      (compack.c, lines 228-245; misspack.c, lines 291-308). */
  method ChooseGroups(ic: seq<int>, m: Marks) returns (glen: array<int>)
    ensures Chosen(ic, m, glen[..])
    requires m.Valid() && Narrow(ic, m) && 1 <= |ic| < 1073741824
    ensures fresh(glen) && 1 <= glen.Length <= |ic| / 10 + 1
    ensures NonNegative(glen[..]) && TotalLength(glen[..]) == |ic| && glen[glen.Length - 1] > 0
  {
    hide Packed, Narrow, Pow2, Final;
    var maxgrps := |ic| / 10 + 1;
    var jmin, jmax, lbit, nov := new int[maxgrps], new int[maxgrps], new int[maxgrps], new int[maxgrps];
    NarrowInRange(ic, m);
    var ngroups, ibit, jbit, kbit, novref, lbitref, ier;
    ghost var o;
    ngroups, ibit, jbit, kbit, novref, lbitref, ier, o := G2PackGp(ic, m, 10, 1, maxgrps, jmin, jmax, lbit, nov);
    glen := new int[ngroups](i requires 0 <= i < ngroups <= nov.Length reads nov => nov[i] + novref);
    PackedLengths(ic, m, Now(jmin, jmax, lbit, nov), ngroups, ibit, jbit, kbit, novref, lbitref, glen[..]);
    assert ChosenBy(ic, m, glen[..], Choice(o, Now(jmin, jmax, lbit, nov), ibit, jbit, kbit, novref, lbitref));
  }

  /** A result of g2_pack_gp. */
  datatype Choice = Choice(o: Origin, u: Table, ibit: nat, jbit: nat, kbit: nat, novref: int, lbitref: int)

  ghost predicate ChosenBy(ic: seq<int>, m: Marks, lens: seq<int>, c: Choice) {
    && |ic| >= 1 && c.u.Valid() && |lens| <= |c.u.jmin|
    && Final(ic, m, 10, 1, |ic| / 10 + 1, c.o, c.u, |lens|, c.ibit, c.jbit, c.kbit, c.novref, c.lbitref)
    && forall k :: 0 <= k < |lens| ==> lens[k] == c.u.nov[k] + c.novref
  }

  /** The lengths are those of the groups that g2_pack_gp finds for a least size of 10, taking
      one point at a time, in a table of one group for ten points. */
  ghost predicate Chosen(ic: seq<int>, m: Marks, lens: seq<int>) {
    exists c: Choice :: ChosenBy(ic, m, lens, c)
  }

  lemma NarrowInRange(ic: seq<int>, m: Marks)
    requires Narrow(ic, m)
    ensures InRange(ic, m)
  {
    Pow2Of30();
  }

  lemma PackedLengths(ic: seq<int>, m: Marks, t: Table, lx: nat, ibit: nat, jbit: nat, kbit: nat, novref: int,
                      lbitref: int, lens: seq<int>)
    requires t.Valid() && lx <= |t.jmin| && Packed(ic, m, t, lx, ibit, jbit, kbit, novref, lbitref)
    requires |lens| == lx && forall k :: 0 <= k < lx ==> lens[k] == t.nov[k] + novref
    ensures NonNegative(lens) && TotalLength(lens) == |ic| && 0 < lx && lens[lx - 1] > 0
  {
    var gs := t.Groups(0, lx, lbitref, novref);
    CoversTotal(ic, m, gs, 0, |ic|);
    SizesTotal(gs, lens);
  }

  lemma {:induction false} SizesTotal(gs: seq<Group>, lens: seq<int>)
    requires |gs| == |lens| && forall k :: 0 <= k < |gs| ==> gs[k].size == lens[k]
    ensures TotalSize(gs) == TotalLength(lens)
    decreases |gs|
  {
    if |gs| > 0 {
      var n := |gs| - 1;
      SizesTotal(gs[..n], lens[..n]);
      TotalConcat(gs[..n], [gs[n]]);
      assert gs == gs[..n] + [gs[n]] && [gs[n]][1..] == [];
    }
  }

  // ---- groups whose references still hold the marks -1 and -2 ----

  /** The reference that is written: -1 and -2 stand for the two reserved references. */
  function Resolve(ref: int, nbr: nat): int {
    if ref == -1 then Pow2(nbr) - 1 else if ref == -2 then Pow2(nbr) - 2 else ref
  }

  function ResolveAll(refs: seq<int>, nbr: nat): (r: seq<int>)
    ensures |r| == |refs|
  {
    seq(|refs|, i requires 0 <= i < |refs| => Resolve(refs[i], nbr))
  }

  /** The codes of a group mean its cells, however wide the references will be. */
  /** The reference is the least value of the group and no narrower width would hold the values
      next to the reserved codes; a group without values has width 0 and the mark of its
      missing values, or width 1 for both kinds. */
  ghost predicate Lean(missing: nat, ref: int, width: nat, cells: seq<Sample>) {
    if Real(ref) in cells then
      && (forall k :: 0 <= k < |cells| && cells[k].Real? ==> ref <= cells[k].v)
      && (width > 0 ==> exists k :: 0 <= k < |cells| && cells[k].Real? && cells[k].v + missing - ref >= Pow2(width - 1))
    else
      && (forall k :: 0 <= k < |cells| ==> !cells[k].Real?)
      && width == (if Primary in cells && Secondary in cells then 1 else 0)
      && (missing != 0 && width == 0 ==> ref == if Primary in cells then -1 else -2)
  }

  ghost predicate LeanAll(missing: nat, refs: seq<int>, widths: seq<int>, lens: seq<int>, cells: seq<Sample>)
    requires |refs| == |widths| == |lens|
    decreases |lens|
  {
    if |lens| == 0 then true
    else
      var n := |lens| - 1;
      var m := TotalLength(lens[..n]);
      && 0 <= m <= |cells| && widths[n] >= 0 && Lean(missing, refs[n], widths[n], cells[m..])
      && LeanAll(missing, refs[..n], widths[..n], lens[..n], cells[..m])
  }

  lemma LeanMore(missing: nat, refs: seq<int>, widths: seq<int>, lens: seq<int>, cells: seq<Sample>, ref: int,
                 width: nat, more: seq<Sample>)
    requires |refs| == |widths| == |lens| && LeanAll(missing, refs, widths, lens, cells)
    requires |cells| == TotalLength(lens) && Lean(missing, ref, width, more)
    ensures LeanAll(missing, refs + [ref], widths + [width], lens + [|more|], cells + more)
  {
    hide Lean, TotalLength;
    assert (refs + [ref])[..|lens|] == refs && (widths + [width])[..|lens|] == widths;
    assert (lens + [|more|])[..|lens|] == lens;
    assert (cells + more)[..|cells|] == cells && (cells + more)[|cells|..] == more;
  }

  ghost predicate GroupReadyAll(missing: nat, ref: int, width: int, codes: seq<int>, cells: seq<Sample>) {
    && width >= 0 && Lean(missing, ref, width, cells)
    && forall nbr: nat :: GroupReady(missing, nbr, Resolve(ref, nbr), width, codes, cells)
  }

  ghost predicate ReadyAll(missing: nat, refs: seq<int>, widths: seq<int>, lens: seq<int>, codes: seq<int>,
                           cells: seq<Sample>) {
    && |refs| == |widths| == |lens| && NonNegative(widths) && NonNegative(lens)
    && |codes| == |cells| == TotalLength(lens) && LeanAll(missing, refs, widths, lens, cells)
    && forall nbr: nat :: Ready(missing, nbr, ResolveAll(refs, nbr), widths, lens, codes, cells)
  }

  lemma ReadyNone(missing: nat)
    ensures ReadyAll(missing, [], [], [], [], [])
  {
  }

  lemma ReadyMore(missing: nat, refs: seq<int>, widths: seq<int>, lens: seq<int>, codes: seq<int>, cells: seq<Sample>,
                  ref: int, width: int, moreCodes: seq<int>, moreCells: seq<Sample>)
    requires ReadyAll(missing, refs, widths, lens, codes, cells)
    requires GroupReadyAll(missing, ref, width, moreCodes, moreCells)
    ensures ReadyAll(missing, refs + [ref], widths + [width], lens + [|moreCodes|], codes + moreCodes,
      cells + moreCells)
  {
    hide GroupReady, Ready, TotalLength, Lean, LeanAll;
    LastLength(lens, |moreCodes|);
    assert GroupReady(missing, 0, Resolve(ref, 0), width, moreCodes, moreCells);
    SameLengths(missing, 0, Resolve(ref, 0), width, moreCodes, moreCells);
    LeanMore(missing, refs, widths, lens, cells, ref, width, moreCells);
    forall nbr: nat
      ensures Ready(missing, nbr, ResolveAll(refs + [ref], nbr), widths + [width], lens + [|moreCodes|],
        codes + moreCodes, cells + moreCells)
    {
      assert GroupReady(missing, nbr, Resolve(ref, nbr), width, moreCodes, moreCells);
      assert Ready(missing, nbr, ResolveAll(refs, nbr), widths, lens, codes, cells);
      assert ResolveAll(refs + [ref], nbr) == ResolveAll(refs, nbr) + [Resolve(ref, nbr)];
      SameLengths(missing, nbr, Resolve(ref, nbr), width, moreCodes, moreCells);
      ReadyOneMore(missing, nbr, ResolveAll(refs, nbr), widths, lens, codes, cells, Resolve(ref, nbr), width,
        moreCodes, moreCells);
    }
    SameLengths(missing, 0, Resolve(ref, 0), width, moreCodes, moreCells);
  }

  lemma SameLengths(missing: nat, nbr: nat, ref: int, width: nat, codes: seq<int>, cells: seq<Sample>)
    requires GroupReady(missing, nbr, ref, width, codes, cells)
    ensures |codes| == |cells|
  {
  }

  lemma LastLength(lens: seq<int>, len: int)
    ensures TotalLength(lens + [len]) == TotalLength(lens) + len
  {
    assert (lens + [len])[..|lens|] == lens;
  }

  lemma ReadyOneMore(missing: nat, nbr: nat, refs: seq<int>, widths: seq<int>, lens: seq<int>, codes: seq<int>,
                     cells: seq<Sample>,
                     ref: int, width: nat, moreCodes: seq<int>, moreCells: seq<Sample>)
    requires |refs| == |widths| == |lens| && NonNegative(widths) && NonNegative(lens)
    requires |codes| == |cells| == TotalLength(lens)
    requires Ready(missing, nbr, refs, widths, lens, codes, cells)
    requires GroupReady(missing, nbr, ref, width, moreCodes, moreCells)
    ensures Ready(missing, nbr, refs + [ref], widths + [width], lens + [|moreCodes|], codes + moreCodes,
      cells + moreCells)
  {
    hide GroupReady, TotalLength;
    var n := |lens|;
    var refs', widths', lens' := refs + [ref], widths + [width], lens + [|moreCodes|];
    assert refs'[..n] == refs && widths'[..n] == widths && lens'[..n] == lens;
    LastLength(lens, |moreCodes|);
    SameLengths(missing, nbr, ref, width, moreCodes, moreCells);
    assert (codes + moreCodes)[..|codes|] == codes && (codes + moreCodes)[|codes|..] == moreCodes;
    assert (cells + moreCells)[..|codes|] == cells && (cells + moreCells)[|codes|..] == moreCells;
  }

  lemma Snoc(a: array<int>, k: nat)
    requires k < a.Length
    ensures a[..k + 1] == a[..k] + [a[k]]
  {
  }

  lemma WholeArray(a: array<int>)
    ensures a[..a.Length] == a[..]
  {
  }

  /** A group starts before the end of the data, since the last group is not empty. */
  lemma NextStart(lens: seq<int>, ng: nat)
    requires ng < |lens| && NonNegative(lens) && lens[|lens| - 1] > 0
    ensures TotalLength(lens[..ng + 1]) == TotalLength(lens[..ng]) + lens[ng] <= TotalLength(lens)
    ensures 0 <= TotalLength(lens[..ng]) < TotalLength(lens) && 0 <= lens[ng]
  {
    var zeros := seq(|lens|, i => 0);
    TotalsPrefix(zeros, lens, ng + 1);
    assert lens[..ng + 1][..ng] == lens[..ng];
    TotalsPrefix(zeros, lens, |lens| - 1);
    if ng < |lens| - 1 {
      TotalsPrefix(zeros[..|lens| - 1], lens[..|lens| - 1], ng);
      assert lens[..|lens| - 1][..ng] == lens[..ng];
    }
  }

  /** Writes the group references (compack.c, lines 282-298; misspack.c, lines 382-407).
      The reserved references are above every other. */
  method PutRefs(cpack: array<byte>, gref: array<int>, missopt: nat, iofst: nat, ghost x: bits)
    returns (nbr: nat, next: nat)
    requires gref.Length > 0 && missopt <= 2
    requires forall k :: 0 <= k < gref.Length ==> (if missopt == 0 then 0 else -2) <= gref[k] < 1073741824 - missopt
    requires exists k :: 0 <= k < gref.Length && gref[k] >= 0
    requires iofst == |x| && Holds(cpack, x) && iofst + (30 * gref.Length + 7) <= 8 * cpack.Length
    modifies cpack, gref
    ensures nbr <= 30 && gref[..] == ResolveAll(old(gref[..]), nbr) && AllBelow(gref[..], nbr)
    ensures forall k :: 0 <= k < gref.Length && old(gref[k]) >= 0 ==> gref[k] < Pow2(nbr) - missopt
    ensures nbr > 0 ==> exists k :: 0 <= k < gref.Length && old(gref[k]) + missopt >= Pow2(nbr - 1)
    ensures Holds(cpack, x + Section(gref[..], nbr)) && next == |x + Section(gref[..], nbr)|
    ensures next <= iofst + (30 * gref.Length + 7)
  {
    hide Holds, Section, Pow2, BitLen, SectionSize;
    var least, igmax := LeastAndGreatest(gref, gref.Length);
    igmax := igmax + missopt;
    if igmax != 0 {
      nbr := BitLen(igmax);
      LengthBits(igmax);
      AtLeastTwo(nbr);
      if missopt != 0 {
        ResetMarks(gref, nbr);
      }
      SmallSection(nbr, gref.Length, 30);
      next := PutSection(cpack, gref[..], nbr, iofst, x);
    } else {
      nbr, next := 0, iofst;
      NoSection(gref[..], x);
    }
  }

  lemma AtLeastTwo(n: nat)
    requires n >= 1
    ensures Pow2(n) >= 2
  {
  }

  /** Resets the references of groups with missing values only (misspack.c, lines 389-394). */
  method ResetMarks(gref: array<int>, nbr: nat)
    requires nbr >= 1
    modifies gref
    ensures gref[..] == ResolveAll(old(gref[..]), nbr)
  {
    hide Pow2;
    var mtemp := Pow2(nbr);
    for j := 0 to gref.Length
      invariant forall k :: 0 <= k < gref.Length ==>
        gref[k] == if k < j then Resolve(old(gref[k]), nbr) else old(gref[k])
    {
      if gref[j] == -1 {
        gref[j] := mtemp - 1;
      } else if gref[j] == -2 {
        gref[j] := mtemp - 2;
      }
    }
  }

  // ---- the whole stream ----

  /** The header of spatial differencing; none for order 0. */
  datatype DiffHead = DiffHead(order: nat, ival1: int, ival2: int, minsd: int, nbitsd: nat) {
    predicate Valid() {
      if order == 0 then ival1 == ival2 == minsd == 0 && nbitsd == 0
      else
        && order <= 2 && nbitsd >= 8 && nbitsd % 8 == 0
        && FitsSigned(ival1, nbitsd) && FitsSigned(minsd, nbitsd)
        && (if order == 2 then FitsSigned(ival2, nbitsd) else ival2 == 0)
    }

    function Bits(): bits
      requires Valid()
    {
      if order == 0 then [] else HeadBits(order, ival1, ival2, minsd, nbitsd)
    }

    ghost predicate Describes(p: Params) {
      p.diff == (order != 0) && p.order == order && p.nbitsd == nbitsd
    }
  }

  // ---- the header, said without the encoder ----

  /** Bits `p` to `p + n` are a sign and a magnitude. */
  ghost predicate SignMagnitude(b: bits, p: nat, n: nat, v: int) {
    n >= 1 && p + n <= |b| && b[p] == (v < 0) && Val(Cut(b, p + 1, n - 1)) == if v < 0 then -v else v
  }

  /** The least difference of neighbours; 0 when there are none. */
  ghost predicate LeastFirst(vs: seq<int>, d: int) {
    if |vs| <= 1 then d == 0
    else
      && (forall k :: 1 <= k < |vs| ==> d <= vs[k] - vs[k - 1])
      && exists k :: 1 <= k < |vs| && d == vs[k] - vs[k - 1]
  }

  /** The least difference of neighbouring differences. */
  ghost predicate LeastSecond(vs: seq<int>, d: int) {
    if |vs| <= 2 then d == 0
    else
      && (forall k :: 2 <= k < |vs| ==> d <= vs[k] - 2 * vs[k - 1] + vs[k - 2])
      && exists k :: 2 <= k < |vs| && d == vs[k] - 2 * vs[k - 1] + vs[k - 2]
  }

  function Second(vs: seq<int>): int { if |vs| > 1 then vs[1] else 0 }

  /** The octets start with the header of values `vs` in fields of `n` bits: the first value,
      for order 2 the second one, then the least difference of that order; `n` is the least
      number of whole octets that holds them. */
  ghost predicate Header(b: bits, order: int, n: int, vs: seq<int>) {
    && |vs| > 0 && n >= 8 && n % 8 == 0 && SignMagnitude(b, 0, n, vs[0])
    && exists d ::
      && (if order == 2 then LeastSecond(vs, d) && SignMagnitude(b, n, n, Second(vs)) && SignMagnitude(b, 2 * n, n, d)
          else LeastFirst(vs, d) && SignMagnitude(b, n, n, d))
      && (n > 8 ==>
        !FitsSigned(vs[0], n - 8) || !FitsSigned(d, n - 8) || (order == 2 && !FitsSigned(Second(vs), n - 8)))
  }

  /** The header describes these values. */
  ghost predicate HeadOf(h: DiffHead, vs: seq<int>) {
    && |vs| > 0 && h.ival1 == vs[0] && (h.order == 1 || h.order == 2)
    && (if h.order == 2 then h.ival2 == Second(vs) && LeastSecond(vs, h.minsd) else LeastFirst(vs, h.minsd))
    && (h.nbitsd > 8 ==> var n := h.nbitsd - 8;
      !FitsSigned(h.ival1, n) || !FitsSigned(h.minsd, n) || (h.order == 2 && !FitsSigned(h.ival2, n)))
  }

  lemma LeastIs(order: nat, vs: seq<int>, ival1: int, ival2: int, minsd: int, xs: seq<int>)
    requires (order == 1 || order == 2) && |vs| == |xs| && IsDifferenced(order, vs, ival1, ival2, minsd, xs)
    requires forall k :: 0 <= k < |xs| ==> 0 <= xs[k]
    requires if |vs| <= order then minsd == 0 else exists k :: order <= k < |vs| && minsd == Difference(order, vs, k)
    ensures if order == 2 then LeastSecond(vs, minsd) else LeastFirst(vs, minsd)
  {
    if order == 1 {
      forall k | 1 <= k < |vs| ensures minsd <= vs[k] - vs[k - 1] {
        assert xs[k] == Difference(order, vs, k) - minsd;
      }
    } else {
      forall k | 2 <= k < |vs| ensures minsd <= vs[k] - 2 * vs[k - 1] + vs[k - 2] {
        assert xs[k] == Difference(order, vs, k) - minsd;
      }
    }
    if |vs| > order {
      var k :| order <= k < |vs| && minsd == Difference(order, vs, k);
    }
  }

  lemma SignedIsMagnitude(b: bits, p: nat, v: int, n: nat)
    requires n >= 1 && At(b, p, SignedBits(v, n)) && FitsSigned(v, n)
    ensures SignMagnitude(b, p, n, v)
  {
    hide Pow2, ToBits, Val;
    var m := if v < 0 then -v else v;
    AtParts(b, p, [v < 0], ToBits(m, n - 1));
    AtCut(b, p + 1, ToBits(m, n - 1));
    ValOfToBitsExact(m, n - 1);
  }

  lemma HeaderStands(b: bits, h: DiffHead, vs: seq<int>)
    requires h.Valid() && HeadOf(h, vs) && At(b, 0, h.Bits())
    ensures Header(b, h.order, h.nbitsd, vs)
  {
    hide At, SignedBits, FitsSigned, LeastFirst, LeastSecond, SignMagnitude;
    var n := h.nbitsd;
    if h.order == 2 {
      AtParts(b, 0, SignedBits(h.ival1, n) + SignedBits(h.ival2, n), SignedBits(h.minsd, n));
      AtParts(b, 0, SignedBits(h.ival1, n), SignedBits(h.ival2, n));
      SignedIsMagnitude(b, n, h.ival2, n);
    } else {
      AtParts(b, 0, SignedBits(h.ival1, n), SignedBits(h.minsd, n));
    }
    SignedIsMagnitude(b, 0, h.ival1, n);
    SignedIsMagnitude(b, if h.order == 2 then 2 * n else n, h.minsd, n);
  }

  /** The header stands at the start of the whole stream. */
  lemma StreamHeader(b: bits, pl: Plan, h: DiffHead, vs: seq<int>)
    requires h.Valid() && HeadOf(h, vs) && pl.Valid() && At(b, 0, pl.Stream(h.Bits()))
    ensures Header(b, h.order, 8 * (h.nbitsd / 8), vs)
  {
    hide At, Header, DiffHead.Bits, Plan.Stream, Plan.Valid, LeastFirst, LeastSecond;
    StreamParts(b, pl, h.Bits());
    HeaderStands(b, h, vs);
  }

  const NO_DIFFERENCES := DiffHead(0, 0, 0, 0, 0)

  lemma NoDifferences(vals: seq<int>)
    ensures Integrate(0, 0, 0, 0, vals) == vals && NO_DIFFERENCES.Valid() && NO_DIFFERENCES.Bits() == []
  {
  }

  /** What was written is what the decoder makes the samples of. */
  lemma PlanDecodes(b: bits, p: Params, pl: Plan, h: DiffHead, cells: seq<Sample>, samples: seq<Sample>, lcpack: nat)
    requires h.Valid() && h.Describes(p) && pl.Valid() && pl.Describes(p) && pl.Means(p.missing, cells)
    requires At(b, 0, pl.Stream(h.Bits())) && |pl.Stream(h.Bits())| <= 8 * lcpack
    requires SameShape(cells, samples)
    requires Integrate(h.order, h.ival1, h.ival2, h.minsd, Reals(cells)) == Reals(samples)
    ensures Recovers(b, p, samples, lcpack)
  {
    hide At, Decode, Integrate, Reals, SameShape, Head;
    StreamParts(b, pl, h.Bits());
    if h.order != 0 {
      HeadRead(b, p, h.ival1, h.ival2, h.minsd);
    } else {
      NoHead(b, p);
    }
    forall lensec | lensec >= lcpack
      ensures Readable(b, p, |samples|, lensec) && Decode(b, p, |samples|, lensec) == Unpacked(samples)
    {
      SameCount(cells, samples);
      DecodeOfStream(b, pl, h.Bits(), p, cells, samples, h.ival1, h.ival2, h.minsd, |samples|, lensec);
    }
  }

  lemma NoHead(b: bits, p: Params)
    requires p.Valid() && !p.diff
    ensures p.HeadSize() == 0 && Head(b, p) == (0, 0, 0)
  {
  }

  lemma SameCount(s: seq<Sample>, t: seq<Sample>)
    requires SameShape(s, t)
    ensures |s| == |t|
  {
  }

  /** Differences in place, their header width, and the header. */
  method PutDifferences(cpack: array<byte>, a: array<int>, n: nat, order: nat, ghost limit: int)
    returns (iofst: nat, nbitsd: nat, ghost h: DiffHead)
    requires (order == 1 || order == 2) && 1 <= n <= a.Length && order < a.Length
    requires forall k :: n <= k < a.Length ==> a[k] == 0
    requires forall k :: 0 <= k < n ==> 0 <= a[k] < 1073741824
    requires SpreadBelow(order, a[..n], limit) && limit > 0 && 12 <= cpack.Length
    modifies cpack, a
    ensures h.Valid() && h.order == order && h.nbitsd == nbitsd && Holds(cpack, h.Bits()) && iofst == |h.Bits()| <= 96
    ensures Integrate(order, h.ival1, h.ival2, h.minsd, a[..n]) == old(a[..n])
    ensures HeadOf(h, old(a[..n]))
    ensures forall k :: 0 <= k < n ==> 0 <= a[k] < limit
  {
    hide Holds, FitsSigned, HeadBits, IsDifferenced, Integrate, SpreadBelow, LeastFirst, LeastSecond, Difference;
    ghost var vs := a[..n];
    var ival1, ival2, minsd := TakeDifferences(a, n, order, limit);
    LeastIs(order, vs, ival1, ival2, minsd, a[..n]);
    IntegrateUndoes(order, vs, ival1, ival2, minsd, a[..n]);
    DifferenceBounds(order, vs);
    nbitsd := HeadWidth(order, ival1, ival2, minsd);
    iofst := PutHead(cpack, order, ival1, ival2, minsd, nbitsd);
    h := DiffHead(order, ival1, ival2, minsd, nbitsd);
  }

  lemma DifferenceBounds(order: nat, vs: seq<int>)
    requires (order == 1 || order == 2) && forall k :: 0 <= k < |vs| ==> 0 <= vs[k] < 1073741824
    ensures forall k :: order <= k < |vs| ==> -2147483648 < Difference(order, vs, k) < 2147483648
  {
  }

  /** No field of the plan could be narrower: references, widths and codes of the groups,
      whose references `raw` become the marks for missing values where they are negative. */
  ghost predicate Economical(missing: nat, pl: Plan, cells: seq<Sample>) {
    exists raw: seq<int> :: FromRaw(missing, pl, cells, raw)
  }

  ghost predicate FromRaw(missing: nat, pl: Plan, cells: seq<Sample>, raw: seq<int>) {
    && |raw| == |pl.refs| == |pl.widths| == |pl.lens| && pl.refs == ResolveAll(raw, pl.nbr) && Thrifty(pl)
    && LeanAll(missing, raw, pl.widths, pl.lens, cells)
    && (pl.nbr > 0 ==> exists k :: 0 <= k < |raw| && raw[k] + missing >= Pow2(pl.nbr - 1))
  }

  lemma IsEconomical(missing: nat, pl: Plan, cells: seq<Sample>, raw: seq<int>)
    requires |raw| == |pl.refs| == |pl.widths| == |pl.lens| && pl.refs == ResolveAll(raw, pl.nbr) && Thrifty(pl)
    requires LeanAll(missing, raw, pl.widths, pl.lens, cells)
    requires pl.nbr > 0 ==> exists k :: 0 <= k < |raw| && raw[k] + missing >= Pow2(pl.nbr - 1)
    ensures Economical(missing, pl, cells)
  {
    hide Thrifty, LeanAll, Pow2, ResolveAll;
    assert FromRaw(missing, pl, cells, raw);
  }

  /** Writes everything behind the differencing header. */
  method PutAll(cpack: array<byte>, ifld: array<int>, gref: array<int>, gwidth: array<int>, glen: array<int>,
                missopt: nat, start: nat, ghost head: bits, ghost cells: seq<Sample>, ghost w: nat)
    returns (nbr: nat, layout: Layout, lcpack: nat, ghost pl: Plan)
    requires gref != gwidth && gref != glen && gwidth != glen && ifld != gref && ifld != gwidth && ifld != glen
    requires 1 <= gwidth.Length == glen.Length == gref.Length && missopt <= 2 && ifld.Length < 1073741824
    requires forall k :: 0 <= k < gref.Length ==> (if missopt == 0 then 0 else -2) <= gref[k] < 1073741824 - missopt
    requires exists k :: 0 <= k < gref.Length && gref[k] >= 0
    requires w <= 30 && forall k :: 0 <= k < gwidth.Length ==> 0 <= gwidth[k] <= w
    requires ReadyAll(missopt, gref[..], gwidth[..], glen[..], ifld[..], cells)
    requires start == |head| && Holds(cpack, head)
    requires start + (65 * glen.Length + w * ifld.Length + 28) <= 8 * cpack.Length
    modifies cpack, gref, gwidth, glen
    ensures pl.Valid() && pl.Means(missopt, cells) && |pl.refs| == glen.Length
    ensures pl.nbr == nbr && pl.wref == layout.wref && pl.nbw == layout.nbw
    ensures pl.lref == layout.lref && pl.nbl == layout.nbl && pl.lens[|pl.lens| - 1] == layout.last
    ensures Holds(cpack, pl.Stream(head)) && |pl.Stream(head)| <= 8 * lcpack < |pl.Stream(head)| + 8
    ensures pl.lens == old(glen[..]) && pl.linc == 1 && Economical(missopt, pl, cells)
  {
    hide Holds, Section, Pow2, Ready, TotalLength, Resolve, Economical, Thrifty, LeanAll;
    ghost var refs, widths, lens := gref[..], gwidth[..], glen[..];
    assert TotalLength(lens) == ifld.Length;
    var iofst;
    nbr, iofst := PutRefs(cpack, gref, missopt, start, head);
    assert Ready(missopt, nbr, ResolveAll(refs, nbr), widths, lens, ifld[..], cells);
    layout, lcpack, pl := PutGroups(cpack, gwidth, glen, ifld, iofst, head, gref[..], nbr, w);
    IsEconomical(missopt, pl, cells, refs);
  }

  // ---- the template ----

  /** The entries that both encoders fill in (compack.c, lines 398-414). */
  method FillTemplate(t: array<int>, idrsnum: int, nbitsgref: int, ngroups: int, layout: Layout, nbitsd: int)
    requires t.Length >= TEMPLATE_SIZE
    modifies t
    ensures t[NBITS_GREF] == nbitsgref && t[NGROUPS] == ngroups
    ensures t[WIDTH_REF] == layout.wref && t[NBITS_WIDTH] == layout.nbw && t[LENGTH_REF] == layout.lref
    ensures t[LENGTH_INC] == 1 && t[LAST_LENGTH] == layout.last && t[NBITS_LENGTH] == layout.nbl
    ensures t[OCTETS_SD] == if idrsnum == 3 then nbitsd / 8 else old(t[OCTETS_SD])
    ensures t[4] == 0 && t[5] == 1 && t[ORDER] == old(t[ORDER])
    ensures forall k :: 0 <= k < t.Length && (k < 3 || 6 <= k < 9 || k > OCTETS_SD) ==> t[k] == old(t[k])
  {
    t[NBITS_GREF], t[4], t[5], t[NGROUPS] := nbitsgref, 0, 1, ngroups;
    t[WIDTH_REF], t[NBITS_WIDTH], t[LENGTH_REF], t[LENGTH_INC] := layout.wref, layout.nbw, layout.lref, 1;
    t[LAST_LENGTH], t[NBITS_LENGTH] := layout.last, layout.nbl;
    if idrsnum == 3 {
      t[OCTETS_SD] := nbitsd / 8;
    }
  }

  /** The template tells the decoder what was written. */
  lemma TemplateDescribes(t: seq<int>, idrsnum: int, pl: Plan, h: DiffHead, layout: Layout)
    requires |t| >= TEMPLATE_SIZE && pl.Valid() && h.Valid() && 0 <= t[MISSING] <= 2
    requires t[NBITS_GREF] == pl.nbr && t[NGROUPS] == |pl.refs| && pl.lens[|pl.lens| - 1] == layout.last
    requires layout == Layout(pl.wref, pl.nbw, pl.lref, pl.nbl, layout.last)
    requires t[WIDTH_REF] == layout.wref && t[NBITS_WIDTH] == layout.nbw && t[LENGTH_REF] == layout.lref
    requires t[LENGTH_INC] == 1 == pl.linc && t[LAST_LENGTH] == layout.last && t[NBITS_LENGTH] == layout.nbl
    requires if idrsnum == 3 then h.order != 0 && t[ORDER] == h.order && t[OCTETS_SD] == h.nbitsd / 8 else h.order == 0
    ensures pl.Describes(ParamsOf(idrsnum, t)) && h.Describes(ParamsOf(idrsnum, t))
    ensures ParamsOf(idrsnum, t).missing == t[MISSING]
  {
    hide Pow2, FitsSigned;
  }

  /** What an encoder leaves behind: the octets are the header and the stream of a plan, padded
      to the last octet; the plan means the cells, and its groups are those that g2_pack_gp
      finds for `ic`. */
  ghost predicate Written(b: bits, lcpack: nat, h: DiffHead, pl: Plan, missopt: nat, cells: seq<Sample>, ic: seq<int>,
                          m: Marks)
  {
    && h.Valid() && pl.Valid() && pl.Means(missopt, cells) && At(b, 0, pl.Stream(h.Bits()))
    && |pl.Stream(h.Bits())| <= 8 * lcpack < |pl.Stream(h.Bits())| + 8 && Chosen(ic, m, pl.lens)
    && Economical(missopt, pl, cells)
  }

  /** Room that is always enough for the packed data, when the codes have `w` bits at most. */
  predicate Roomy(length: nat, ndpts: nat, w: nat) {
    96 + (65 * (ndpts / 10 + 1) + w * ndpts + 28) <= 8 * length
  }

  /** The octets that g2_addfield allocates are enough for codes of 25 bits, and for wider ones
      when the points are few. */
  lemma RoomOfAddField(ndpts: nat, w: nat)
    requires w <= 25 || (w <= 30 && ndpts <= 10950)
    ensures Roomy(Larger(4 * ndpts, 50000), ndpts, w)
  {
    MulMono(w, if w <= 25 then 25 else 30, ndpts);
  }
}
