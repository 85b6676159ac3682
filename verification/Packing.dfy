/** The layout of a complex-packed data section (GRIB edition 2, Data Templates 7.2 and 7.3)
    and its meaning: what the encoders g2/compack.c and g2/misspack.c write, what the decoder
    g2/comunpack.c reads, and why the second undoes the first. */
module Packing {
  import opened Binary
  import opened BitFields

  /** A scaled data value, or one of the two missing value marks. */
  datatype Sample = Real(v: int) | Primary | Secondary

  // Entries of Data Representation Templates 5.2 and 5.3 (`idrstmpl`).
  const NBITS_GREF := 3
  const MISSING := 6
  const NGROUPS := 9
  const WIDTH_REF := 10
  const NBITS_WIDTH := 11
  const LENGTH_REF := 12
  const LENGTH_INC := 13
  const LAST_LENGTH := 14
  const NBITS_LENGTH := 15
  const ORDER := 16
  const OCTETS_SD := 17
  const TEMPLATE_SIZE := 18

  // ---- runs of equal-width fields ----

  /** The values one after the other, each in `w` bits. */
  function Fields(vals: seq<int>, w: nat): (b: bits)
    ensures |b| == w * |vals|
  {
    if |vals| == 0 then []
    else
      assert w * |vals| == w * (|vals| - 1) + w;
      Fields(vals[..|vals| - 1], w) + ToBits(vals[|vals| - 1], w)
  }

  predicate AllBelow(vals: seq<int>, w: nat) {
    forall i :: 0 <= i < |vals| ==> 0 <= vals[i] < Pow2(w)
  }

  lemma {:induction false} FieldAtProduct(p: nat, w: nat, i: nat)
    ensures FieldAt(p, w, 0, i) == p + w * i
  {
    if i > 0 {
      FieldAtProduct(p, w, i - 1);
      assert w * i == w * (i - 1) + w;
    }
  }

  lemma WithinProduct(p: nat, w: nat, n: nat, size: nat)
    requires p + w * n <= size
    ensures Within(p, w, 0, n, size)
  {
    if n > 0 {
      FieldAtProduct(p, w, n - 1);
      assert w * n == w * (n - 1) + w;
    }
  }

  /** Storing without gaps writes the fields in a row. */
  lemma {:induction false} StoreIsFields(b: bits, vals: seq<int>, p: nat, w: nat)
    requires p + w * |vals| <= |b|
    ensures Within(p, w, 0, |vals|, |b|)
    ensures StoreAll(b, vals, p, w, 0) == Splice(b, p, Fields(vals, w))
    decreases |vals|
  {
    hide Pow2, ToBits;
    WithinProduct(p, w, |vals|, |b|);
    if |vals| > 0 {
      var n := |vals| - 1;
      FieldAtProduct(p, w, n);
      assert w * |vals| == w * n + w;
      StoreIsFields(b, vals[..n], p, w);
      SpliceTwice(b, p, Fields(vals[..n], w), ToBits(vals[n], w));
    }
  }

  /** What `w` bits keep of each value. */
  function LowAll(vals: seq<int>, w: nat): (r: seq<int>)
    ensures |r| == |vals|
  {
    seq(|vals|, i requires 0 <= i < |vals| => Low(vals[i], w))
  }

  lemma LowAllSame(vals: seq<int>, w: nat)
    requires AllBelow(vals, w)
    ensures LowAll(vals, w) == vals
  {
    forall i | 0 <= i < |vals| ensures Low(vals[i], w) == vals[i] {
      LowSmall(vals[i], w);
    }
  }

  /** `x` stands in `b` from bit `p` on. */
  ghost predicate At(b: bits, p: nat, x: bits) {
    p + |x| <= |b| && b[p..p + |x|] == x
  }

  lemma Associates(x: bits, y: bits, z: bits)
    ensures x + (y + z) == x + y + z
  {
  }

  lemma AtParts(b: bits, p: nat, x: bits, y: bits)
    requires At(b, p, x + y)
    ensures At(b, p, x) && At(b, p + |x|, y)
  {
    var z := b[p..p + |x + y|];
    assert z[..|x|] == b[p..p + |x|];
    assert z[|x|..] == b[p + |x|..p + |x| + |y|];
  }

  /** Loading fields that were written in a row. */
  lemma {:induction false} LoadOfFields(b: bits, vals: seq<int>, p: nat, w: nat)
    requires At(b, p, Fields(vals, w))
    ensures Within(p, w, 0, |vals|, |b|)
    ensures LoadAll(b, p, w, 0, |vals|) == LowAll(vals, w)
    decreases |vals|
  {
    hide Pow2, ToBits, Val, Low, At, Cut;
    AtFits(b, p, Fields(vals, w));
    WithinProduct(p, w, |vals|, |b|);
    if |vals| > 0 {
      var n := |vals| - 1;
      FieldAtProduct(p, w, n);
      assert w * |vals| == w * n + w;
      AtParts(b, p, Fields(vals[..n], w), ToBits(vals[n], w));
      LoadOfFields(b, vals[..n], p, w);
      AtCut(b, p + w * n, ToBits(vals[n], w));
      ValOfToBits(vals[n], w);
    }
  }

  lemma AtFits(b: bits, p: nat, x: bits)
    requires At(b, p, x)
    ensures p + |x| <= |b|
  {
  }

  lemma AtCut(b: bits, p: nat, x: bits)
    requires At(b, p, x)
    ensures p + |x| <= |b| && Cut(b, p, |x|) == x
  {
  }

  // ---- sections of group references, widths and lengths ----

  function SectionSize(nb: nat, n: nat): nat {
    if nb == 0 then 0 else Pad8(nb * n)
  }

  /** The fields of all groups, filled up with zeros to a whole octet; nothing for width 0. */
  function Section(vals: seq<int>, nb: nat): (b: bits)
    ensures |b| == SectionSize(nb, |vals|)
  {
    if nb == 0 then [] else Fields(vals, nb) + Zeros(Pad8(nb * |vals|) - nb * |vals|)
  }

  function SectionValues(b: bits, p: nat, nb: nat, n: nat): (r: seq<int>)
    requires p + SectionSize(nb, n) <= |b|
    ensures |r| == n && forall i :: 0 <= i < n ==> 0 <= r[i]
  {
    if nb == 0 then seq(n, i => 0)
    else
      WithinProduct(p, nb, n, |b|);
      LoadAll(b, p, nb, 0, n)
  }

  lemma SectionRead(b: bits, p: nat, vals: seq<int>, nb: nat)
    requires At(b, p, Section(vals, nb))
    ensures p + SectionSize(nb, |vals|) <= |b|
    ensures SectionValues(b, p, nb, |vals|) == LowAll(vals, nb)
  {
    hide Pow2, At, Low;
    AtFits(b, p, Section(vals, nb));
    if nb == 0 {
      forall i | 0 <= i < |vals| ensures Low(vals[i], 0) == 0 {
        LowZero(vals[i]);
      }
    } else {
      AtParts(b, p, Fields(vals, nb), Zeros(Pad8(nb * |vals|) - nb * |vals|));
      LoadOfFields(b, vals, p, nb);
    }
  }

  lemma LowZero(v: int)
    ensures Low(v, 0) == 0
  {
  }

  // ---- signed numbers of the differencing header ----

  function SignedBits(v: int, n: nat): (b: bits)
    requires n >= 1
    ensures |b| == n
  {
    [v < 0] + ToBits(if v < 0 then -v else v, n - 1)
  }

  function SignedAt(b: bits, p: nat, n: nat): int
    requires n >= 1 && p + n <= |b|
  {
    var magnitude: int := Val(Cut(b, p + 1, n - 1));
    if b[p] then -magnitude else magnitude
  }

  lemma SignedRead(b: bits, p: nat, v: int, n: nat)
    requires n >= 1 && At(b, p, SignedBits(v, n)) && -Pow2(n - 1) < v < Pow2(n - 1)
    ensures SignedAt(b, p, n) == v
  {
    hide Pow2, ToBits, Val;
    var m := if v < 0 then -v else v;
    AtParts(b, p, [v < 0], ToBits(m, n - 1));
    AtCut(b, p + 1, ToBits(m, n - 1));
    ValOfToBitsExact(m, n - 1);
  }

  /** One sign bit and a magnitude (comunpack.c, lines 111-127; g2_unpack3.c, lines 142-144). */
  method ReadSigned(cpack: array<byte>, iofst: nat, n: nat) returns (v: int)
    requires n >= 2 && iofst + n <= 8 * cpack.Length
    ensures v == SignedAt(BitsOf(cpack[..]), iofst, n)
  {
    var isign := LoadField(cpack, iofst, 1);
    SignBit(BitsOf(cpack[..]), iofst);
    v := LoadField(cpack, iofst + 1, n - 1);
    if isign == 1 {
      v := -v;
    }
  }

  lemma SignBit(b: bits, p: nat)
    requires p < |b|
    ensures Val(Cut(b, p, 1)) == if b[p] then 1 else 0
  {
    var c := Cut(b, p, 1);
    assert c[..0] == [] && c[0] == b[p];
    assert Val(c[..0]) == 0;
  }

  // ---- spatial differences ----

  /** The values that `minsd` and the first one or two values turn back into the data. */
  function Integrate(order: int, ival1: int, ival2: int, minsd: int, xs: seq<int>): (r: seq<int>)
    ensures |r| == |xs|
  {
    if order != 1 && order != 2 then xs
    else if |xs| == 0 then []
    else
      var n := |xs| - 1;
      var before := Integrate(order, ival1, ival2, minsd, xs[..n]);
      var x :=
        if n == 0 then ival1
        else if order == 1 then xs[n] + minsd + before[n - 1]
        else if n == 1 then ival2
        else xs[n] + minsd + (2 * before[n - 1]) - before[n - 2];
      before + [x]
  }

  /** The difference at place `k`, which is at least `order`. */
  function Difference(order: int, vs: seq<int>, k: int): int
    requires 0 <= k < |vs| && (order == 1 ==> k >= 1) && (order == 2 ==> k >= 2)
  {
    if order == 1 then vs[k] - vs[k - 1]
    else if order == 2 then vs[k] - (2 * vs[k - 1]) + vs[k - 2]
    else vs[k]
  }

  ghost predicate IsDifferenced(order: int, vs: seq<int>, ival1: int, ival2: int, minsd: int, xs: seq<int>) {
    && |xs| == |vs|
    && (|vs| > 0 ==> ival1 == vs[0])
    && (|vs| > 1 && order == 2 ==> ival2 == vs[1])
    && (forall k :: order <= k < |vs| ==> k >= 0 && xs[k] == Difference(order, vs, k) - minsd)
  }

  lemma {:induction false} IntegrateUndoes(order: int, vs: seq<int>, ival1: int, ival2: int, minsd: int, xs: seq<int>)
    requires order == 1 || order == 2
    requires IsDifferenced(order, vs, ival1, ival2, minsd, xs)
    ensures Integrate(order, ival1, ival2, minsd, xs) == vs
    decreases |vs|
  {
    if |vs| > 0 {
      var n := |vs| - 1;
      assert IsDifferenced(order, vs[..n], ival1, ival2, minsd, xs[..n]) by {
        forall k | order <= k < n ensures xs[..n][k] == Difference(order, vs[..n], k) - minsd {
          assert Difference(order, vs[..n], k) == Difference(order, vs, k);
        }
      }
      IntegrateUndoes(order, vs[..n], ival1, ival2, minsd, xs[..n]);
    }
  }

  // ---- samples ----

  function Reals(cells: seq<Sample>): (r: seq<int>)
    ensures |r| <= |cells|
  {
    if |cells| == 0 then []
    else
      var n := |cells| - 1;
      Reals(cells[..n]) + (if cells[n].Real? then [cells[n].v] else [])
  }

  /** The cells with their values replaced, in order. */
  function Expand(cells: seq<Sample>, vals: seq<int>): (r: seq<Sample>)
    requires |vals| >= |Reals(cells)|
    ensures |r| == |cells|
  {
    if |cells| == 0 then []
    else
      var n := |cells| - 1;
      Expand(cells[..n], vals) +
      [if cells[n].Real? then Real(vals[|Reals(cells[..n])|]) else cells[n]]
  }

  /** The same places hold values, and the other places the same marks. */
  ghost predicate SameShape(s: seq<Sample>, t: seq<Sample>) {
    |s| == |t| && forall i :: 0 <= i < |s| ==> s[i].Real? == t[i].Real? && (!s[i].Real? ==> s[i] == t[i])
  }

  lemma {:induction false} SameShapeReals(s: seq<Sample>, t: seq<Sample>)
    requires SameShape(s, t)
    ensures |Reals(s)| == |Reals(t)|
    decreases |s|
  {
    if |s| > 0 {
      SameShapeReals(s[..|s| - 1], t[..|t| - 1]);
    }
  }

  lemma RealsLast(s: seq<Sample>)
    requires s != []
    ensures var n := |s| - 1;
      Reals(s) == Reals(s[..n]) + if s[n].Real? then [s[n].v] else []
  {
  }

  lemma ExpandLast(s: seq<Sample>, vals: seq<int>)
    requires s != [] && |vals| >= |Reals(s)|
    ensures var n := |s| - 1;
      && |Reals(s[..n])| + (if s[n].Real? then 1 else 0) == |Reals(s)|
      && Expand(s, vals) == Expand(s[..n], vals) + [if s[n].Real? then Real(vals[|Reals(s[..n])|]) else s[n]]
  {
  }

  /** Putting the values of `t` in the places of `s` gives `t`. */
  lemma {:induction false} ExpandSame(s: seq<Sample>, t: seq<Sample>, vals: seq<int>)
    requires SameShape(s, t) && Reals(t) <= vals
    ensures |Reals(s)| <= |vals| && Expand(s, vals) == t
    decreases |s|
  {
    hide Reals, Expand;
    SameShapeReals(s, t);
    if |s| > 0 {
      var n := |s| - 1;
      RealsLast(t);
      ExpandLast(s, vals);
      ExpandSame(s[..n], t[..n], vals);
      SameShapeReals(s[..n], t[..n]);
      assert t == t[..n] + [t[n]];
    }
  }

  function AsReals(vals: seq<int>): (r: seq<Sample>)
    ensures |r| == |vals|
  {
    seq(|vals|, i requires 0 <= i < |vals| => Real(vals[i]))
  }

  lemma {:induction false} RealsOfAsReals(vals: seq<int>)
    ensures Reals(AsReals(vals)) == vals
    decreases |vals|
  {
    if |vals| > 0 {
      var n := |vals| - 1;
      RealsOfAsReals(vals[..n]);
      assert AsReals(vals)[..n] == AsReals(vals[..n]);
    }
  }

  /** The entry of the missing value map (`ifldmiss`). */
  function MarkOf(c: Sample): int {
    match c
    case Real(_) => 0
    case Primary => 1
    case Secondary => 2
  }

  lemma {:induction false} RealsOfPrefix(cells: seq<Sample>, n: nat)
    requires n <= |cells|
    ensures |Reals(cells[..n])| <= |Reals(cells)|
    decreases |cells|
  {
    if n < |cells| {
      RealsOfPrefix(cells[..|cells| - 1], n);
      assert cells[..|cells| - 1][..n] == cells[..n];
    } else {
      assert cells[..n] == cells;
    }
  }

  // ---- groups ----

  /** The meaning of one code in a group.  The two highest codes of a group stand for missing
      values; in a group of width 0, the two highest references do. */
  function CellOf(missing: nat, nbr: nat, ref: int, width: nat, code: int): Sample {
    if missing == 0 then Real(code + ref)
    else if width != 0 then
      if code == Pow2(width) - 1 then Primary
      else if missing == 2 && code == Pow2(width) - 2 then Secondary
      else Real(code + ref)
    else
      if ref == Pow2(nbr) - 1 then Primary
      else if missing == 2 && ref == Pow2(nbr) - 2 then Secondary
      else Real(ref)
  }

  function GroupCells(missing: nat, nbr: nat, ref: int, width: nat, codes: seq<int>): (r: seq<Sample>)
    ensures |r| == |codes|
  {
    seq(|codes|, i requires 0 <= i < |codes| => CellOf(missing, nbr, ref, width, codes[i]))
  }

  function TotalLength(lens: seq<int>): int {
    if |lens| == 0 then 0 else TotalLength(lens[..|lens| - 1]) + lens[|lens| - 1]
  }

  function TotalBits(widths: seq<int>, lens: seq<int>): int
    requires |widths| == |lens|
  {
    if |lens| == 0 then 0
    else
      var n := |lens| - 1;
      TotalBits(widths[..n], lens[..n]) + widths[n] * lens[n]
  }

  predicate NonNegative(s: seq<int>) {
    forall i :: 0 <= i < |s| ==> 0 <= s[i]
  }

  lemma {:induction false} TotalsNonNegative(widths: seq<int>, lens: seq<int>)
    requires |widths| == |lens| && NonNegative(widths) && NonNegative(lens)
    ensures 0 <= TotalBits(widths, lens) && 0 <= TotalLength(lens)
    decreases |lens|
  {
    if |lens| > 0 {
      var n := |lens| - 1;
      TotalsNonNegative(widths[..n], lens[..n]);
      assert 0 <= widths[n] * lens[n];
    }
  }

  lemma LastTotals(widths: seq<int>, lens: seq<int>)
    requires |widths| == |lens| >= 1 && NonNegative(widths) && NonNegative(lens)
    ensures var j := |lens| - 1;
      && 0 <= widths[j] * lens[j]
      && TotalBits(widths, lens) == TotalBits(widths[..j], lens[..j]) + widths[j] * lens[j]
      && TotalLength(lens) == TotalLength(lens[..j]) + lens[j]
  {
  }

  lemma {:induction false} TotalsPrefix(widths: seq<int>, lens: seq<int>, j: nat)
    requires |widths| == |lens| && j <= |lens| && NonNegative(widths) && NonNegative(lens)
    ensures 0 <= TotalBits(widths[..j], lens[..j]) <= TotalBits(widths, lens)
    ensures 0 <= TotalLength(lens[..j]) <= TotalLength(lens)
    decreases |lens|
  {
    TotalsNonNegative(widths[..j], lens[..j]);
    if j < |lens| {
      var n := |lens| - 1;
      TotalsPrefix(widths[..n], lens[..n], j);
      assert widths[..n][..j] == widths[..j] && lens[..n][..j] == lens[..j];
      assert 0 <= widths[n] * lens[n];
    } else {
      assert widths[..j] == widths && lens[..j] == lens;
    }
  }

  /** The codes of one group: zeros when its width is 0. */
  function CodesAt(b: bits, p: nat, width: nat, len: nat): (r: seq<int>)
    requires p + width * len <= |b|
    ensures |r| == len
  {
    if width == 0 then seq(len, i => 0)
    else
      WithinProduct(p, width, len, |b|);
      LoadAll(b, p, width, 0, len)
  }

  /** All groups, the data of the first one at bit `p`. */
  function Cells(b: bits, p: nat, missing: nat, nbr: nat, refs: seq<int>, widths: seq<int>,
                 lens: seq<int>): (r: seq<Sample>)
    requires |refs| == |widths| == |lens| && NonNegative(widths) && NonNegative(lens)
    requires p + TotalBits(widths, lens) <= |b|
    ensures |r| == TotalLength(lens)
    decreases |lens|
  {
    if |lens| == 0 then []
    else
      var n := |lens| - 1;
      TotalsNonNegative(widths[..n], lens[..n]);
      var q := p + TotalBits(widths[..n], lens[..n]);
      assert 0 <= widths[n] * lens[n];
      Cells(b, p, missing, nbr, refs[..n], widths[..n], lens[..n]) +
      GroupCells(missing, nbr, refs[n], widths[n], CodesAt(b, q, widths[n], lens[n]))
  }

  /** The data of all groups. */
  function Data(widths: seq<int>, lens: seq<int>, codes: seq<int>): (b: bits)
    requires |widths| == |lens| && NonNegative(widths) && NonNegative(lens)
    requires |codes| == TotalLength(lens)
    ensures |b| == TotalBits(widths, lens)
    decreases |lens|
  {
    if |lens| == 0 then []
    else
      var n := |lens| - 1;
      TotalsNonNegative(widths[..n], lens[..n]);
      var m := TotalLength(lens[..n]);
      Data(widths[..n], lens[..n], codes[..m]) + Fields(codes[m..], widths[n])
  }

  /** The codes of one group fit its width and mean its cells. */
  ghost predicate GroupReady(missing: nat, nbr: nat, ref: int, width: nat, codes: seq<int>, cells: seq<Sample>) {
    && |codes| == |cells|
    && (width > 0 ==> AllBelow(codes, width))
    && forall i :: 0 <= i < |cells| ==> CellOf(missing, nbr, ref, width, if width == 0 then 0 else codes[i]) == cells[i]
  }

  ghost predicate Ready(missing: nat, nbr: nat, refs: seq<int>, widths: seq<int>, lens: seq<int>, codes: seq<int>,
                        cells: seq<Sample>)
    requires |refs| == |widths| == |lens| && NonNegative(widths) && NonNegative(lens)
    decreases |lens|
  {
    if |lens| == 0 then |codes| == 0 && |cells| == 0
    else
      var n := |lens| - 1;
      TotalsNonNegative(widths[..n], lens[..n]);
      var m := TotalLength(lens[..n]);
      && |codes| == |cells| == TotalLength(lens)
      && Ready(missing, nbr, refs[..n], widths[..n], lens[..n], codes[..m], cells[..m])
      && GroupReady(missing, nbr, refs[n], widths[n], codes[m..], cells[m..])
  }

  lemma LastData(widths: seq<int>, lens: seq<int>, codes: seq<int>)
    requires 1 <= |lens| == |widths| && NonNegative(widths) && NonNegative(lens) && TotalLength(lens) == |codes|
    ensures var ng := |lens| - 1; var n := TotalLength(lens[..ng]);
      && 0 <= n <= |codes|
      && Data(widths, lens, codes) == Data(widths[..ng], lens[..ng], codes[..n]) + Fields(codes[n..], widths[ng])
  {
    TotalsNonNegative(widths[..|lens| - 1], lens[..|lens| - 1]);
  }

  lemma LastReady(missing: nat, nbr: nat, refs: seq<int>, widths: seq<int>, lens: seq<int>, codes: seq<int>,
                  cells: seq<Sample>)
    requires 1 <= |lens| == |widths| == |refs| && NonNegative(widths) && NonNegative(lens)
    requires Ready(missing, nbr, refs, widths, lens, codes, cells)
    ensures var n := |lens| - 1; var m := TotalLength(lens[..n]);
      && 0 <= m <= |codes| == |cells|
      && Ready(missing, nbr, refs[..n], widths[..n], lens[..n], codes[..m], cells[..m])
      && GroupReady(missing, nbr, refs[n], widths[n], codes[m..], cells[m..])
  {
    hide GroupReady;
    TotalsNonNegative(widths[..|lens| - 1], lens[..|lens| - 1]);
  }

  /** Reading the data of ready groups gives their cells. */
  lemma {:induction false} CellsOfData(b: bits, p: nat, missing: nat, nbr: nat, refs: seq<int>, widths: seq<int>,
                                       lens: seq<int>, codes: seq<int>, cells: seq<Sample>)
    requires |refs| == |widths| == |lens| && NonNegative(widths) && NonNegative(lens)
    requires |codes| == TotalLength(lens) && Ready(missing, nbr, refs, widths, lens, codes, cells)
    requires At(b, p, Data(widths, lens, codes))
    ensures p + TotalBits(widths, lens) <= |b|
    ensures Cells(b, p, missing, nbr, refs, widths, lens) == cells
    decreases |lens|
  {
    hide Pow2, At, CellOf, Fields, GroupCells, GroupReady, AllBelow, CodesAt, TotalBits, Data;
    AtFits(b, p, Data(widths, lens, codes));
    if |lens| > 0 {
      var n := |lens| - 1;
      TotalsNonNegative(widths[..n], lens[..n]);
      LastBits(widths, lens);
      LastData(widths, lens, codes);
      LastReady(missing, nbr, refs, widths, lens, codes, cells);
      var m := TotalLength(lens[..n]);
      var q := p + TotalBits(widths[..n], lens[..n]);
      AtParts(b, p, Data(widths[..n], lens[..n], codes[..m]), Fields(codes[m..], widths[n]));
      CellsOfData(b, p, missing, nbr, refs[..n], widths[..n], lens[..n], codes[..m], cells[..m]);
      GroupOfData(b, q, missing, nbr, refs[n], widths[n], codes[m..], cells[m..]);
      assert cells == cells[..m] + cells[m..];
    }
  }

  lemma LastBits(widths: seq<int>, lens: seq<int>)
    requires |widths| == |lens| > 0
    ensures var n := |lens| - 1; TotalBits(widths, lens) == TotalBits(widths[..n], lens[..n]) + widths[n] * lens[n]
  {
  }

  lemma GroupOfData(b: bits, q: nat, missing: nat, nbr: nat, ref: int, width: nat, codes: seq<int>, cells: seq<Sample>)
    requires GroupReady(missing, nbr, ref, width, codes, cells) && At(b, q, Fields(codes, width))
    ensures q + width * |codes| <= |b|
    ensures GroupCells(missing, nbr, ref, width, CodesAt(b, q, width, |codes|)) == cells
  {
    hide Pow2, At, CellOf, Fields;
    AtFits(b, q, Fields(codes, width));
    if width > 0 {
      LoadOfFields(b, codes, q, width);
      LowAllSame(codes, width);
    }
  }

  // ---- the whole section ----

  /** The template entries that steer the decoder. */
  datatype Params = Params(diff: bool, order: int, nbitsd: int, nbr: int, missing: int, ngroups: int,
                           wref: int, nbw: int, lref: int, linc: int, llast: int, nbl: int) {
    predicate Valid() {
      && nbitsd >= 0 && nbr >= 0 && 0 <= missing <= 2 && ngroups >= 0
      && wref >= 0 && nbw >= 0 && lref >= 0 && linc >= 0 && llast >= 0 && nbl >= 0
    }

    function HeadSize(): nat
      requires Valid()
    {
      if !diff then 0 else if order == 2 then nbitsd + nbitsd + nbitsd else nbitsd + nbitsd
    }

    function WidthsAt(): nat
      requires Valid()
    {
      HeadSize() + SectionSize(nbr, ngroups)
    }

    function LengthsAt(): nat
      requires Valid()
    {
      WidthsAt() + SectionSize(nbw, ngroups)
    }

    function DataAt(): nat
      requires Valid()
    {
      LengthsAt() + SectionSize(nbl, ngroups)
    }
  }

  function ParamsOf(idrsnum: int, t: seq<int>): Params
    requires |t| >= TEMPLATE_SIZE
  {
    Params(idrsnum == 3, if idrsnum == 3 then t[ORDER] else 0, if idrsnum == 3 then t[OCTETS_SD] * 8 else 0,
           t[NBITS_GREF], t[MISSING], t[NGROUPS], t[WIDTH_REF], t[NBITS_WIDTH], t[LENGTH_REF], t[LENGTH_INC],
           t[LAST_LENGTH], t[NBITS_LENGTH])
  }

  function GroupRefs(b: bits, p: Params): (r: seq<int>)
    requires p.Valid() && p.DataAt() <= |b|
    ensures |r| == p.ngroups
  {
    SectionValues(b, p.HeadSize(), p.nbr, p.ngroups)
  }

  function GroupWidths(b: bits, p: Params): (r: seq<int>)
    requires p.Valid() && p.DataAt() <= |b|
    ensures |r| == p.ngroups && NonNegative(r)
  {
    AddTo(SectionValues(b, p.WidthsAt(), p.nbw, p.ngroups), 1, p.wref)
  }

  function GroupLengths(b: bits, p: Params): (r: seq<int>)
    requires p.Valid() && p.DataAt() <= |b| && p.ngroups > 0
    ensures |r| == p.ngroups && NonNegative(r)
  {
    AddTo(SectionValues(b, p.LengthsAt(), p.nbl, p.ngroups), p.linc, p.lref)[p.ngroups - 1 := p.llast]
  }

  function AddTo(s: seq<int>, factor: nat, ref: nat): (r: seq<int>)
    ensures |r| == |s| && (NonNegative(s) ==> NonNegative(r))
  {
    var r := seq(|s|, i requires 0 <= i < |s| => s[i] * factor + ref);
    assert NonNegative(s) ==> forall i :: 0 <= i < |s| ==> 0 <= s[i] * factor;
    r
  }

  /** First value, second value and least difference; zeros when there is no header. */
  function Head(b: bits, p: Params): (int, int, int)
    requires p.Valid() && p.HeadSize() <= |b|
  {
    if !p.diff || p.nbitsd == 0 then (0, 0, 0)
    else if p.order == 2 then
      (SignedAt(b, 0, p.nbitsd), SignedAt(b, p.nbitsd, p.nbitsd), SignedAt(b, p.nbitsd + p.nbitsd, p.nbitsd))
    else (SignedAt(b, 0, p.nbitsd), 0, SignedAt(b, p.nbitsd, p.nbitsd))
  }

  datatype Unpacked = Unpacked(samples: seq<Sample>) | Inconsistent

  /** The bits that the decoder reads are there. */
  ghost predicate Readable(b: bits, p: Params, ndpts: nat, lensec: int) {
    && p.Valid()
    && (p.ngroups > 0 ==>
      && p.DataAt() <= |b|
      && (Consistent(b, p, ndpts, lensec) ==>
        p.DataAt() + TotalBits(GroupWidths(b, p), GroupLengths(b, p)) <= |b|))
  }

  /** The two checks of the decoder (comunpack.c, lines 191-202). */
  predicate Consistent(b: bits, p: Params, ndpts: nat, lensec: int)
    requires p.Valid() && p.DataAt() <= |b| && p.ngroups > 0
  {
    && TotalLength(GroupLengths(b, p)) == ndpts
    && TotalBits(GroupWidths(b, p), GroupLengths(b, p)) <= 8 * lensec
  }

  /** What the decoder makes of a bit string. */
  function Decode(b: bits, p: Params, ndpts: nat, lensec: int): Unpacked
    requires Readable(b, p, ndpts, lensec)
  {
    if p.ngroups == 0 then Unpacked(seq(ndpts, i => Real(0)))
    else if !Consistent(b, p, ndpts, lensec) then Inconsistent
    else
      var cells := Cells(b, p.DataAt(), p.missing, p.nbr, GroupRefs(b, p), GroupWidths(b, p), GroupLengths(b, p));
      var (ival1, ival2, minsd) := Head(b, p);
      var order := if p.diff then p.order else 0;
      Unpacked(Expand(cells, Integrate(order, ival1, ival2, minsd, Reals(cells))))
  }

  // ---- what an encoder writes ----

  /** Group descriptions and codes, with the references and field widths chosen for them. */
  datatype Plan = Plan(refs: seq<int>, nbr: nat, widths: seq<int>, wref: nat, nbw: nat,
                       lens: seq<int>, lref: nat, linc: nat, nbl: nat, lfields: seq<int>, codes: seq<int>) {
    predicate Valid() {
      && |refs| == |widths| == |lens| == |lfields| >= 1 && NonNegative(widths) && NonNegative(lens)
      && |codes| == TotalLength(lens)
    }

    /** The width fields. */
    function WidthFields(): (r: seq<int>)
      ensures |r| == |widths|
    {
      seq(|widths|, i requires 0 <= i < |widths| => widths[i] - wref)
    }

    function Stream(head: bits): (b: bits)
      requires Valid()
    {
      head + Section(refs, nbr) + Section(WidthFields(), nbw) + Section(lfields, nbl) + Data(widths, lens, codes)
    }

    /** The fields fit their widths, lengths are counted in steps of any size above the
        reference but for the last one, and the groups are ready to mean `cells`. */
    ghost predicate Means(missing: nat, cells: seq<Sample>)
      requires Valid()
    {
      && AllBelow(refs, nbr) && AllBelow(WidthFields(), nbw)
      && (forall i :: 0 <= i < |lens| - 1 ==> 0 <= lfields[i] < Pow2(nbl) && lens[i] == lfields[i] * linc + lref)
      && Ready(missing, nbr, refs, widths, lens, codes, cells)
    }

    ghost predicate Describes(p: Params)
      requires Valid()
    {
      && p.Valid() && p.nbr == nbr && p.ngroups == |refs| && p.wref == wref && p.nbw == nbw
      && p.lref == lref && p.linc == linc && p.llast == lens[|lens| - 1] && p.nbl == nbl
    }
  }

  /** Where the parts of a stream stand. */
  lemma StreamParts(b: bits, pl: Plan, head: bits)
    requires pl.Valid() && At(b, 0, pl.Stream(head))
    ensures var n := |pl.refs|;
      var p1 := |head| + SectionSize(pl.nbr, n);
      var p2 := p1 + SectionSize(pl.nbw, n);
      && At(b, 0, head) && At(b, |head|, Section(pl.refs, pl.nbr))
      && At(b, p1, Section(pl.WidthFields(), pl.nbw)) && At(b, p2, Section(pl.lfields, pl.nbl))
      && At(b, p2 + SectionSize(pl.nbl, n), Data(pl.widths, pl.lens, pl.codes))
  {
    hide At, Section, Data, SectionSize;
    var x1, x2 := Section(pl.refs, pl.nbr), Section(pl.WidthFields(), pl.nbw);
    var x3, x4 := Section(pl.lfields, pl.nbl), Data(pl.widths, pl.lens, pl.codes);
    AtParts(b, 0, head + x1 + x2 + x3, x4);
    AtParts(b, 0, head + x1 + x2, x3);
    AtParts(b, 0, head + x1, x2);
    AtParts(b, 0, head, x1);
  }

  /** Reading back the group descriptions. */
  lemma DescriptionsRead(b: bits, pl: Plan, head: bits, p: Params, missing: nat, cells: seq<Sample>)
    requires pl.Valid() && At(b, 0, pl.Stream(head)) && pl.Means(missing, cells)
    requires pl.Describes(p) && p.HeadSize() == |head|
    ensures p.DataAt() <= |b| && At(b, p.DataAt(), Data(pl.widths, pl.lens, pl.codes))
    ensures GroupRefs(b, p) == pl.refs && GroupWidths(b, p) == pl.widths && GroupLengths(b, p) == pl.lens
  {
    hide At, Section, Data, SectionSize, Pow2, Low, Ready;
    StreamParts(b, pl, head);
    AtFits(b, p.DataAt(), Data(pl.widths, pl.lens, pl.codes));
    SectionRead(b, p.HeadSize(), pl.refs, pl.nbr);
    LowAllSame(pl.refs, pl.nbr);
    SectionRead(b, p.WidthsAt(), pl.WidthFields(), pl.nbw);
    LowAllSame(pl.WidthFields(), pl.nbw);
    assert GroupWidths(b, p) == pl.widths;
    SectionRead(b, p.LengthsAt(), pl.lfields, pl.nbl);
    forall i | 0 <= i < |pl.lens| - 1 ensures GroupLengths(b, p)[i] == pl.lens[i] {
      LowSmall(pl.lfields[i], pl.nbl);
    }
  }

  /** The decoder gets back exactly what an encoder meant, for every cut into groups. */
  lemma DecodeOfStream(b: bits, pl: Plan, head: bits, p: Params, cells: seq<Sample>, samples: seq<Sample>,
                       ival1: int, ival2: int, minsd: int, ndpts: nat, lensec: int)
    requires pl.Valid() && pl.Describes(p) && At(b, 0, pl.Stream(head)) && pl.Means(p.missing, cells)
    requires p.HeadSize() == |head| && Head(b, p) == (ival1, ival2, minsd)
    requires |samples| == ndpts && SameShape(cells, samples) && |pl.Stream(head)| <= 8 * lensec
    requires Integrate(if p.diff then p.order else 0, ival1, ival2, minsd, Reals(cells)) == Reals(samples)
    ensures Readable(b, p, ndpts, lensec)
    ensures Decode(b, p, ndpts, lensec) == Unpacked(samples)
  {
    hide At, Section, SectionSize, Pow2, Ready, Cells, Integrate, Head, Expand, GroupRefs, GroupWidths, GroupLengths,
      TotalBits, TotalLength;
    DescriptionsRead(b, pl, head, p, p.missing, cells);
    CellsOfData(b, p.DataAt(), p.missing, p.nbr, pl.refs, pl.widths, pl.lens, pl.codes, cells);
    ExpandSame(cells, samples, Reals(samples));
    CellsLength(p.missing, pl, cells);
  }

  lemma CellsLength(missing: nat, pl: Plan, cells: seq<Sample>)
    requires pl.Valid() && pl.Means(missing, cells)
    ensures |cells| == TotalLength(pl.lens)
  {
  }

  /** A decoder that is given at least `lcpack` octets gets the samples back. */
  ghost predicate Recovers(b: bits, p: Params, samples: seq<Sample>, lcpack: int) {
    forall lensec :: lensec >= lcpack ==>
      Readable(b, p, |samples|, lensec) && Decode(b, p, |samples|, lensec) == Unpacked(samples)
  }
}
