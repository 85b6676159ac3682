/** Template entries of sections 3, 4 and 5: each in the number of octets that an octet map
    gives, with sign and magnitude where the map is negative, and an extension whose map
    depends on entries before it (g2_addgrid.c, g2_addfield.c, g2_unpack3.c to g2_unpack5.c,
    pdstemplates.c, gridtemplates.c). */
module Templates {
  import opened Binary
  import opened BitFields
  import opened Packing
  import opened Encoder

  function Octets(m: int): nat { if m < 0 then -m else m }

  /** The bits of an entry. */
  function EntryBits(v: int, m: int): (b: bits)
    ensures |b| == 8 * Octets(m)
  {
    if m >= 0 || v >= 0 then ToBits(v, 8 * Octets(m)) else [true] + ToBits(-v, 8 * Octets(m) - 1)
  }

  /** The entry that the decoder makes of the bits at `p`. */
  function EntryAt(b: bits, p: nat, m: int): int
    requires p + 8 * Octets(m) <= |b|
  {
    if m >= 0 then Val(Cut(b, p, 8 * m)) else SignedAt(b, p, 8 * Octets(m))
  }

  predicate Fits(v: int, m: int) {
    if m >= 0 then 0 <= v < Pow2(8 * m) else -Pow2(8 * Octets(m) - 1) < v < Pow2(8 * Octets(m) - 1)
  }

  /** An entry comes back if and only if it fits its octets. */
  lemma EntryRead(b: bits, p: nat, v: int, m: int)
    requires At(b, p, EntryBits(v, m))
    ensures p + 8 * Octets(m) <= |b|
    ensures EntryAt(b, p, m) == v <==> Fits(v, m)
  {
    hide Pow2, ToBits, Val, At, Cut;
    var w := 8 * Octets(m);
    AtFits(b, p, EntryBits(v, m));
    if m >= 0 {
      AtCut(b, p, ToBits(v, w));
      ValOfToBits(v, w);
      LowSame(v, w);
    } else if v >= 0 {
      NonNegativeEntry(b, p, v, w);
    } else {
      AtParts(b, p, [true], ToBits(-v, w - 1));
      FirstBit(b, p, true);
      AtCut(b, p + 1, ToBits(-v, w - 1));
      ValOfToBits(-v, w - 1);
      LowSame(-v, w - 1);
    }
  }

  lemma LowSame(v: int, w: nat)
    ensures Low(v, w) == v <==> 0 <= v < Pow2(w)
  {
    if 0 <= v < Pow2(w) {
      LowSmall(v, w);
    }
  }

  lemma FirstBit(b: bits, p: nat, bit: bool)
    requires At(b, p, [bit])
    ensures p < |b| && b[p] == bit
  {
    assert b[p..p + 1][0] == bit;
  }

  /** A value that is not negative but needs the place of the sign is taken for a negative one. */
  lemma NonNegativeEntry(b: bits, p: nat, v: int, w: nat)
    requires w >= 1 && v >= 0 && At(b, p, ToBits(v, w))
    ensures p + w <= |b| && (SignedAt(b, p, w) == v <==> v < Pow2(w - 1))
  {
    hide Pow2, ToBits, Val, At, Cut;
    AtFits(b, p, ToBits(v, w));
    ToBitsSplit(v, 1, w - 1);
    AtParts(b, p, ToBits(Shr(v, w - 1), 1), ToBits(v, w - 1));
    AtCut(b, p + 1, ToBits(v, w - 1));
    ValOfToBits(v, w - 1);
    if v < Pow2(w - 1) {
      NoSign(v, w);
      SignedRead(b, p, v, w);
    } else {
      LowSame(v, w - 1);
    }
  }

  // ---- all entries ----

  function EntriesBits(vals: seq<int>, omap: seq<int>): bits
    requires |vals| == |omap|
  {
    if |omap| == 0 then []
    else
      var n := |omap| - 1;
      EntriesBits(vals[..n], omap[..n]) + EntryBits(vals[n], omap[n])
  }

  function MapBits(omap: seq<int>): nat {
    if |omap| == 0 then 0 else MapBits(omap[..|omap| - 1]) + 8 * Octets(omap[|omap| - 1])
  }

  lemma {:induction false} EntriesLength(vals: seq<int>, omap: seq<int>)
    requires |vals| == |omap|
    ensures |EntriesBits(vals, omap)| == MapBits(omap)
    decreases |omap|
  {
    if |omap| > 0 {
      EntriesLength(vals[..|omap| - 1], omap[..|omap| - 1]);
    }
  }

  function EntriesAt(b: bits, p: nat, omap: seq<int>): (r: seq<int>)
    requires p + MapBits(omap) <= |b|
    ensures |r| == |omap|
  {
    if |omap| == 0 then []
    else
      var n := |omap| - 1;
      EntriesAt(b, p, omap[..n]) + [EntryAt(b, p + MapBits(omap[..n]), omap[n])]
  }

  ghost predicate AllFit(vals: seq<int>, omap: seq<int>) {
    |vals| == |omap| && forall i :: 0 <= i < |omap| ==> Fits(vals[i], omap[i])
  }

  lemma SameLast(s: seq<int>, x: int, t: seq<int>)
    requires |t| == |s| + 1
    ensures s + [x] == t <==> s == t[..|s|] && x == t[|s|]
  {
    assert t == t[..|s|] + [t[|s|]];
    assert (s + [x])[..|s|] == s && (s + [x])[|s|] == x;
  }

  lemma FitLast(vals: seq<int>, omap: seq<int>)
    requires |vals| == |omap|
    ensures var n := |omap| - 1;
      AllFit(vals, omap) <==> n < 0 || (AllFit(vals[..n], omap[..n]) && Fits(vals[n], omap[n]))
  {
    hide Fits;
  }

  lemma {:induction false} EntriesRead(b: bits, p: nat, vals: seq<int>, omap: seq<int>)
    requires |vals| == |omap| && At(b, p, EntriesBits(vals, omap))
    ensures p + MapBits(omap) <= |b|
    ensures EntriesAt(b, p, omap) == vals <==> AllFit(vals, omap)
    decreases |omap|
  {
    hide At, EntryBits, EntryAt, Fits, AllFit;
    AtFits(b, p, EntriesBits(vals, omap));
    EntriesLength(vals, omap);
    if |omap| > 0 {
      var n := |omap| - 1;
      var x, y := EntriesBits(vals[..n], omap[..n]), EntryBits(vals[n], omap[n]);
      AtParts(b, p, x, y);
      EntriesLength(vals[..n], omap[..n]);
      EntriesRead(b, p, vals[..n], omap[..n]);
      EntryRead(b, p + MapBits(omap[..n]), vals[n], omap[n]);
      SameLast(EntriesAt(b, p, omap[..n]), EntryAt(b, p + MapBits(omap[..n]), omap[n]), vals);
    }
    FitLast(vals, omap);
  }

  lemma NextEntry(vals: seq<int>, omap: seq<int>, i: nat)
    requires |vals| == |omap| && i < |omap|
    ensures EntriesBits(vals[..i + 1], omap[..i + 1]) == EntriesBits(vals[..i], omap[..i]) + EntryBits(vals[i], omap[i])
    ensures MapBits(omap[..i + 1]) == MapBits(omap[..i]) + 8 * Octets(omap[i])
  {
    assert vals[..i + 1][..i] == vals[..i] && omap[..i + 1][..i] == omap[..i];
  }

  lemma {:induction false} MapPrefix(omap: seq<int>, i: nat)
    requires i <= |omap|
    ensures MapBits(omap[..i]) <= MapBits(omap)
    decreases |omap|
  {
    if i < |omap| {
      MapPrefix(omap[..|omap| - 1], i);
      assert omap[..|omap| - 1][..i] == omap[..i];
    } else {
      assert omap[..i] == omap;
    }
  }

  /** The loop that packs the entries (g2_addgrid.c, lines 190-199). */
  method PutEntries(cgrib: array<byte>, vals: seq<int>, omap: seq<int>, iofst0: nat, ghost gap: nat, ghost x: bits)
    returns (iofst: nat)
    requires |vals| == |omap| && HoldsBehind(cgrib, gap, x) && iofst0 == gap + |x|
    requires iofst0 + MapBits(omap) <= 8 * cgrib.Length
    modifies cgrib
    ensures HoldsBehind(cgrib, gap, x + EntriesBits(vals, omap)) && iofst == iofst0 + MapBits(omap)
    ensures KeepsBefore(old(cgrib[..]), cgrib[..], gap)
  {
    hide HoldsBehind, KeepsBefore, EntriesBits, MapBits, EntryBits;
    iofst := iofst0;
    NoEntries(vals, omap, x);
    KeepsSelf(cgrib[..], gap);
    for i := 0 to |omap|
      invariant HoldsBehind(cgrib, gap, x + EntriesBits(vals[..i], omap[..i]))
      invariant iofst == iofst0 + MapBits(omap[..i]) == gap + |x + EntriesBits(vals[..i], omap[..i])|
      invariant KeepsBefore(old(cgrib[..]), cgrib[..], gap)
    {
      NextEntry(vals, omap, i);
      MapPrefix(omap, i + 1);
      ghost var y, before := x + EntriesBits(vals[..i], omap[..i]), cgrib[..];
      assert y + EntryBits(vals[i], omap[i]) == x + EntriesBits(vals[..i + 1], omap[..i + 1]);
      PutEntry(cgrib, vals[i], omap[i], iofst, gap, y);
      KeepsLonger(old(cgrib[..]), before, cgrib[..], gap);
      iofst := iofst + 8 * Octets(omap[i]);
    }
    assert vals[..|omap|] == vals && omap[..|omap|] == omap;
  }

  lemma NoEntries(vals: seq<int>, omap: seq<int>, x: bits)
    ensures |vals| == |omap| ==> x + EntriesBits(vals[..0], omap[..0]) == x && MapBits(omap[..0]) == 0
  {
  }

  lemma EntryForm(x: bits, v: int, m: int)
    ensures m >= 0 || v >= 0 ==> EntryBits(v, m) == ToBits(v, 8 * Octets(m))
    ensures m < 0 && v < 0 ==> x + [true] + ToBits(-v, 8 * Octets(m) - 1) == x + EntryBits(v, m)
    ensures Octets(m) == 0 ==> x + EntryBits(v, m) == x
  {
  }

  method PutEntry(cgrib: array<byte>, v: int, m: int, iofst: nat, ghost gap: nat, ghost x: bits)
    requires HoldsBehind(cgrib, gap, x) && iofst == gap + |x| && iofst + 8 * Octets(m) <= 8 * cgrib.Length
    modifies cgrib
    ensures HoldsBehind(cgrib, gap, x + EntryBits(v, m))
    ensures KeepsBefore(old(cgrib[..]), cgrib[..], gap)
  {
    hide HoldsBehind, KeepsBefore, ToBits, EntryBits;
    var nbits := 8 * Octets(m);
    EntryForm(x, v, m);
    if m >= 0 || v >= 0 {
      if nbits > 0 {
        Append(cgrib, v, nbits, iofst, gap, x);
      } else {
        KeepsSelf(cgrib[..], gap);
      }
    } else {
      ghost var before := cgrib[..];
      Append(cgrib, 1, 1, iofst, gap, x);
      OneBit();
      ghost var middle := cgrib[..];
      Append(cgrib, -v, nbits - 1, iofst + 1, gap, x + [true]);
      KeepsLonger(before, middle, cgrib[..], gap);
    }
  }

  // ---- writing behind a message ----

  /** `x` stands from bit `gap` on. */
  ghost predicate HoldsBehind(cgrib: array<byte>, gap: nat, x: bits)
    reads cgrib
  {
    At(BitsOf(cgrib[..]), gap, x)
  }

  /** The bits before `gap` are the same. */
  ghost predicate KeepsBefore(before: seq<byte>, now: seq<byte>, gap: nat) {
    |before| == |now| && gap <= 8 * |now| && BitsOf(now)[..gap] == BitsOf(before)[..gap]
  }

  lemma KeepsSelf(s: seq<byte>, gap: nat)
    ensures gap <= 8 * |s| ==> KeepsBefore(s, s, gap)
  {
  }

  lemma KeepsLonger(a: seq<byte>, b: seq<byte>, c: seq<byte>, gap: nat)
    requires KeepsBefore(a, b, gap) && KeepsBefore(b, c, gap)
    ensures KeepsBefore(a, c, gap)
  {
  }

  method Append(cgrib: array<byte>, v: int, w: nat, iofst: nat, ghost gap: nat, ghost x: bits)
    requires w >= 1 && HoldsBehind(cgrib, gap, x) && iofst == gap + |x| && iofst + w <= 8 * cgrib.Length
    modifies cgrib
    ensures HoldsBehind(cgrib, gap, x + ToBits(v, w)) && KeepsBefore(old(cgrib[..]), cgrib[..], gap)
  {
    hide BitsOf, ToBits, At;
    SpliceBehind(BitsOf(cgrib[..]), gap, x, ToBits(v, w));
    StoreField(cgrib, v, iofst, w);
  }

  lemma SpliceBehind(b: bits, gap: nat, x: bits, y: bits)
    requires At(b, gap, x) && gap + |x| + |y| <= |b|
    ensures At(Splice(b, gap + |x|, y), gap, x + y) && Splice(b, gap + |x|, y)[..gap] == b[..gap]
  {
  }

  // ---- reading ----

  method GetEntry(cgrib: array<byte>, m: int, iofst: nat) returns (v: int)
    requires iofst + 8 * Octets(m) <= 8 * cgrib.Length
    ensures v == EntryAt(BitsOf(cgrib[..]), iofst, m)
  {
    hide BitsOf, Val, SignedAt;
    var nbits := 8 * Octets(m);
    if m > 0 {
      v := LoadField(cgrib, iofst, nbits);
    } else if m == 0 {
      v := 0;
      NoValue(BitsOf(cgrib[..]), iofst);
    } else {
      v := ReadSigned(cgrib, iofst, nbits);
    }
  }

  lemma NoValue(b: bits, p: nat)
    requires p <= |b|
    ensures Val(Cut(b, p, 0)) == 0
  {
  }

  /** The loop that unpacks the entries (g2_unpack3.c, lines 136-147). */
  method GetEntries(cgrib: array<byte>, omap: seq<int>, iofst0: nat) returns (vals: seq<int>, iofst: nat)
    requires iofst0 + MapBits(omap) <= 8 * cgrib.Length
    ensures vals == EntriesAt(BitsOf(cgrib[..]), iofst0, omap) && iofst == iofst0 + MapBits(omap)
  {
    hide BitsOf, EntryAt, MapBits;
    vals, iofst := [], iofst0;
    ghost var b := BitsOf(cgrib[..]);
    EntriesNone(b, iofst0, omap);
    for i := 0 to |omap|
      invariant iofst == iofst0 + MapBits(omap[..i]) <= |b|
      invariant vals == EntriesAt(b, iofst0, omap[..i])
    {
      MapPrefix(omap, i + 1);
      EntriesMore(b, iofst0, omap, i);
      var v := GetEntry(cgrib, omap[i], iofst);
      vals := vals + [v];
      iofst := iofst + 8 * Octets(omap[i]);
    }
    assert omap[..|omap|] == omap;
  }

  lemma EntriesNone(b: bits, p: nat, omap: seq<int>)
    requires p <= |b|
    ensures MapBits(omap[..0]) == 0 && EntriesAt(b, p, omap[..0]) == []
  {
  }

  lemma EntriesMore(b: bits, p: nat, omap: seq<int>, i: nat)
    requires i < |omap| && p + MapBits(omap[..i + 1]) <= |b|
    ensures MapBits(omap[..i + 1]) == MapBits(omap[..i]) + 8 * Octets(omap[i])
    ensures EntriesAt(b, p, omap[..i + 1]) == EntriesAt(b, p, omap[..i]) + [EntryAt(b, p + MapBits(omap[..i]), omap[i])]
  {
    hide EntryAt;
    assert omap[..i + 1][..i] == omap[..i];
  }

  // ---- templates with extensions ----

  /** What getpdstemplate and getgridtemplate know of a template. */
  datatype Template = Template(number: int, omap: seq<int>, needext: bool)

  function Repeat(block: seq<int>, n: int): (r: seq<int>)
    ensures n <= 0 ==> r == []
  {
    if n <= 0 then [] else Repeat(block, n - 1) + block
  }

  /** The first `n` entries: those that the length of the extension counts. */
  function FirstOf(s: seq<int>, n: int): (r: seq<int>)
    ensures r <= s
  {
    if n <= 0 then [] else if n <= |s| then s[..n] else s
  }

  lemma {:induction false} RepeatLength(block: seq<int>, n: int)
    ensures |Repeat(block, n)| == if n <= 0 then 0 else n * |block|
    decreases if n <= 0 then 0 else n
  {
    if n > 0 {
      RepeatLength(block, n - 1);
      assert n * |block| == (n - 1) * |block| + |block|;
    }
  }

  /** Six entries for every time range but the first, and the list of ones behind them: the
      length of the extension counts exactly that many entries if there is a time range, and
      otherwise too few unless there are no ones. */
  lemma CountedEntries(block: seq<int>, n: int, a: int)
    requires |block| == 6
    ensures var all := Repeat(block, n - 1) + Repeat([1], a);
      FirstOf(all, (n - 1) * 6 + a) == all <==>
      if n >= 1 then a >= 0 || n == 1 else a <= 0
  {
    hide Repeat;
    RepeatLength(block, n - 1);
    RepeatLength([1], a);
  }

  /** Where templates 13 and 14 keep the number of time ranges and of ones, and the entries of
      one time range. */
  function Ranges(t: Template, list: seq<int>): (int, int, seq<int>)
    requires |list| >= |t.omap| >= if t.number == 13 then 45 else 44
  {
    if t.number == 13 then (list[37], list[26], t.omap[39..45]) else (list[36], list[25], t.omap[38..44])
  }

  /** For templates 13 and 14 the length of the extension is that of its entries, all time
      ranges but the first and the ones, exactly when there is a time range or no ones. */
  lemma NoTimeRanges(t: Template, list: seq<int>)
    requires t.needext && (t.number == 13 || t.number == 14)
    requires |list| >= |t.omap| >= if t.number == 13 then 45 else 44
    ensures var (n, a, block) := Ranges(t, list);
      PdsExtension(t, list) == Repeat(block, n - 1) + Repeat([1], a) <==>
      if n >= 1 then a >= 0 || n == 1 else a <= 0
  {
    hide Repeat, FirstOf;
    var (n, a, block) := Ranges(t, list);
    CountedEntries(block, n, a);
  }

  /** The map of the extension (extpdstemplate), which reads entries of the static part. */
  function PdsExtension(t: Template, list: seq<int>): seq<int>
    requires |list| >= |t.omap|
  {
    if !t.needext then []
    else if t.number == 3 && |t.omap| > 26 then Repeat([1], list[26])
    else if t.number == 4 && |t.omap| > 25 then Repeat([1], list[25])
    else if t.number == 8 && |t.omap| >= 29 then Repeat(t.omap[23..29], list[21] - 1)
    else if t.number == 9 && |t.omap| >= 36 then Repeat(t.omap[30..36], list[28] - 1)
    else if t.number == 10 && |t.omap| >= 30 then Repeat(t.omap[24..30], list[22] - 1)
    else if t.number == 11 && |t.omap| >= 32 then Repeat(t.omap[26..32], list[24] - 1)
    else if t.number == 12 && |t.omap| >= 31 then Repeat(t.omap[25..31], list[23] - 1)
    else if t.number == 13 && |t.omap| >= 45 then
      FirstOf(Repeat(t.omap[39..45], list[37] - 1) + Repeat([1], list[26]), (list[37] - 1) * 6 + list[26])
    else if t.number == 14 && |t.omap| >= 44 then
      FirstOf(Repeat(t.omap[38..44], list[36] - 1) + Repeat([1], list[25]), (list[36] - 1) * 6 + list[25])
    else if (t.number == 30 || t.number == 31) && |t.omap| > 4 then Repeat([2, 2, 1, 1, 4], list[4])
    else []
  }

  /** The map of the extension (extgridtemplate). */
  function GridExtension(t: Template, list: seq<int>): seq<int>
    requires |list| >= |t.omap|
  {
    if !t.needext then []
    else if t.number == 120 && |t.omap| > 1 then Repeat([2, -2], list[1])
    else if t.number == 1000 && |t.omap| > 19 then Repeat([4], list[19])
    else if t.number == 1200 && |t.omap| > 15 then Repeat([4], list[15])
    else []
  }

  datatype Kind = Pds | Grid | Drs

  /** The whole map; data representation templates have no extension. */
  function FullMap(kind: Kind, t: Template, list: seq<int>): (r: seq<int>)
    requires |list| >= |t.omap|
    ensures t.omap <= r
  {
    t.omap + match kind case Pds => PdsExtension(t, list) case Grid => GridExtension(t, list) case Drs => []
  }

  /** `full` is `omap` with `n` times `block` behind it. */
  ghost predicate Prolongs(full: seq<int>, omap: seq<int>, block: seq<int>, n: int)
    requires |block| > 0
  {
    && |full| == |omap| + (if n <= 0 then 0 else n * |block|)
    && full[..|omap|] == omap
    && forall j :: |omap| <= j < |full| ==> full[j] == block[(j - |omap|) % |block|]
  }

  lemma {:induction false} RepeatAt(block: seq<int>, n: int, i: nat, k: nat)
    requires i < n && k < |block|
    ensures |Repeat(block, n)| == n * |block| && i * |block| + k < n * |block|
    ensures Repeat(block, n)[i * |block| + k] == block[k]
    decreases n
  {
    RepeatLength(block, n - 1);
    assert n * |block| == (n - 1) * |block| + |block|;
    if i < n - 1 {
      RepeatAt(block, n - 1, i, k);
    }
  }

  lemma QuotientBelow(j: nat, n: nat, w: nat)
    requires w > 0 && j < n * w
    ensures j / w < n && (j / w) * w + j % w == j
  {
    if j / w >= n {
      MulMono(n, j / w, w);
    }
  }

  lemma RepeatProlongs(omap: seq<int>, block: seq<int>, n: int)
    requires |block| > 0
    ensures Prolongs(omap + Repeat(block, n), omap, block, n)
  {
    hide Repeat;
    RepeatLength(block, n);
    forall j | 0 <= j < |Repeat(block, n)| ensures Repeat(block, n)[j] == block[j % |block|] {
      QuotientBelow(j, n, |block|);
      RepeatAt(block, n, j / |block|, j % |block|);
    }
  }

  /** The six entries of a time range, from place `at` on. */
  function TimeRange(m: seq<int>, at: nat): seq<int>
    requires at + 6 <= |m|
  {
    [m[at], m[at + 1], m[at + 2], m[at + 3], m[at + 4], m[at + 5]]
  }

  lemma TimeRangeIs(m: seq<int>, at: nat)
    requires at + 6 <= |m|
    ensures m[at..at + 6] == TimeRange(m, at)
  {
  }

  /** All other templates are what the tables say, and so are those without need of an extension. */
  lemma NoExtension(t: Template, list: seq<int>)
    requires |list| >= |t.omap|
    ensures FullMap(Drs, t, list) == t.omap
    ensures !t.needext || t.number !in {3, 4, 8, 9, 10, 11, 12, 13, 14, 30, 31} ==> FullMap(Pds, t, list) == t.omap
    ensures !t.needext || t.number !in {120, 1000, 1200} ==> FullMap(Grid, t, list) == t.omap
  {
  }

  /** Product templates 8 to 12 repeat their last six entries for every time range but the
      first; the places are those of section 4 of the code tables. */
  lemma TimeRangesRepeat(t: Template, list: seq<int>)
    requires t.needext && |list| >= |t.omap|
    ensures t.number == 8 && |t.omap| == 29 ==>
      Prolongs(FullMap(Pds, t, list), t.omap, TimeRange(t.omap, 23), list[21] - 1)
    ensures t.number == 9 && |t.omap| == 36 ==>
      Prolongs(FullMap(Pds, t, list), t.omap, TimeRange(t.omap, 30), list[28] - 1)
    ensures t.number == 10 && |t.omap| == 30 ==>
      Prolongs(FullMap(Pds, t, list), t.omap, TimeRange(t.omap, 24), list[22] - 1)
    ensures t.number == 11 && |t.omap| == 32 ==>
      Prolongs(FullMap(Pds, t, list), t.omap, TimeRange(t.omap, 26), list[24] - 1)
    ensures t.number == 12 && |t.omap| == 31 ==>
      Prolongs(FullMap(Pds, t, list), t.omap, TimeRange(t.omap, 25), list[23] - 1)
  {
    hide Repeat, Prolongs;
    match t.number
    case 8 =>
      if |t.omap| == 29 { TimeRangeIs(t.omap, 23); RepeatProlongs(t.omap, t.omap[23..29], list[21] - 1); }
    case 9 =>
      if |t.omap| == 36 { TimeRangeIs(t.omap, 30); RepeatProlongs(t.omap, t.omap[30..36], list[28] - 1); }
    case 10 =>
      if |t.omap| == 30 { TimeRangeIs(t.omap, 24); RepeatProlongs(t.omap, t.omap[24..30], list[22] - 1); }
    case 11 =>
      if |t.omap| == 32 { TimeRangeIs(t.omap, 26); RepeatProlongs(t.omap, t.omap[26..32], list[24] - 1); }
    case 12 =>
      if |t.omap| == 31 { TimeRangeIs(t.omap, 25); RepeatProlongs(t.omap, t.omap[25..31], list[23] - 1); }
    case _ =>
  }

  /** Templates whose extension has entries of fixed widths: ones for the clusters of product
      templates 3 and 4, five entries for every band of 30 and 31, and the lists of grid
      templates 120, 1000 and 1200. */
  lemma FixedWidthsRepeat(t: Template, list: seq<int>)
    requires t.needext && |list| >= |t.omap|
    ensures t.number == 3 && |t.omap| == 31 ==> Prolongs(FullMap(Pds, t, list), t.omap, [1], list[26])
    ensures t.number == 4 && |t.omap| == 30 ==> Prolongs(FullMap(Pds, t, list), t.omap, [1], list[25])
    ensures (t.number == 30 || t.number == 31) && |t.omap| == 5 ==>
      Prolongs(FullMap(Pds, t, list), t.omap, [2, 2, 1, 1, 4], list[4])
    ensures t.number == 120 && |t.omap| == 7 ==> Prolongs(FullMap(Grid, t, list), t.omap, [2, -2], list[1])
    ensures t.number == 1000 && |t.omap| == 20 ==> Prolongs(FullMap(Grid, t, list), t.omap, [4], list[19])
    ensures t.number == 1200 && |t.omap| == 16 ==> Prolongs(FullMap(Grid, t, list), t.omap, [4], list[15])
  {
    hide Repeat, Prolongs;
    match t.number
    case 3 => if |t.omap| == 31 { RepeatProlongs(t.omap, [1], list[26]); }
    case 4 => if |t.omap| == 30 { RepeatProlongs(t.omap, [1], list[25]); }
    case 30 => if |t.omap| == 5 { RepeatProlongs(t.omap, [2, 2, 1, 1, 4], list[4]); }
    case 31 => if |t.omap| == 5 { RepeatProlongs(t.omap, [2, 2, 1, 1, 4], list[4]); }
    case 120 => if |t.omap| == 7 { RepeatProlongs(t.omap, [2, -2], list[1]); }
    case 1000 => if |t.omap| == 20 { RepeatProlongs(t.omap, [4], list[19]); }
    case 1200 => if |t.omap| == 16 { RepeatProlongs(t.omap, [4], list[15]); }
    case _ =>
  }

  /** Templates 13 and 14 have both: the time ranges but the first, then the ones. */
  lemma EnsembleRanges(t: Template, list: seq<int>)
    requires t.needext && |list| >= |t.omap|
    ensures t.number == 13 && |t.omap| == 45 && list[37] >= 1 && list[26] >= 0 ==>
      exists mid :: Prolongs(mid, t.omap, TimeRange(t.omap, 39), list[37] - 1)
        && Prolongs(FullMap(Pds, t, list), mid, [1], list[26])
    ensures t.number == 14 && |t.omap| == 44 && list[36] >= 1 && list[25] >= 0 ==>
      exists mid :: Prolongs(mid, t.omap, TimeRange(t.omap, 38), list[36] - 1)
        && Prolongs(FullMap(Pds, t, list), mid, [1], list[25])
  {
    hide Repeat, Prolongs, FirstOf;
    if t.number == 13 && |t.omap| == 45 && list[37] >= 1 && list[26] >= 0 {
      TimeRangeIs(t.omap, 39);
      BothProlong(t, list, list[37], list[26], TimeRange(t.omap, 39));
    } else if t.number == 14 && |t.omap| == 44 && list[36] >= 1 && list[25] >= 0 {
      TimeRangeIs(t.omap, 38);
      BothProlong(t, list, list[36], list[25], TimeRange(t.omap, 38));
    }
  }

  lemma BothProlong(t: Template, list: seq<int>, n: int, a: int, block: seq<int>)
    requires |list| >= |t.omap| && n >= 1 && a >= 0 && |block| == 6
    requires FullMap(Pds, t, list) == t.omap + FirstOf(Repeat(block, n - 1) + Repeat([1], a), (n - 1) * 6 + a)
    ensures exists mid :: Prolongs(mid, t.omap, block, n - 1) && Prolongs(FullMap(Pds, t, list), mid, [1], a)
  {
    hide Repeat, Prolongs, FirstOf;
    CountedEntries(block, n, a);
    var mid := t.omap + Repeat(block, n - 1);
    RepeatProlongs(t.omap, block, n - 1);
    RepeatProlongs(mid, [1], a);
    assert mid + Repeat([1], a) == t.omap + (Repeat(block, n - 1) + Repeat([1], a));
  }

  /** The extension depends on the static entries alone. */
  lemma SameExtension(kind: Kind, t: Template, list: seq<int>)
    requires |list| >= |t.omap|
    ensures FullMap(kind, t, list[..|t.omap|]) == FullMap(kind, t, list)
  {
    hide Repeat, FirstOf;
    match kind
    case Pds => SamePds(t, list);
    case Grid =>
    case Drs =>
  }

  lemma SamePds(t: Template, list: seq<int>)
    requires |list| >= |t.omap|
    ensures PdsExtension(t, list[..|t.omap|]) == PdsExtension(t, list)
  {
    hide Repeat, FirstOf;
  }

  /** Packs a template: its static entries, and the extension that they ask for. */
  method PutTemplate(cgrib: array<byte>, kind: Kind, t: Template, vals: seq<int>, iofst0: nat, ghost gap: nat,
                     ghost x: bits) returns (iofst: nat)
    requires |vals| >= |t.omap| && |FullMap(kind, t, vals)| == |vals|
    requires HoldsBehind(cgrib, gap, x) && iofst0 == gap + |x|
    requires iofst0 + MapBits(FullMap(kind, t, vals)) <= 8 * cgrib.Length
    modifies cgrib
    ensures HoldsBehind(cgrib, gap, x + EntriesBits(vals, FullMap(kind, t, vals)))
    ensures iofst == iofst0 + MapBits(FullMap(kind, t, vals)) && KeepsBefore(old(cgrib[..]), cgrib[..], gap)
  {
    iofst := PutEntries(cgrib, vals, FullMap(kind, t, vals), iofst0, gap, x);
  }

  /** Unpacks a template: first the static entries, then the extension that they ask for. */
  method GetTemplate(cgrib: array<byte>, kind: Kind, t: Template, iofst0: nat)
    returns (ok: bool, vals: seq<int>, iofst: nat)
    requires iofst0 + MapBits(t.omap) <= 8 * cgrib.Length
    ensures var s := EntriesAt(BitsOf(cgrib[..]), iofst0, t.omap); var full := FullMap(kind, t, s);
      && ok == (iofst0 + MapBits(full) <= 8 * cgrib.Length)
      && (ok ==> vals == EntriesAt(BitsOf(cgrib[..]), iofst0, full) && iofst == iofst0 + MapBits(full))
  {
    hide BitsOf, EntryAt, MapBits, EntriesAt, PdsExtension, GridExtension;
    ghost var b := BitsOf(cgrib[..]);
    vals, iofst := GetEntries(cgrib, t.omap, iofst0);
    var full := FullMap(kind, t, vals);
    var ext := full[|t.omap|..];
    assert full == t.omap + ext;
    MapConcat(t.omap, ext);
    if iofst + MapBits(ext) > 8 * cgrib.Length { return false, vals, iofst; }
    EntriesConcat(b, iofst0, t.omap, ext);
    var more;
    more, iofst := GetEntries(cgrib, ext, iofst);
    vals := vals + more;
    ok := true;
  }

  lemma {:induction false} MapConcat(m1: seq<int>, m2: seq<int>)
    ensures MapBits(m1 + m2) == MapBits(m1) + MapBits(m2)
    decreases |m2|
  {
    if |m2| == 0 {
      assert m1 + m2 == m1;
    } else {
      MapConcat(m1, m2[..|m2| - 1]);
      assert (m1 + m2)[..|m1 + m2| - 1] == m1 + m2[..|m2| - 1];
    }
  }

  lemma {:induction false} EntriesConcat(b: bits, p: nat, m1: seq<int>, m2: seq<int>)
    requires p + MapBits(m1) + MapBits(m2) <= |b|
    ensures MapBits(m1 + m2) == MapBits(m1) + MapBits(m2)
    ensures EntriesAt(b, p, m1 + m2) == EntriesAt(b, p, m1) + EntriesAt(b, p + MapBits(m1), m2)
    decreases |m2|
  {
    hide EntryAt, EntriesAt, MapBits;
    MapConcat(m1, m2);
    if |m2| == 0 {
      assert m1 + m2 == m1;
      EntriesNone(b, p + MapBits(m1), m2);
      assert m2[..0] == m2;
    } else {
      var n := |m2| - 1;
      var all := m1 + m2;
      var k := |all| - 1;
      assert all[..k] == m1 + m2[..n] && all[..k + 1] == all && m2[..n + 1] == m2;
      MapPrefix(m2, n);
      EntriesConcat(b, p, m1, m2[..n]);
      EntriesMore(b, p, all, k);
      EntriesMore(b, p + MapBits(m1), m2, n);
    }
  }

  /** A template comes back, extension and all, when its entries fit: the decoder finds the
      same map, since the static entries that choose it come back first. */
  lemma TemplateRead(b: bits, p: nat, kind: Kind, t: Template, vals: seq<int>)
    requires |vals| >= |t.omap| && |FullMap(kind, t, vals)| == |vals|
    requires At(b, p, EntriesBits(vals, FullMap(kind, t, vals))) && AllFit(vals, FullMap(kind, t, vals))
    ensures p + MapBits(t.omap) <= |b|
    ensures EntriesAt(b, p, t.omap) == vals[..|t.omap|]
    ensures FullMap(kind, t, EntriesAt(b, p, t.omap)) == FullMap(kind, t, vals)
    ensures p + MapBits(FullMap(kind, t, vals)) <= |b|
    ensures EntriesAt(b, p, FullMap(kind, t, vals)) == vals
  {
    hide At, EntryAt, Fits, MapBits, PdsExtension, GridExtension;
    var full, n := FullMap(kind, t, vals), |t.omap|;
    EntriesRead(b, p, vals, full);
    var ext := full[n..];
    assert full == t.omap + ext;
    MapConcat(t.omap, ext);
    EntriesConcat(b, p, t.omap, ext);
    assert EntriesAt(b, p, t.omap) == vals[..n];
    SameExtension(kind, t, vals);
  }
}
