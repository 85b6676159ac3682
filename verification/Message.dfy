/** The shape of GRIB edition 2 messages, and the scan over their sections that every builder
    call starts with. */
module Message {
  import opened Binary
  import opened BitFields
  import opened Packing
  import opened Templates

  // ---- the shape of a message ----

  /** A section: its number, and what stands behind its length and number. */
  datatype Section = Section(num: nat, body: bits) {
    predicate Valid() {
      1 <= num <= 7 && |body| % 8 == 0 && (num == 6 ==> |body| >= 8)
    }

    /** Its length in octets. */
    function Len(): nat { 5 + |body| / 8 }

    function Bits(): (b: bits) {
      ToBits(Len(), 32) + ToBits(num, 8) + body
    }
  }

  function Join(secs: seq<Section>): bits {
    if |secs| == 0 then [] else Join(secs[..|secs| - 1]) + secs[|secs| - 1].Bits()
  }

  function Total(secs: seq<Section>): nat {
    if |secs| == 0 then 0 else Total(secs[..|secs| - 1]) + secs[|secs| - 1].Len()
  }

  const GRIB: seq<byte> := [0x47, 0x52, 0x49, 0x42]
  const SEVENS := 0x37373737

  /** Section 0: "GRIB", two reserved octets, discipline, edition, total length in 8 octets. */
  function Section0(discipline: int, total: nat): (b: bits)
    ensures |b| == 128
  {
    BitsOf(GRIB) + ToBits(0, 16) + ToBits(discipline, 8) + ToBits(2, 8) + ToBits(0, 32) + ToBits(total, 32)
  }

  datatype Grib = Grib(discipline: int, secs: seq<Section>) {
    function Length(): nat { 16 + Total(secs) }

    function Bits(): bits { Section0(discipline, Length()) + Join(secs) }

    function Add(more: seq<Section>): Grib { this.(secs := secs + more) }

    function Last(): nat
      requires secs != []
    {
      secs[|secs| - 1].num
    }

    predicate Valid() {
      && secs != [] && (forall i :: 0 <= i < |secs| ==> secs[i].Valid())
      && Grammatical(secs) && Length() + 4 < SEVENS
    }
  }

  /** Which section may stand behind which. */
  predicate Follows(a: nat, b: nat) {
    match a
    case 1 => b == 2 || b == 3
    case 2 => b == 3
    case 3 => b == 4
    case 4 => b == 5
    case 5 => b == 6
    case 6 => b == 7
    case 7 => b == 2 || b == 3 || b == 4
    case _ => false
  }

  /** Section 1 first, then section 2 and 3 or neither, then sections 4 to 7, over and over. */
  predicate Grammatical(secs: seq<Section>) {
    && (|secs| > 0 ==> secs[0].num == 1)
    && forall i :: 0 < i < |secs| ==> Follows(secs[i - 1].num, secs[i].num)
  }

  /** Behind a grammatical message that ends with section 3 or 7 there is a grid. */
  lemma {:induction false} GridComesFirst(secs: seq<Section>)
    requires Grammatical(secs) && |secs| > 0 && secs[|secs| - 1].num != 1 && secs[|secs| - 1].num != 2
    ensures exists i :: 0 <= i < |secs| && secs[i].num == 3
    decreases |secs|
  {
    var n := |secs| - 1;
    if secs[n].num != 3 {
      GridComesFirst(secs[..n]);
      var i :| 0 <= i < n && secs[..n][i].num == 3;
      assert secs[i].num == 3;
    }
  }

  // ---- bits and octets ----

  lemma SectionOctets(s: Section)
    requires |s.body| % 8 == 0
    ensures |s.Bits()| == 8 * s.Len()
  {
  }

  lemma {:induction false} JoinSize(secs: seq<Section>)
    requires forall i :: 0 <= i < |secs| ==> secs[i].Valid()
    ensures |Join(secs)| == 8 * Total(secs)
    decreases |secs|
  {
    if |secs| > 0 {
      JoinSize(secs[..|secs| - 1]);
      SectionOctets(secs[|secs| - 1]);
    }
  }

  lemma JoinNothing()
    ensures Join([]) == [] && Total([]) == 0
  {
  }

  lemma JoinLast(a: seq<Section>, s: Section)
    ensures Join(a + [s]) == Join(a) + s.Bits() && Total(a + [s]) == Total(a) + s.Len()
  {
    hide Section.Bits, Section.Len;
    assert (a + [s])[..|a|] == a;
  }

  lemma {:induction false} JoinMore(a: seq<Section>, b: seq<Section>)
    ensures Join(a + b) == Join(a) + Join(b) && Total(a + b) == Total(a) + Total(b)
    decreases |b|
  {
    hide Join, Total, Section.Bits, Section.Len;
    if b == [] {
      JoinNothing();
      assert a + b == a;
    } else {
      var front, s := b[..|b| - 1], b[|b| - 1];
      JoinMore(a, front);
      JoinLast(front, s);
      JoinLast(a + front, s);
      assert front + [s] == b && a + front + [s] == a + b;
    }
  }

  lemma JoinOne(s: Section)
    ensures Join([s]) == s.Bits() && Total([s]) == s.Len()
  {
    assert [s][..0] == [];
  }

  /** `x` stands at the start of the octets. */
  ghost predicate Starts(s: seq<byte>, x: bits) {
    At(BitsOf(s), 0, x)
  }

  /** The octets hold the message, and behind it "7777" when it is finished. */
  ghost predicate Holds(s: seq<byte>, m: Grib, finished: bool) {
    && m.Valid()
    && (if finished then At(BitsOf(s), 0, Section0(m.discipline, m.Length() + 4) + Join(m.secs) + ToBits(SEVENS, 32))
        else At(BitsOf(s), 0, m.Bits()))
  }

  function LengthOf(m: Grib, finished: bool): nat {
    if finished then m.Length() + 4 else m.Length()
  }

  predicate StartsWithGrib(s: seq<byte>)
    requires |s| >= 4
  {
    s[..4] == GRIB
  }

  lemma NextOctet(data: seq<byte>, j: nat)
    requires j < |data|
    ensures BitsOf(data[..j + 1]) == BitsOf(data[..j]) + ToBits(data[j], 8)
  {
    hide ToBits;
    assert data[..j + 1][..j] == data[..j];
  }

  lemma {:induction false} OctetsAt(s: seq<byte>, i: nat, x: seq<byte>)
    requires At(BitsOf(s), 8 * i, BitsOf(x))
    ensures i + |x| <= |s| && s[i..i + |x|] == x
    decreases |x|
  {
    hide ToBits, At, BitsOf;
    AtFits(BitsOf(s), 8 * i, BitsOf(x));
    if |x| > 0 {
      var n := |x| - 1;
      NextOctet(x, n);
      assert x[..n + 1] == x;
      AtParts(BitsOf(s), 8 * i, BitsOf(x[..n]), ToBits(x[n], 8));
      OctetsAt(s, i, x[..n]);
      AtFits(BitsOf(s), 8 * (i + n), ToBits(x[n], 8));
      AtCut(BitsOf(s), 8 * (i + n), ToBits(x[n], 8));
      OctetOf(s, i + n);
      SameOctet(s[i + n], x[n]);
      assert s[i..i + |x|] == s[i..i + n] + [s[i + n]];
    }
  }

  lemma SameOctet(a: byte, b: byte)
    requires ToBits(a, 8) == ToBits(b, 8)
    ensures a == b
  {
    assert Pow2(8) == 256;
    ValOfToBitsExact(a, 8);
    ValOfToBitsExact(b, 8);
  }

  /** gbit, where the number is known to stand. */
  method GetNumber(cgrib: array<byte>, iofst: nat, w: nat, ghost v: int) returns (r: int)
    requires w >= 1 && At(BitsOf(cgrib[..]), iofst, ToBits(v, w))
    ensures r == Low(v, w)
  {
    hide BitsOf, ToBits, At;
    AtFits(BitsOf(cgrib[..]), iofst, ToBits(v, w));
    AtCut(BitsOf(cgrib[..]), iofst, ToBits(v, w));
    ValOfToBits(v, w);
    r := LoadField(cgrib, iofst, w);
  }

  lemma Word32(v: int)
    requires 0 <= v < 0x1_0000_0000
    ensures Low(v, 32) == v
  {
    Pow2Of30();
    assert Pow2(32) == 4 * Pow2(30);
    LowSmall(v, 32);
  }

  lemma Byte8(v: int)
    requires 0 <= v < 256
    ensures Low(v, 8) == v
  {
    assert Pow2(8) == 256;
    LowSmall(v, 8);
  }

  /** Where the parts of section 0 stand. */
  lemma Section0At(b: bits, discipline: int, total: nat, rest: bits)
    requires At(b, 0, Section0(discipline, total) + rest)
    ensures At(b, 0, BitsOf(GRIB)) && At(b, 48, ToBits(discipline, 8)) && At(b, 56, ToBits(2, 8))
    ensures At(b, 96, ToBits(total, 32)) && At(b, 128, rest)
  {
    hide At, ToBits, BitsOf;
    var g, r, d, e, z, t := BitsOf(GRIB), ToBits(0, 16), ToBits(discipline, 8), ToBits(2, 8), ToBits(0, 32),
      ToBits(total, 32);
    AtParts(b, 0, g + r + d + e + z + t, rest);
    AtParts(b, 0, g + r + d + e + z, t);
    AtParts(b, 0, g + r + d + e, z);
    AtParts(b, 0, g + r + d, e);
    AtParts(b, 0, g + r, d);
    AtParts(b, 0, g, r);
  }

  /** Where section `k` stands. */
  lemma SectionAt(b: bits, p: nat, secs: seq<Section>, k: nat)
    requires (forall i :: 0 <= i < |secs| ==> secs[i].Valid()) && k < |secs| && At(b, p, Join(secs))
    ensures At(b, p + 8 * Total(secs[..k]), secs[k].Bits())
    ensures Total(secs[..k + 1]) == Total(secs[..k]) + secs[k].Len() <= Total(secs)
  {
    hide At, Section.Bits, Join, Total, Section.Valid;
    JoinAround(secs, k);
    PrefixValid(secs, k);
    JoinSize(secs[..k]);
    AtParts(b, p, Join(secs[..k]) + secs[k].Bits(), Join(secs[k + 1..]));
    AtParts(b, p, Join(secs[..k]), secs[k].Bits());
  }

  lemma JoinAround(secs: seq<Section>, k: nat)
    requires k < |secs|
    ensures Join(secs) == Join(secs[..k]) + secs[k].Bits() + Join(secs[k + 1..])
    ensures Total(secs[..k + 1]) == Total(secs[..k]) + secs[k].Len() <= Total(secs)
  {
    hide Section.Bits, Join, Total;
    var front, back := secs[..k], secs[k + 1..];
    CutAround(secs, k);
    assert secs[..k + 1] == front + [secs[k]];
    JoinMore(front, [secs[k]]);
    JoinMore(front + [secs[k]], back);
    JoinOne(secs[k]);
  }

  lemma PrefixValid(secs: seq<Section>, k: nat)
    requires k <= |secs| && forall i :: 0 <= i < |secs| ==> secs[i].Valid()
    ensures forall i :: 0 <= i < |secs[..k]| ==> secs[..k][i].Valid()
  {
  }

  lemma SectionParts(b: bits, p: nat, s: Section)
    requires At(b, p, s.Bits())
    ensures At(b, p, ToBits(s.Len(), 32)) && At(b, p + 32, ToBits(s.num, 8)) && At(b, p + 40, s.body)
  {
    hide At, ToBits;
    AtParts(b, p, ToBits(s.Len(), 32) + ToBits(s.num, 8), s.body);
    AtParts(b, p, ToBits(s.Len(), 32), ToBits(s.num, 8));
  }

  // ---- the scan that every builder call starts with ----

  /** A bitmap that a later field may refer to. */
  predicate IsBitmap(s: Section) {
    s.num == 6 && |s.body| >= 8 && Val(s.body[..8]) <= 253
  }

  ghost predicate HasSection3(secs: seq<Section>, k: int) {
    exists i :: 0 <= i < k && i < |secs| && secs[i].num == 3
  }

  ghost predicate HasBitmap(secs: seq<Section>, k: int) {
    exists i :: 0 <= i < k && i < |secs| && IsBitmap(secs[i])
  }

  lemma MessageParts(b: bits, m: Grib, finished: bool)
    requires m.Valid()
    requires At(b, 0, if finished then Section0(m.discipline, m.Length() + 4) + Join(m.secs) + ToBits(SEVENS, 32)
                      else m.Bits())
    ensures |Join(m.secs)| == 8 * Total(m.secs) && At(b, 128, Join(m.secs)) && At(b, 0, BitsOf(GRIB))
    ensures At(b, 96, ToBits(LengthOf(m, finished), 32))
    ensures finished ==> At(b, 8 * m.Length(), ToBits(SEVENS, 32))
    ensures At(b, 48, ToBits(m.discipline, 8)) && At(b, 56, ToBits(2, 8))
  {
    hide At, ToBits, Section0, BitsOf;
    JoinSize(m.secs);
    var x, n := Join(m.secs), LengthOf(m, finished);
    if finished {
      AtParts(b, 0, Section0(m.discipline, n) + x, ToBits(SEVENS, 32));
    }
    Section0At(b, m.discipline, n, x);
  }

  lemma EndsBitmap(b: bits, p: nat, body: bits)
    requires At(b, p, body) && |body| >= 8
    ensures p + 8 <= |b| && Cut(b, p, 8) == body[..8]
  {
    AtParts(b, p, body[..8], body[8..]);
    assert body == body[..8] + body[8..];
  }

  lemma {:induction false} NotYetAll(secs: seq<Section>, k: nat)
    requires k <= |secs|
    ensures Total(secs[..k]) <= Total(secs) && (k < |secs| ==> Total(secs[..k]) < Total(secs))
    decreases |secs|
  {
    if k < |secs| {
      NotYetAll(secs[..|secs| - 1], k);
      assert secs[..|secs| - 1][..k] == secs[..k];
    } else {
      assert secs[..k] == secs;
    }
  }

  /** Runs through the sections (g2_addlocal.c, lines 91-110; g2_addfield.c, lines 152-186).
      On a finished message it takes "7777" for a length. */
  method LastSection(cgrib: array<byte>, lencurr: int, ghost m: Grib, ghost finished: bool)
    returns (ier: int, isecnum: int, issec3: bool, isprevbmap: bool)
    requires Holds(cgrib[..], m, finished) && lencurr == LengthOf(m, finished) && lencurr + 2 <= cgrib.Length
    ensures ier == if finished then -3 else 0
    ensures !finished ==> isecnum == m.Last()
    ensures !finished ==> issec3 == HasSection3(m.secs, |m.secs|) && isprevbmap == HasBitmap(m.secs, |m.secs|)
  {
    hide BitsOf, ToBits, At, Join, Section.Bits, Val, Total, Section0, Cut, Low, Grammatical, IsBitmap, HasSection3,
      HasBitmap;
    ghost var b, secs := BitsOf(cgrib[..]), m.secs;
    MessageParts(b, m, finished);
    var len := 16;
    issec3, isprevbmap, isecnum := false, false, 0;
    ghost var k: nat := 0;
    NoneYet(secs);
    assert secs[..|secs|] == secs;
    while true
      invariant k <= |secs| && (k == |secs| ==> finished) && len == 16 + Total(secs[..k])
      invariant k < |secs| ==> issec3 == HasSection3(secs, k) && isprevbmap == HasBitmap(secs, k)
      decreases |secs| - k
    {
      NotYetAll(secs, k);
      if k < |secs| {
        NotYetAll(secs, k + 1);
        SectionAt(b, 128, secs, k);
        SectionNumbers(b, 8 * len, secs[k]);
        SeenMore(secs, k);
      } else {
        NumberAt(b, 8 * len, SEVENS, 32);
        Word32(SEVENS);
      }
      var ilen := LoadField(cgrib, 8 * len, 32);
      isecnum := LoadField(cgrib, 8 * len + 32, 8);
      if isecnum == 3 {
        issec3 := true;
      }
      if isecnum == 6 {
        var ibmprev := LoadField(cgrib, 8 * len + 40, 8);
        if 0 <= ibmprev <= 253 {
          isprevbmap := true;
        }
      }
      len := len + ilen;
      if len == lencurr {
        return 0, isecnum, issec3, isprevbmap;
      }
      if len > lencurr { return -3, isecnum, issec3, isprevbmap; }
      k := k + 1;
    }
  }

  lemma NoneYet(secs: seq<Section>)
    ensures Total(secs[..0]) == 0 && !HasSection3(secs, 0) && !HasBitmap(secs, 0)
  {
  }

  lemma NumberAt(b: bits, p: nat, v: int, w: nat)
    requires At(b, p, ToBits(v, w))
    ensures p + w <= |b| && Val(Cut(b, p, w)) == Low(v, w)
  {
    hide At, Cut, ToBits, Val;
    AtFits(b, p, ToBits(v, w));
    AtCut(b, p, ToBits(v, w));
    ValOfToBits(v, w);
  }

  lemma SectionNumbers(b: bits, p: nat, s: Section)
    requires s.Valid() && s.Len() < SEVENS && At(b, p, s.Bits())
    ensures p + 40 <= |b| && Val(Cut(b, p, 32)) == s.Len() && Val(Cut(b, p + 32, 8)) == s.num
    ensures IsBitmap(s) ==> s.num == 6
    ensures s.num == 6 ==> p + 48 <= |b| && (Val(Cut(b, p + 40, 8)) <= 253 <==> IsBitmap(s))
  {
    hide At, Cut, ToBits, Val, Low;
    SectionParts(b, p, s);
    NumberAt(b, p, s.Len(), 32);
    NumberAt(b, p + 32, s.num, 8);
    Word32(s.Len());
    Byte8(s.num);
    if s.num == 6 {
      EndsBitmap(b, p + 40, s.body);
    }
  }

  lemma SeenMore(secs: seq<Section>, k: nat)
    requires k < |secs|
    ensures HasSection3(secs, k + 1) == (HasSection3(secs, k) || secs[k].num == 3)
    ensures HasBitmap(secs, k + 1) == (HasBitmap(secs, k) || IsBitmap(secs[k]))
  {
    hide IsBitmap;
  }

  /** What every builder call looks at first: -1 without "GRIB", -2 when the last four octets
      are "7777", -3 when the section lengths do not add up. */
  method CheckMessage(cgrib: array<byte>, ghost m: Grib, ghost finished: bool)
    returns (ier: int, lencurr: int, isecnum: int, issec3: bool, isprevbmap: bool)
    requires cgrib.Length >= 16
    requires StartsWithGrib(cgrib[..]) ==> Holds(cgrib[..], m, finished) && LengthOf(m, finished) + 2 <= cgrib.Length
    ensures ier ==
      if !StartsWithGrib(cgrib[..]) then -1 else if EndsWithSevens(cgrib[..], LengthOf(m, finished)) then -2 else 0
    ensures ier == 0 ==> !finished && lencurr == m.Length() && isecnum == m.Last()
    ensures ier == 0 ==> issec3 == HasSection3(m.secs, |m.secs|) && isprevbmap == HasBitmap(m.secs, |m.secs|)
  {
    hide BitsOf, ToBits, At, Join, Val, Total, Section0, Cut, Low, Grib.Bits, EndsWithSevens, Grammatical,
      Section.Valid, HasSection3, HasBitmap;
    ier, lencurr, isecnum, issec3, isprevbmap := 0, 0, 0, false, false;
    if cgrib[0] != 0x47 || cgrib[1] != 0x52 || cgrib[2] != 0x49 || cgrib[3] != 0x42 {
      ier := -1;
      return;
    }
    MessageParts(BitsOf(cgrib[..]), m, finished);
    NumberAt(BitsOf(cgrib[..]), 96, LengthOf(m, finished), 32);
    Word32(LengthOf(m, finished));
    lencurr := LoadField(cgrib, 96, 32);
    FinishedEndsWithSevens(cgrib[..], m, finished);
    var complete := IsSevens(cgrib, lencurr - 4);
    if complete {
      ier := -2;
      return;
    }
    ier, isecnum, issec3, isprevbmap := LastSection(cgrib, lencurr, m, finished);
  }

  lemma SplitOctet(v: nat, n: nat)
    ensures ToBits(v, n + 8) == ToBits(v / 256, n) + ToBits(v % 256, 8)
  {
    hide ToBits, Pow2;
    assert Pow2(8) == 256 by { PowerOf8(); }
    ToBitsSplit(v, n, 8);
    Byte8(v % 256);
    ToBitsMod(v, v % 256, 8);
  }

  lemma PowerOf8()
    ensures Pow2(8) == 256
  {
  }

  lemma SevensBits()
    ensures ToBits(SEVENS, 32) == BitsOf([0x37, 0x37, 0x37, 0x37])
  {
    hide ToBits, BitsOf;
    SplitOctet(SEVENS, 24);
    SplitOctet(0x373737, 16);
    SplitOctet(0x3737, 8);
    BitsOfOne(0x37);
    BitsOfConcat([0x37], [0x37]);
    BitsOfConcat([0x37, 0x37], [0x37]);
    BitsOfConcat([0x37, 0x37, 0x37], [0x37]);
    assert [0x37] + [0x37] == [0x37, 0x37] && [0x37, 0x37] + [0x37] == [0x37, 0x37, 0x37];
    assert [0x37, 0x37, 0x37] + [0x37] == [0x37, 0x37, 0x37, 0x37];
  }

  lemma FinishedEndsWithSevens(s: seq<byte>, m: Grib, finished: bool)
    requires Holds(s, m, finished)
    ensures finished ==> EndsWithSevens(s, LengthOf(m, finished))
  {
    hide BitsOf, ToBits, At, Join, Total, Section0;
    MessageParts(BitsOf(s), m, finished);
    if finished {
      SevensBits();
      OctetsAt(s, m.Length(), [0x37, 0x37, 0x37, 0x37]);
    }
  }

  predicate EndsWithSevens(s: seq<byte>, n: int) {
    4 <= n <= |s| && s[n - 4..n] == [0x37, 0x37, 0x37, 0x37]
  }

  /** The test for "7777". */
  method IsSevens(cgrib: array<byte>, ipos: nat) returns (b: bool)
    requires ipos + 4 <= cgrib.Length
    ensures b == EndsWithSevens(cgrib[..], ipos + 4)
  {
    hide EndsWithSevens;
    SevensAt(cgrib[..], ipos + 4);
    b := cgrib[ipos] == 0x37 && cgrib[ipos + 1] == 0x37 && cgrib[ipos + 2] == 0x37 && cgrib[ipos + 3] == 0x37;
  }

  lemma SevensAt(s: seq<byte>, n: int)
    requires 4 <= n <= |s|
    ensures EndsWithSevens(s, n) <==> s[n - 4] == 0x37 && s[n - 3] == 0x37 && s[n - 2] == 0x37 && s[n - 1] == 0x37
  {
    var x := s[n - 4..n];
    assert x[0] == s[n - 4] && x[1] == s[n - 3] && x[2] == s[n - 2] && x[3] == s[n - 1];
  }

  // ---- counting sections ----

  function Count(secs: seq<Section>, num: nat): nat {
    if |secs| == 0 then 0
    else Count(secs[..|secs| - 1], num) + if secs[|secs| - 1].num == num then 1 else 0
  }

  lemma CountNext(secs: seq<Section>, k: nat)
    requires k < |secs|
    ensures forall num: nat :: Count(secs[..k + 1], num) == Count(secs[..k], num) + if secs[k].num == num then 1 else 0
  {
    assert secs[..k + 1][..k] == secs[..k];
  }
}
