/** Reading sections back: 2 to 7 as g2_getfld unpacks them (g2_unpack2.c to g2_unpack7.c). */
module Unpack {
  import opened Binary
  import opened BitFields
  import opened Packing
  import opened Templates
  import opened Message
  import opened Builder
  import opened Info

  /** A section stands at octet `p`. */
  ghost predicate SectionStands(cgrib: array<byte>, p: nat, s: Section)
    reads cgrib
  {
    s.Valid() && s.Len() < SEVENS && At(BitsOf(cgrib[..]), 8 * p, s.Bits())
  }

  /** Section `i` of a message where it stands. */
  lemma StandsInMessage(cgrib: array<byte>, at: nat, m: Grib, i: nat)
    requires HoldsAt(cgrib[..], at, m) && i < |m.secs|
    ensures SectionStands(cgrib, at + 16 + Total(m.secs[..i]), m.secs[i])
    ensures Total(m.secs[..i]) + m.secs[i].Len() == Total(m.secs[..i + 1]) <= Total(m.secs)
  {
    hide BitsOf, At, Join, Section0, Section.Bits, Section.Valid, ToBits, Total, HoldsAt;
    SectionWhere(cgrib[..], at, m, i);
  }

  /** The length and number of a section. */
  method GetHead(cgrib: array<byte>, p: nat, ghost s: Section) returns (lensec: int, isecnum: int)
    requires SectionStands(cgrib, p, s)
    ensures lensec == s.Len() && isecnum == s.num
    ensures At(BitsOf(cgrib[..]), 8 * p + 40, s.body)
  {
    hide BitsOf, At, Section.Bits, ToBits, Val, Cut;
    SectionNumbers(BitsOf(cgrib[..]), 8 * p, s);
    SectionParts(BitsOf(cgrib[..]), 8 * p, s);
    lensec := LoadField(cgrib, 8 * p, 32);
    isecnum := LoadField(cgrib, 8 * p + 32, 8);
  }

  /** A number and what stands behind it. */
  method GetNext(cgrib: array<byte>, iofst: nat, w: nat, ghost v: int, ghost rest: bits) returns (r: int)
    requires w >= 1 && At(BitsOf(cgrib[..]), iofst, ToBits(v, w) + rest)
    ensures r == Low(v, w) && At(BitsOf(cgrib[..]), iofst + w, rest)
  {
    hide BitsOf, At, ToBits;
    AtParts(BitsOf(cgrib[..]), iofst, ToBits(v, w), rest);
    r := GetNumber(cgrib, iofst, w, v);
  }

  lemma Word16(v: int)
    requires 0 <= v < 65536
    ensures Low(v, 16) == v
  {
    assert Pow2(8) == 256;
    Pow2Add(8, 8);
    LowSmall(v, 16);
  }

  /** A template where it stands, extension and all. */
  method GetWhole(cgrib: array<byte>, kind: Kind, t: Template, iofst0: nat, ghost vals: seq<int>, ghost rest: bits)
    returns (r: seq<int>, iofst: nat)
    requires |vals| >= |t.omap| && |FullMap(kind, t, vals)| == |vals| && AllFit(vals, FullMap(kind, t, vals))
    requires At(BitsOf(cgrib[..]), iofst0, EntriesBits(vals, FullMap(kind, t, vals)) + rest)
    ensures r == vals && iofst == iofst0 + MapBits(FullMap(kind, t, vals)) && At(BitsOf(cgrib[..]), iofst, rest)
  {
    hide BitsOf, At, EntriesBits, EntriesAt, MapBits, AllFit, FullMap;
    ghost var b := BitsOf(cgrib[..]);
    AtParts(b, iofst0, EntriesBits(vals, FullMap(kind, t, vals)), rest);
    EntriesLength(vals, FullMap(kind, t, vals));
    TemplateRead(b, iofst0, kind, t, vals);
    var ok;
    ok, r, iofst := GetTemplate(cgrib, kind, t, iofst0);
  }

  /** g2_unpack4: 2 for another section, 5 for a template that is not known, and otherwise what
      g2_addfield put in; the coordinates stay IEEE words. */
  method Unpack4(cgrib: array<byte>, p: nat, getpdstemplate: int -> Lookup, ghost s: Section,
                 ghost ipdsnum0: int, ghost t: Template, ghost vals: seq<int>, ghost coords: seq<int>)
    returns (ierr: int, ipdsnum: int, ipdstmpl: seq<int>, coordieee: seq<int>)
    requires SectionStands(cgrib, p, s)
    requires s.num == 4 ==>
      && |vals| >= |t.omap| && |FullMap(Pds, t, vals)| == |vals| && AllFit(vals, FullMap(Pds, t, vals))
      && 0 <= ipdsnum0 < 65536 && |coords| < 65536 && AllBelow(coords, 32)
      && s.body == ProductBody(ipdsnum0, t, vals, coords)
      && (getpdstemplate(ipdsnum0).Known? ==> getpdstemplate(ipdsnum0).t == t)
    ensures ierr ==
      if s.num != 4 then 2 else if getpdstemplate(ipdsnum0).Unknown? then 5 else if t.omap == [] then 6 else 0
    ensures ierr == 0 ==> ipdsnum == ipdsnum0 && ipdstmpl == vals && coordieee == coords
  {
    hide BitsOf, At, ToBits, EntriesBits, Fields, FullMap, AllFit, AllBelow, Low;
    var lensec, isecnum := GetHead(cgrib, p, s);
    ierr, ipdsnum, ipdstmpl, coordieee := 0, 0, [], [];
    if isecnum != 4 { ierr := 2; return; }
    ghost var x, y := EntriesBits(vals, FullMap(Pds, t, vals)), Fields(coords, 32);
    assert s.body == ToBits(|coords|, 16) + (ToBits(ipdsnum0, 16) + (x + y));
    var numcoord := GetNext(cgrib, 8 * p + 40, 16, |coords|, ToBits(ipdsnum0, 16) + (x + y));
    Word16(|coords|);
    ipdsnum := GetNext(cgrib, 8 * p + 56, 16, ipdsnum0, x + y);
    Word16(ipdsnum0);
    var mappds := getpdstemplate(ipdsnum);
    if mappds.Unknown? { ierr := 5; return; }
    if |mappds.t.omap| == 0 { ierr := 6; return; }
    var iofst;
    ipdstmpl, iofst := GetWhole(cgrib, Pds, mappds.t, 8 * p + 72, vals, y);
    if numcoord != 0 {
      coordieee := GetList(cgrib, iofst, 32, numcoord, coords);
    }
  }

  /** g2_unpack5. */
  method Unpack5(cgrib: array<byte>, p: nat, getdrstemplate: int -> Lookup, ghost s: Section,
                 ghost ndpts0: int, ghost idrsnum0: int, ghost t: Template, ghost vals: seq<int>)
    returns (ierr: int, ndpts: int, idrsnum: int, idrstmpl: seq<int>)
    requires SectionStands(cgrib, p, s)
    requires s.num == 5 ==>
      && |vals| == |t.omap| && AllFit(vals, t.omap) && 0 <= ndpts0 < SEVENS && 0 <= idrsnum0 < 65536
      && s.body == RepresentationBody(ndpts0, idrsnum0, t, vals)
      && (getdrstemplate(idrsnum0).Known? ==> getdrstemplate(idrsnum0).t == t)
    ensures ierr ==
      if s.num != 5 then 2 else if getdrstemplate(idrsnum0).Unknown? then 7 else if t.omap == [] then 6 else 0
    ensures ierr == 0 ==> ndpts == ndpts0 && idrsnum == idrsnum0 && idrstmpl == vals
  {
    hide BitsOf, At, ToBits, EntriesBits, AllFit, Low;
    var lensec, isecnum := GetHead(cgrib, p, s);
    ierr, ndpts, idrsnum, idrstmpl := 0, 0, 0, [];
    if isecnum != 5 { ierr := 2; return; }
    ghost var x := EntriesBits(vals, t.omap);
    assert s.body == ToBits(ndpts0, 32) + (ToBits(idrsnum0, 16) + (x + []));
    ndpts := GetNext(cgrib, 8 * p + 40, 32, ndpts0, ToBits(idrsnum0, 16) + (x + []));
    Word32(ndpts0);
    idrsnum := GetNext(cgrib, 8 * p + 72, 16, idrsnum0, x + []);
    Word16(idrsnum0);
    var mapdrs := getdrstemplate(idrsnum);
    if mapdrs.Unknown? { ierr := 7; return; }
    if |mapdrs.t.omap| == 0 { ierr := 6; return; }
    assert FullMap(Drs, t, vals) == t.omap;
    var iofst;
    idrstmpl, iofst := GetWhole(cgrib, Drs, mapdrs.t, 8 * p + 88, vals, []);
  }

  /** g2_unpack3, with the optional list of points in each row.  A list that is announced but
      empty gives 6, since nothing is allocated for it. */
  method Unpack3(cgrib: array<byte>, p: nat, getgridtemplate: int -> Lookup, ghost s: Section,
                 ghost igds0: seq<int>, ghost t: Template, ghost vals: seq<int>, ghost list: seq<int>)
    returns (ierr: int, igds: seq<int>, igdstmpl: seq<int>, ideflist: seq<int>)
    requires SectionStands(cgrib, p, s)
    requires s.num == 3 ==>
      && |vals| >= |t.omap| && |FullMap(Grid, t, vals)| == |vals| && AllFit(vals, FullMap(Grid, t, vals))
      && GoodHead(igds0) && (igds0[2] == 0 ==> list == []) && AllBelow(list, 8 * igds0[2])
      && s.body == GridBody(igds0, t, vals, list)
      && (getgridtemplate(igds0[4]).Known? ==> getgridtemplate(igds0[4]).t == t)
    ensures ierr ==
      if s.num != 3 then 2 else if getgridtemplate(igds0[4]).Unknown? then 5
      else if igds0[2] != 0 && list == [] then 6 else 0
    ensures ierr == 0 ==> igds == igds0 && igdstmpl == vals && ideflist == list
  {
    hide BitsOf, At, ToBits, EntriesBits, Fields, FullMap, AllFit, AllBelow, Low, MapBits;
    var lensec, isecnum := GetHead(cgrib, p, s);
    ierr, igds, igdstmpl, ideflist := 0, [], [], [];
    if isecnum != 3 { ierr := 2; return; }
    ghost var x, y := EntriesBits(vals, FullMap(Grid, t, vals)), Fields(list, 8 * igds0[2]);
    EntriesLength(vals, FullMap(Grid, t, vals));
    assert s.body == GridHead(igds0) + (x + y);
    igds := GetGridHead(cgrib, 8 * p + 40, igds0, x + y);
    var mapgrid := getgridtemplate(igds[4]);
    if mapgrid.Unknown? { ierr := 5; return; }
    var iofst;
    igdstmpl, iofst := GetWhole(cgrib, Grid, mapgrid.t, 8 * p + 112, vals, y);
    var ibyttem := (iofst - (8 * p + 112)) / 8;
    MapOctets(FullMap(Grid, t, vals));
    if igds[2] != 0 {
      ListLength(MapBits(FullMap(Grid, t, vals)), igds0[2], |list|);
      var idefnum := (lensec - 14 - ibyttem) / igds[2];
      if idefnum <= 0 { ierr := 6; return; }
      ideflist := GetList(cgrib, iofst, igds[2] * 8, idefnum, list);
    }
  }

  /** g2_unpack6 for a field with `ngpts` points: the bitmap, when there is one. */
  method Unpack6(cgrib: array<byte>, p: nat, ngpts: int, ghost s: Section, ghost ibmap0: int, ghost bmap0: seq<int>)
    returns (ierr: int, ibmap: int, bmap: seq<int>)
    requires SectionStands(cgrib, p, s)
    requires s.num == 6 ==> 0 <= ibmap0 < 256 && s.body == BitmapBody(ibmap0, bmap0)
    requires s.num == 6 && ibmap0 == 0 && ngpts > 0 ==> |bmap0| == ngpts && AllBelow(bmap0, 1)
    ensures ierr == if s.num != 6 then 2 else if ibmap0 == 0 && ngpts <= 0 then 6 else 0
    ensures ierr == 0 ==> ibmap == ibmap0 && bmap == if ibmap0 == 0 then bmap0 else []
  {
    hide BitsOf, At, ToBits, Fields, AllBelow, Low, Pad8;
    var lensec, isecnum := GetHead(cgrib, p, s);
    ierr, ibmap, bmap := 0, 0, [];
    if isecnum != 6 { ierr := 2; return; }
    ghost var pad := Zeros(Pad8(|BitmapBits(ibmap0, bmap0)|) - |BitmapBits(ibmap0, bmap0)|);
    ghost var x := if ibmap0 == 0 then Fields(bmap0, 1) else [];
    assert s.body == ToBits(ibmap0, 8) + (x + pad);
    ibmap := GetNext(cgrib, 8 * p + 40, 8, ibmap0, x + pad);
    Byte8(ibmap0);
    if ibmap == 0 {
      if ngpts <= 0 { ierr := 6; return; }
      AtParts(BitsOf(cgrib[..]), 8 * p + 48, x, pad);
      bmap := GetList(cgrib, 8 * p + 48, 1, ngpts, bmap0);
    }
  }

  /** The bitmap indicator alone. */
  method GetIndicator(cgrib: array<byte>, p: nat, ghost s: Section, ghost ibmap0: int, ghost bmap0: seq<int>)
    returns (ibmap: int)
    requires SectionStands(cgrib, p, s) && s.num == 6 && 0 <= ibmap0 < 256 && s.body == BitmapBody(ibmap0, bmap0)
    ensures ibmap == ibmap0
  {
    hide BitsOf, At, ToBits, Fields, Low, Pad8;
    var lensec, isecnum := GetHead(cgrib, p, s);
    ghost var pad := Zeros(Pad8(|BitmapBits(ibmap0, bmap0)|) - |BitmapBits(ibmap0, bmap0)|);
    ghost var x := if ibmap0 == 0 then Fields(bmap0, 1) else [];
    assert s.body == ToBits(ibmap0, 8) + (x + pad);
    ibmap := GetNext(cgrib, 8 * p + 40, 8, ibmap0, x + pad);
    Byte8(ibmap0);
  }

  lemma ListLength(n: nat, w: nat, k: nat)
    requires n % 8 == 0 && w >= 1
    ensures (5 + (72 + n + (8 * w) * k) / 8 - 14 - n / 8) / w == k
  {
    var q := w * k;
    assert (8 * w) * k == 8 * q;
    assert (72 + n + 8 * q) / 8 == 9 + n / 8 + q;
    DivUnique(q, w, k, 0);
  }

  method GetList(cgrib: array<byte>, iofst: nat, nbits: nat, n: nat, ghost list: seq<int>) returns (r: seq<int>)
    requires nbits >= 1 && n == |list| && AllBelow(list, nbits) && At(BitsOf(cgrib[..]), iofst, Fields(list, nbits))
    ensures r == list
  {
    hide BitsOf, At, Fields, AllBelow, LoadAll;
    LoadOfFields(BitsOf(cgrib[..]), list, iofst, nbits);
    LowAllSame(list, nbits);
    var a := new int[n](_ => 0);
    Gbits(cgrib, a, 0, iofst, nbits, 0, n);
    r := a[..];
  }

  predicate GoodHead(igds: seq<int>) {
    && |igds| == 5 && 0 <= igds[0] < 256 && 0 <= igds[1] < SEVENS
    && 0 <= igds[2] < 256 && 0 <= igds[3] < 256 && 0 <= igds[4] < 65535
  }

  method GetGridHead(cgrib: array<byte>, iofst: nat, ghost igds0: seq<int>, ghost rest: bits) returns (igds: seq<int>)
    requires GoodHead(igds0) && At(BitsOf(cgrib[..]), iofst, GridHead(igds0) + rest)
    ensures igds == igds0 && At(BitsOf(cgrib[..]), iofst + 72, rest)
  {
    hide BitsOf, At, ToBits, Low;
    ghost var a, b, c, d, e := ToBits(igds0[0], 8), ToBits(igds0[1], 32), ToBits(igds0[2], 8), ToBits(igds0[3], 8),
      ToBits(igds0[4], 16);
    assert GridHead(igds0) + rest == a + (b + (c + (d + (e + rest))));
    var g0 := GetNext(cgrib, iofst, 8, igds0[0], b + (c + (d + (e + rest))));
    var g1 := GetNext(cgrib, iofst + 8, 32, igds0[1], c + (d + (e + rest)));
    var g2 := GetNext(cgrib, iofst + 40, 8, igds0[2], d + (e + rest));
    var g3 := GetNext(cgrib, iofst + 48, 8, igds0[3], e + rest);
    var g4 := GetNext(cgrib, iofst + 56, 16, igds0[4], rest);
    Byte8(igds0[0]);
    Word32(igds0[1]);
    Byte8(igds0[2]);
    Byte8(igds0[3]);
    Word16(igds0[4]);
    igds := [g0, g1, g2, g3, g4];
  }

  /** The octets behind the length and number: local data (g2_unpack2), or packed data. */
  method GetOctets(cgrib: array<byte>, p: nat, ghost s: Section, ghost data: seq<byte>) returns (r: seq<byte>)
    requires SectionStands(cgrib, p, s) && s.body == BitsOf(data)
    ensures r == data
  {
    hide BitsOf, At, Section.Bits;
    var lensec, isecnum := GetHead(cgrib, p, s);
    assert s.Len() == 5 + |data|;
    OctetsAt(cgrib[..], p + 5, data);
    r := cgrib[p + 5..p + lensec];
  }
}
