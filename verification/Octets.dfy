/** Where the numbers of a message stand: the places of sections 0 to 7 in WMO FM 92 GRIB
    edition 2, counted in octets from the start of the section. */
module Octets {
  import opened Binary
  import opened BitFields
  import opened Packing
  import opened Templates
  import opened Message
  import opened Builder

  /** The `n` octets from octet `p` on hold `v`, modulo 256^n. */
  ghost predicate Holding(b: bits, p: nat, n: nat, v: int) {
    8 * p + 8 * n <= |b| && Val(Cut(b, 8 * p, 8 * n)) == Low(v, 8 * n)
  }

  /** A number at the front of what stands at octet `p`. */
  lemma Front(b: bits, p: nat, n: nat, v: int, rest: bits)
    requires At(b, 8 * p, ToBits(v, 8 * n) + rest)
    ensures Holding(b, p, n, v) && At(b, 8 * (p + n), rest)
  {
    hide At, ToBits, Val, Cut, Low;
    AtParts(b, 8 * p, ToBits(v, 8 * n), rest);
    NumberAt(b, 8 * p, v, 8 * n);
  }

  /** Length and number of a section. */
  lemma HeadOctets(b: bits, p: nat, s: Section)
    requires At(b, 8 * p, s.Bits())
    ensures Holding(b, p, 4, s.Len()) && Holding(b, p + 4, 1, s.num) && At(b, 8 * (p + 5), s.body)
  {
    hide At, ToBits, Holding;
    assert s.Bits() == ToBits(s.Len(), 32) + (ToBits(s.num, 8) + s.body);
    Front(b, p, 4, s.Len(), ToBits(s.num, 8) + s.body);
    Front(b, p + 4, 1, s.num, s.body);
  }

  lemma GridOctets(b: bits, p: nat, igds: seq<int>, t: Template, igdstmpl: seq<int>, ideflist: seq<int>)
    requires |igds| == 5 && igds[2] >= 0 && |igdstmpl| >= |t.omap| && |FullMap(Grid, t, igdstmpl)| == |igdstmpl|
    requires At(b, 8 * p, Section(3, GridBody(igds, t, igdstmpl, ideflist)).Bits())
    ensures Holding(b, p + 4, 1, 3) && Holding(b, p + 5, 1, igds[0]) && Holding(b, p + 6, 4, igds[1])
    ensures Holding(b, p + 10, 1, igds[2]) && Holding(b, p + 11, 1, igds[3]) && Holding(b, p + 12, 2, igds[4])
    ensures At(b, 8 * (p + 14), EntriesBits(igdstmpl, FullMap(Grid, t, igdstmpl)) + Fields(ideflist, 8 * igds[2]))
  {
    hide At, ToBits, Holding, FullMap, EntriesBits, Fields;
    HeadOctets(b, p, Section(3, GridBody(igds, t, igdstmpl, ideflist)));
    var rest := EntriesBits(igdstmpl, FullMap(Grid, t, igdstmpl)) + Fields(ideflist, 8 * igds[2]);
    var b0, b1, b2, b3, b4 := ToBits(igds[0], 8), ToBits(igds[1], 32), ToBits(igds[2], 8), ToBits(igds[3], 8),
      ToBits(igds[4], 16);
    assert GridBody(igds, t, igdstmpl, ideflist) == b0 + (b1 + (b2 + (b3 + (b4 + rest)))) by {
      var e, f := EntriesBits(igdstmpl, FullMap(Grid, t, igdstmpl)), Fields(ideflist, 8 * igds[2]);
      Associates(b0 + b1 + b2 + b3 + b4, e, f);
      Associates(b0 + b1 + b2 + b3, b4, rest);
      Associates(b0 + b1 + b2, b3, b4 + rest);
      Associates(b0 + b1, b2, b3 + (b4 + rest));
      Associates(b0, b1, b2 + (b3 + (b4 + rest)));
    }
    Front(b, p + 5, 1, igds[0], b1 + (b2 + (b3 + (b4 + rest))));
    Front(b, p + 6, 4, igds[1], b2 + (b3 + (b4 + rest)));
    Front(b, p + 10, 1, igds[2], b3 + (b4 + rest));
    Front(b, p + 11, 1, igds[3], b4 + rest);
    Front(b, p + 12, 2, igds[4], rest);
  }

  lemma ProductOctets(b: bits, p: nat, ipdsnum: int, t: Template, ipdstmpl: seq<int>, coords: seq<int>)
    requires |ipdstmpl| >= |t.omap| && |FullMap(Pds, t, ipdstmpl)| == |ipdstmpl|
    requires At(b, 8 * p, Section(4, ProductBody(ipdsnum, t, ipdstmpl, coords)).Bits())
    ensures Holding(b, p + 4, 1, 4) && Holding(b, p + 5, 2, |coords|) && Holding(b, p + 7, 2, ipdsnum)
    ensures At(b, 8 * (p + 9), EntriesBits(ipdstmpl, FullMap(Pds, t, ipdstmpl)) + Fields(coords, 32))
  {
    hide At, ToBits, Holding, FullMap, EntriesBits, Fields;
    HeadOctets(b, p, Section(4, ProductBody(ipdsnum, t, ipdstmpl, coords)));
    var rest := EntriesBits(ipdstmpl, FullMap(Pds, t, ipdstmpl)) + Fields(coords, 32);
    assert ProductBody(ipdsnum, t, ipdstmpl, coords) == ToBits(|coords|, 16) + (ToBits(ipdsnum, 16) + rest) by {
      var a, c := ToBits(|coords|, 16), ToBits(ipdsnum, 16);
      Associates(a + c, EntriesBits(ipdstmpl, FullMap(Pds, t, ipdstmpl)), Fields(coords, 32));
      Associates(a, c, rest);
    }
    Front(b, p + 5, 2, |coords|, ToBits(ipdsnum, 16) + rest);
    Front(b, p + 7, 2, ipdsnum, rest);
  }

  lemma RepresentationOctets(b: bits, p: nat, ndpts: int, idrsnum: int, t: Template, idrstmpl: seq<int>)
    requires |idrstmpl| == |t.omap|
    requires At(b, 8 * p, Section(5, RepresentationBody(ndpts, idrsnum, t, idrstmpl)).Bits())
    ensures Holding(b, p + 4, 1, 5) && Holding(b, p + 5, 4, ndpts) && Holding(b, p + 9, 2, idrsnum)
    ensures At(b, 8 * (p + 11), EntriesBits(idrstmpl, t.omap))
  {
    hide At, ToBits, Holding, EntriesBits;
    HeadOctets(b, p, Section(5, RepresentationBody(ndpts, idrsnum, t, idrstmpl)));
    var rest := EntriesBits(idrstmpl, t.omap);
    assert RepresentationBody(ndpts, idrsnum, t, idrstmpl) == ToBits(ndpts, 32) + (ToBits(idrsnum, 16) + rest);
    Front(b, p + 5, 4, ndpts, ToBits(idrsnum, 16) + rest);
    Front(b, p + 9, 2, idrsnum, rest);
  }

  /** Section 6: the indicator, and with 0 a bit for every point. */
  lemma BitmapOctets(b: bits, p: nat, ibmap: int, bmap: seq<int>, i: nat)
    requires At(b, 8 * p, Section(6, BitmapBody(ibmap, bmap)).Bits())
    ensures Holding(b, p + 4, 1, 6) && Holding(b, p + 5, 1, ibmap)
    ensures ibmap == 0 && i < |bmap| ==> var q := 8 * (p + 6) + i; q < |b| && (b[q] <==> bmap[i] % 2 == 1)
  {
    hide At, ToBits, Holding, Fields, Pad8;
    HeadOctets(b, p, Section(6, BitmapBody(ibmap, bmap)));
    var pad := Zeros(Pad8(|BitmapBits(ibmap, bmap)|) - |BitmapBits(ibmap, bmap)|);
    var x := if ibmap == 0 then Fields(bmap, 1) else [];
    assert BitmapBody(ibmap, bmap) == ToBits(ibmap, 8) + (x + pad);
    Front(b, p + 5, 1, ibmap, x + pad);
    if ibmap == 0 && i < |bmap| {
      AtParts(b, 8 * (p + 6), x, pad);
      OneBitFields(bmap, i);
      BitAt(b, 8 * (p + 6), x, i);
    }
  }

  lemma BitAt(b: bits, p: nat, x: bits, i: nat)
    requires At(b, p, x) && i < |x|
    ensures p + i < |b| && b[p + i] == x[i]
  {
    assert b[p..p + |x|][i] == b[p + i];
  }

  lemma {:induction false} OneBitFields(bmap: seq<int>, i: nat)
    requires i < |bmap|
    ensures i < |Fields(bmap, 1)| && (Fields(bmap, 1)[i] <==> bmap[i] % 2 == 1)
    decreases |bmap|
  {
    var n := |bmap| - 1;
    assert ToBits(bmap[n], 1) == [bmap[n] % 2 == 1] by { assert ToBits(bmap[n] / 2, 0) == []; }
    if i < n {
      OneBitFields(bmap[..n], i);
    }
  }

  // ---- sections 0 and 1 ----

  lemma IndicatorOctets(b: bits, p: nat, discipline: int, total: nat)
    requires At(b, 8 * p, Section0(discipline, total))
    ensures Holding(b, p, 1, 0x47) && Holding(b, p + 1, 1, 0x52) && Holding(b, p + 2, 1, 0x49)
    ensures Holding(b, p + 3, 1, 0x42)
    ensures Holding(b, p + 4, 2, 0) && Holding(b, p + 6, 1, discipline) && Holding(b, p + 7, 1, 2)
    ensures Holding(b, p + 8, 4, 0) && Holding(b, p + 12, 4, total)
  {
    hide At, ToBits, Holding, BitsOf;
    var t0, t1, t2, t3, t4 := ToBits(0, 16), ToBits(discipline, 8), ToBits(2, 8), ToBits(0, 32), ToBits(total, 32);
    var rest := t0 + (t1 + (t2 + (t3 + (t4 + []))));
    GribBits();
    var g, r, i, c := ToBits(0x47, 8), ToBits(0x52, 8), ToBits(0x49, 8), ToBits(0x42, 8);
    assert Section0(discipline, total) == g + (r + (i + (c + rest)));
    Front(b, p, 1, 0x47, r + (i + (c + rest)));
    Front(b, p + 1, 1, 0x52, i + (c + rest));
    Front(b, p + 2, 1, 0x49, c + rest);
    Front(b, p + 3, 1, 0x42, rest);
    Front(b, p + 4, 2, 0, t1 + (t2 + (t3 + (t4 + []))));
    Front(b, p + 6, 1, discipline, t2 + (t3 + (t4 + [])));
    Front(b, p + 7, 1, 2, t3 + (t4 + []));
    Front(b, p + 8, 4, 0, t4 + []);
    Front(b, p + 12, 4, total, []);
  }

  lemma GribBits()
    ensures BitsOf(GRIB) == ToBits(0x47, 8) + ToBits(0x52, 8) + ToBits(0x49, 8) + ToBits(0x42, 8)
  {
    hide ToBits, BitsOf;
    BitsOfOne(0x47);
    BitsOfOne(0x52);
    BitsOfOne(0x49);
    BitsOfOne(0x42);
    BitsOfConcat([0x47], [0x52]);
    BitsOfConcat([0x47, 0x52], [0x49]);
    BitsOfConcat([0x47, 0x52, 0x49], [0x42]);
    assert [0x47] + [0x52] == [0x47, 0x52] && [0x47, 0x52] + [0x49] == [0x47, 0x52, 0x49];
    assert [0x47, 0x52, 0x49] + [0x42] == GRIB;
  }

  /** The first octet of each entry of section 1. */
  const PLACES: seq<nat> := [5, 7, 9, 10, 11, 12, 14, 15, 16, 17, 18, 19, 20]

  /** The octets of each entry of section 1: two for the center, the subcenter and the year. */
  const WIDTHS: seq<nat> := [2, 2, 1, 1, 1, 2, 1, 1, 1, 1, 1, 1, 1]

  lemma IdentificationOctets(b: bits, p: nat, list: seq<int>, i: nat)
    requires |list| == 13 && i < 13 && At(b, 8 * p, Identification(list).Bits())
    ensures Holding(b, p, 4, 21) && Holding(b, p + 4, 1, 1) && Holding(b, p + PLACES[i], WIDTHS[i], list[i])
  {
    hide At, ToBits, Holding, EntriesBits, EntryBits, MapBits;
    IdentificationSize(list);
    HeadOctets(b, p, Identification(list));
    EntryPart(b, 8 * (p + 5), list, MAPSEC1, i);
    PlaceOf(i);
    EntryForm([], list[i], MAPSEC1[i]);
    assert ToBits(list[i], 8 * WIDTHS[i]) + [] == EntryBits(list[i], MAPSEC1[i]);
    Front(b, p + PLACES[i], WIDTHS[i], list[i], []);
  }

  lemma {:induction false} PlaceOf(i: nat)
    requires i < 13
    ensures MapBits(MAPSEC1[..i]) == 8 * (PLACES[i] - 5)
  {
    if i > 0 {
      PlaceOf(i - 1);
      assert MAPSEC1[..i][..i - 1] == MAPSEC1[..i - 1];
    }
  }

  /** Where one entry of a template stands. */
  lemma {:induction false} EntryPart(b: bits, p: nat, vals: seq<int>, omap: seq<int>, i: nat)
    requires i < |vals| == |omap| && At(b, p, EntriesBits(vals, omap))
    ensures At(b, p + MapBits(omap[..i]), EntryBits(vals[i], omap[i]))
    decreases |omap|
  {
    hide At, EntryBits, MapBits;
    var n := |omap| - 1;
    AtParts(b, p, EntriesBits(vals[..n], omap[..n]), EntryBits(vals[n], omap[n]));
    EntriesLength(vals[..n], omap[..n]);
    if i < n {
      EntryPart(b, p, vals[..n], omap[..n], i);
      assert omap[..n][..i] == omap[..i];
    }
  }
}
