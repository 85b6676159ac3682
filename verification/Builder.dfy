/** GRIB edition 2 messages built section by section (g2_create.c, g2_addlocal.c,
    g2_addgrid.c, g2_addfield.c, g2_gribend.c). */
module Builder {
  import opened Binary
  import opened BitFields
  import opened Packing
  import opened Templates
  import opened Message

  // ---- appending sections ----

  /** `x` is what stands before the open section, whose length is still missing; the section
      has its number and the body so far. */
  ghost predicate Open(cgrib: array<byte>, x: bits, num: int, body: bits)
    reads cgrib
  {
    Starts(cgrib[..], x) && HoldsBehind(cgrib, |x| + 32, ToBits(num, 8) + body)
  }

  method OpenSection(cgrib: array<byte>, num: nat, ghost x: bits, len: nat) returns (iofst: nat)
    requires Starts(cgrib[..], x) && |x| == 8 * len && len + 5 <= cgrib.Length
    modifies cgrib
    ensures Open(cgrib, x, num, []) && iofst == |x| + 40
    ensures KeepsBefore(old(cgrib[..]), cgrib[..], |x|)
  {
    hide BitsOf, ToBits, At, KeepsBefore;
    iofst := 8 * len + 32;
    NothingBehind(BitsOf(cgrib[..]), iofst);
    ghost var before := cgrib[..];
    Append(cgrib, num, 8, iofst, iofst, []);
    assert [] + ToBits(num, 8) == ToBits(num, 8) + [];
    KeepsStart(before, cgrib[..], iofst, x);
    iofst := iofst + 8;
  }

  lemma NothingBehind(b: bits, p: nat)
    requires p <= |b|
    ensures At(b, p, [])
  {
  }

  lemma KeepsStart(before: seq<byte>, now: seq<byte>, gap: nat, x: bits)
    requires KeepsBefore(before, now, gap) && Starts(before, x) && |x| <= gap
    ensures Starts(now, x) && KeepsBefore(before, now, |x|)
  {
    var b, c := BitsOf(before), BitsOf(now);
    assert c[..|x|] == c[..gap][..|x|] == b[..gap][..|x|];
  }

  /** Appends a number to the open section. */
  method AddNumber(cgrib: array<byte>, v: int, w: nat, iofst: nat, ghost x: bits, ghost num: int, ghost body: bits)
    returns (next: nat)
    requires w >= 1 && Open(cgrib, x, num, body) && iofst == |x| + 40 + |body| && iofst + w <= 8 * cgrib.Length
    modifies cgrib
    ensures Open(cgrib, x, num, body + ToBits(v, w)) && next == iofst + w
    ensures KeepsBefore(old(cgrib[..]), cgrib[..], |x|)
  {
    hide BitsOf, ToBits, KeepsBefore, HoldsBehind, Starts;
    ghost var before := cgrib[..];
    Append(cgrib, v, w, iofst, |x| + 32, ToBits(num, 8) + body);
    assert ToBits(num, 8) + body + ToBits(v, w) == ToBits(num, 8) + (body + ToBits(v, w));
    KeepsStart(before, cgrib[..], |x| + 32, x);
    next := iofst + w;
  }

  /** Appends fields of equal width. */
  method AddFields(cgrib: array<byte>, vals: seq<int>, w: nat, iofst: nat, ghost x: bits, ghost num: int,
                   ghost body: bits) returns (next: nat)
    requires w >= 1 && Open(cgrib, x, num, body) && iofst == |x| + 40 + |body| && iofst + w * |vals| <= 8 * cgrib.Length
    modifies cgrib
    ensures Open(cgrib, x, num, body + Fields(vals, w)) && next == iofst + w * |vals|
    ensures KeepsBefore(old(cgrib[..]), cgrib[..], |x|)
  {
    hide BitsOf, ToBits, Fields, StoreAll, At;
    WithinProduct(iofst, w, |vals|, 8 * cgrib.Length);
    ghost var b := BitsOf(cgrib[..]);
    StoreIsFields(b, vals, iofst, w);
    SpliceBehind(b, |x| + 32, ToBits(num, 8) + body, Fields(vals, w));
    assert ToBits(num, 8) + body + Fields(vals, w) == ToBits(num, 8) + (body + Fields(vals, w));
    ghost var before := cgrib[..];
    Sbits(cgrib, vals, iofst, w, 0);
    KeepsStart(before, cgrib[..], |x| + 32, x);
    next := iofst + w * |vals|;
  }

  /** Appends a template. */
  method AddTemplate(cgrib: array<byte>, kind: Kind, t: Template, vals: seq<int>, iofst: nat, ghost x: bits,
                     ghost num: int, ghost body: bits)
    returns (next: nat)
    requires |vals| >= |t.omap| && |FullMap(kind, t, vals)| == |vals|
    requires Open(cgrib, x, num, body) && iofst == |x| + 40 + |body|
    requires iofst + MapBits(FullMap(kind, t, vals)) <= 8 * cgrib.Length
    modifies cgrib
    ensures Open(cgrib, x, num, body + EntriesBits(vals, FullMap(kind, t, vals)))
    ensures next == iofst + MapBits(FullMap(kind, t, vals))
    ensures KeepsBefore(old(cgrib[..]), cgrib[..], |x|)
  {
    hide BitsOf, ToBits, KeepsBefore, HoldsBehind, Starts, FullMap, EntriesBits;
    ghost var before := cgrib[..];
    next := PutTemplate(cgrib, kind, t, vals, iofst, |x| + 32, ToBits(num, 8) + body);
    ghost var y := EntriesBits(vals, FullMap(kind, t, vals));
    assert ToBits(num, 8) + body + y == ToBits(num, 8) + (body + y);
    KeepsStart(before, cgrib[..], |x| + 32, x);
  }

  /** Appends octets one by one. */
  method AddOctets(cgrib: array<byte>, data: seq<byte>, iofst: nat, ghost x: bits, ghost num: int, ghost body: bits)
    returns (next: nat)
    requires Open(cgrib, x, num, body) && iofst == |x| + 40 + |body| && iofst % 8 == 0
    requires iofst + 8 * |data| <= 8 * cgrib.Length
    modifies cgrib
    ensures Open(cgrib, x, num, body + BitsOf(data)) && next == iofst + 8 * |data|
    ensures KeepsBefore(old(cgrib[..]), cgrib[..], |x|)
  {
    hide BitsOf, ToBits, KeepsBefore, At, Starts;
    ghost var before, y := cgrib[..], ToBits(num, 8) + body;
    NoOctets(data, y);
    KeepsSelf(before, |x| + 32);
    for j := 0 to |data|
      invariant HoldsBehind(cgrib, |x| + 32, y + BitsOf(data[..j])) && KeepsBefore(before, cgrib[..], |x| + 32)
    {
      OneMoreOctet(cgrib[..], |x| + 32, y + BitsOf(data[..j]), iofst / 8 + j, data[j]);
      NextOctet(data, j);
      assert y + BitsOf(data[..j]) + ToBits(data[j], 8) == y + BitsOf(data[..j + 1]);
      ghost var now := cgrib[..];
      cgrib[iofst / 8 + j] := data[j];
      assert cgrib[..] == now[iofst / 8 + j := data[j]];
      UseHolds(cgrib, |x| + 32, y + BitsOf(data[..j + 1]));
      KeepsLonger(before, now, cgrib[..], |x| + 32);
    }
    assert data[..|data|] == data;
    assert y + BitsOf(data) == ToBits(num, 8) + (body + BitsOf(data));
    KeepsStart(before, cgrib[..], |x| + 32, x);
    next := iofst + 8 * |data|;
  }

  lemma NoOctets(data: seq<byte>, y: bits)
    ensures y + BitsOf(data[..0]) == y
  {
  }

  lemma UseHolds(cgrib: array<byte>, gap: nat, x: bits)
    requires At(BitsOf(cgrib[..]), gap, x)
    ensures HoldsBehind(cgrib, gap, x)
  {
  }

  lemma OneMoreOctet(s: seq<byte>, gap: nat, y: bits, i: nat, v: byte)
    requires At(BitsOf(s), gap, y) && 8 * i == gap + |y| && i < |s|
    ensures At(BitsOf(s[i := v]), gap, y + ToBits(v, 8)) && KeepsBefore(s, s[i := v], gap)
  {
    hide ToBits, BitsOf, At;
    BitsOfUpdate(s, i, v);
    SpliceBehind(BitsOf(s), gap, y, ToBits(v, 8));
  }

  /** Fills in the length of the open section. */
  method CloseSection(cgrib: array<byte>, iofst: nat, ibeg: nat, ghost x: bits, ghost s: Section)
    requires Open(cgrib, x, s.num, s.body) && ibeg == |x| && iofst == ibeg + 8 * s.Len() && |s.body| % 8 == 0
    modifies cgrib
    ensures Starts(cgrib[..], x + s.Bits()) && KeepsBefore(old(cgrib[..]), cgrib[..], |x|)
  {
    hide BitsOf, ToBits;
    var lensec := (iofst - ibeg) / 8;
    FillGap(BitsOf(cgrib[..]), x, ToBits(lensec, 32), ToBits(s.num, 8) + s.body);
    assert x + ToBits(lensec, 32) + (ToBits(s.num, 8) + s.body) == x + s.Bits();
    StoreField(cgrib, lensec, ibeg, 32);
  }

  lemma FillGap(b: bits, x: bits, gap: bits, y: bits)
    requires At(b, 0, x) && At(b, |x| + |gap|, y)
    ensures At(Splice(b, |x|, gap), 0, x + gap + y) && Splice(b, |x|, gap)[..|x|] == b[..|x|]
  {
    var c := Splice(b, |x|, gap);
    assert c[|x| + |gap|..|x| + |gap| + |y|] == b[|x| + |gap|..|x| + |gap| + |y|];
    assert c[..|x| + |gap| + |y|] == c[..|x|] + c[|x|..|x| + |gap|] + c[|x| + |gap|..|x| + |gap| + |y|];
  }

  /** Updates the total length in section 0. */
  method UpdateTotal(cgrib: array<byte>, lencurr: nat, ghost discipline: int, ghost before: nat, ghost rest: bits)
    requires Starts(cgrib[..], Section0(discipline, before) + rest) && 16 <= cgrib.Length
    modifies cgrib
    ensures Starts(cgrib[..], Section0(discipline, lencurr) + rest)
  {
    hide BitsOf, ToBits;
    ghost var front := BitsOf(GRIB) + ToBits(0, 16) + ToBits(discipline, 8) + ToBits(2, 8) + ToBits(0, 32);
    Refill(BitsOf(cgrib[..]), front, ToBits(before, 32), ToBits(lencurr, 32), rest);
    StoreField(cgrib, lencurr, 96, 32);
  }

  lemma Refill(b: bits, x: bits, y: bits, y': bits, z: bits)
    requires At(b, 0, x + y + z) && |y'| == |y|
    ensures At(Splice(b, |x|, y'), 0, x + y' + z)
  {
    AtParts(b, 0, x + y, z);
    AtParts(b, 0, x, y);
    FillGap(b, x, y', z);
  }

  // ---- the builder calls ----

  /** The new sections behind the message, once the total length is right. */
  lemma Appended(s: seq<byte>, m: Grib, more: seq<Section>)
    requires m.Valid() && (forall i :: 0 <= i < |more| ==> more[i].Valid())
    requires more != [] && m.Add(more).Length() + 4 < SEVENS
    requires Starts(s, Section0(m.discipline, m.Add(more).Length()) + (Join(m.secs) + Join(more)))
    requires Grammatical(m.Add(more).secs)
    ensures Holds(s, m.Add(more), false) && m.Add(more).Length() == m.Length() + Total(more)
  {
    hide ToBits, BitsOf, At, Join, Total, Section0, Grammatical;
    JoinMore(m.secs, more);
  }

  lemma GrammarMore(m: Grib, s: Section)
    requires m.Valid() && Follows(m.Last(), s.num)
    ensures Grammatical(m.Add([s]).secs)
  {
  }

  /** A message is a start for appending. */
  lemma MessageStarts(s: seq<byte>, m: Grib)
    requires Holds(s, m, false)
    ensures Starts(s, m.Bits()) && |m.Bits()| == 8 * m.Length()
  {
    hide ToBits, BitsOf, At, Section0;
    JoinSize(m.secs);
  }

  /** Octets before the end of the message are left alone by a call that fails. */
  lemma StillHolds(before: seq<byte>, now: seq<byte>, m: Grib)
    requires Holds(before, m, false) && KeepsBefore(before, now, 8 * m.Length())
    ensures Holds(now, m, false)
  {
    hide ToBits, BitsOf, At, Section0;
    MessageStarts(before, m);
    KeepsStart(before, now, 8 * m.Length(), m.Bits());
  }

  /** g2_addlocal. */
  method AddLocal(cgrib: array<byte>, csec2: seq<byte>, ghost m: Grib, ghost finished: bool) returns (r: int)
    requires cgrib.Length >= 16
    requires StartsWithGrib(cgrib[..]) ==>
      Holds(cgrib[..], m, finished) && m.Length() + |csec2| + 9 <= cgrib.Length < SEVENS
    modifies cgrib
    ensures r == -1 <==> old(!StartsWithGrib(cgrib[..]))
    ensures r == -2 <==> old(StartsWithGrib(cgrib[..]) && EndsWithSevens(cgrib[..], LengthOf(m, finished)))
    ensures r == -4 ==> m.Last() != 1 && m.Last() != 7
    ensures r < 0 ==> r in {-1, -2, -4} && cgrib[..] == old(cgrib[..])
    ensures r >= 0 ==> !finished && (m.Last() == 1 || m.Last() == 7) && r == m.Length() + 5 + |csec2|
    ensures r >= 0 ==> Holds(cgrib[..], m.Add([Section(2, BitsOf(csec2))]), false)
  {
    hide BitsOf, ToBits, At, Join, Total, Section0, Grib.Bits, Grammatical, Starts, Section.Bits;
    var ier, lencurr, isecnum, issec3, isprevbmap := CheckMessage(cgrib, m, finished);
    if ier != 0 { return ier; }
    if isecnum != 1 && isecnum != 7 { return -4; }
    ghost var x, s := m.Bits(), Section(2, BitsOf(csec2));
    MessageStarts(cgrib[..], m);
    var iofst := OpenSection(cgrib, 2, x, lencurr);
    iofst := AddOctets(cgrib, csec2, iofst, x, 2, []);
    assert [] + BitsOf(csec2) == s.body;
    CloseSection(cgrib, iofst, lencurr * 8, x, s);
    r := lencurr + (|csec2| + 5);
    GrammarMore(m, s);
    JoinOne(s);
    AddTotal(m, [s]);
    UpdateTotal(cgrib, r, m.discipline, m.Length(), Join(m.secs) + s.Bits());
    Appended(cgrib[..], m, [s]);
  }

  lemma AddTotal(m: Grib, more: seq<Section>)
    ensures m.Add(more).Length() == m.Length() + Total(more)
    ensures m.Bits() + Join(more) == Section0(m.discipline, m.Length()) + (Join(m.secs) + Join(more))
  {
    hide ToBits, BitsOf, Join, Total, Section0;
    JoinMore(m.secs, more);
  }

  /** What a template table knows of a template number. */
  datatype Lookup = Known(t: Template) | Unknown

  /** The body of section 3. */
  function GridBody(igds: seq<int>, t: Template, igdstmpl: seq<int>, ideflist: seq<int>): bits
    requires |igds| == 5 && igds[2] >= 0 && |igdstmpl| >= |t.omap| && |FullMap(Grid, t, igdstmpl)| == |igdstmpl|
  {
    GridHead(igds) + EntriesBits(igdstmpl, FullMap(Grid, t, igdstmpl)) + Fields(ideflist, 8 * igds[2])
  }

  function GridHead(igds: seq<int>): (b: bits)
    requires |igds| == 5
    ensures |b| == 72
  {
    ToBits(igds[0], 8) + ToBits(igds[1], 32) + ToBits(igds[2], 8) + ToBits(igds[3], 8) + ToBits(igds[4], 16)
  }

  method AddGridHead(cgrib: array<byte>, igds: seq<int>, iofst0: nat, ghost x: bits) returns (iofst: nat)
    requires |igds| == 5 && Open(cgrib, x, 3, []) && iofst0 == |x| + 40 && iofst0 + 72 <= 8 * cgrib.Length
    modifies cgrib
    ensures Open(cgrib, x, 3, GridHead(igds)) && iofst == iofst0 + 72 && KeepsBefore(old(cgrib[..]), cgrib[..], |x|)
  {
    hide Open, KeepsBefore, ToBits;
    ghost var start := cgrib[..];
    ghost var y := [];
    iofst := AddNumber(cgrib, igds[0], 8, iofst0, x, 3, y);
    ghost var s1 := cgrib[..];
    y := y + ToBits(igds[0], 8);
    iofst := AddNumber(cgrib, igds[1], 32, iofst, x, 3, y);
    KeepsLonger(start, s1, cgrib[..], |x|);
    s1 := cgrib[..];
    y := y + ToBits(igds[1], 32);
    iofst := AddNumber(cgrib, igds[2], 8, iofst, x, 3, y);
    KeepsLonger(start, s1, cgrib[..], |x|);
    s1 := cgrib[..];
    y := y + ToBits(igds[2], 8);
    iofst := AddNumber(cgrib, igds[3], 8, iofst, x, 3, y);
    KeepsLonger(start, s1, cgrib[..], |x|);
    s1 := cgrib[..];
    y := y + ToBits(igds[3], 8);
    iofst := AddNumber(cgrib, igds[4], 16, iofst, x, 3, y);
    KeepsLonger(start, s1, cgrib[..], |x|);
    assert y + ToBits(igds[4], 16) == GridHead(igds);
  }

  /** Section 3; -5 when its template is not known (lines 146-234). */
  method AddSection3(cgrib: array<byte>, igds: seq<int>, mapgrid: Lookup, igdstmpl: seq<int>, ideflist: seq<int>,
                     ibeg: nat, ghost x: bits)
    returns (ok: bool, iofst: nat)
    requires Starts(cgrib[..], x) && |x| == ibeg && ibeg % 8 == 0 && ibeg + 112 <= 8 * cgrib.Length
    requires |igds| == 5 && 0 <= igds[2] && (igds[2] == 0 ==> ideflist == [])
    requires mapgrid.Known? ==> |igdstmpl| >= |mapgrid.t.omap| && |FullMap(Grid, mapgrid.t, igdstmpl)| == |igdstmpl|
    requires mapgrid.Known? ==>
      ibeg + 112 + MapBits(FullMap(Grid, mapgrid.t, igdstmpl)) + 8 * igds[2] * |ideflist| <= 8 * cgrib.Length
    modifies cgrib
    ensures ok == mapgrid.Known? && KeepsBefore(old(cgrib[..]), cgrib[..], ibeg)
    ensures ok ==> var s := Section(3, GridBody(igds, mapgrid.t, igdstmpl, ideflist));
      s.Valid() && Starts(cgrib[..], x + s.Bits()) && iofst == ibeg + 8 * s.Len() == |x + s.Bits()|
    ensures ok ==> iofst == ibeg + 112 + MapBits(FullMap(Grid, mapgrid.t, igdstmpl)) + 8 * igds[2] * |ideflist|
  {
    hide BitsOf, ToBits, At, Starts, Section.Bits, Open, KeepsBefore, GridHead, EntriesBits, FullMap, MapBits, Fields;
    ghost var start := cgrib[..];
    iofst := OpenSection(cgrib, 3, x, ibeg / 8);
    ghost var s1 := cgrib[..];
    iofst := AddGridHead(cgrib, igds, iofst, x);
    KeepsLonger(start, s1, cgrib[..], |x|);
    s1 := cgrib[..];
    if mapgrid.Unknown? { return false, iofst; }
    var t := mapgrid.t;
    ghost var y, e := GridHead(igds), EntriesBits(igdstmpl, FullMap(Grid, t, igdstmpl));
    EntriesLength(igdstmpl, FullMap(Grid, t, igdstmpl));
    iofst := AddTemplate(cgrib, Grid, t, igdstmpl, iofst, x, 3, y);
    KeepsLonger(start, s1, cgrib[..], |x|);
    s1 := cgrib[..];
    if igds[2] != 0 {
      iofst := AddFields(cgrib, ideflist, igds[2] * 8, iofst, x, 3, y + e);
      KeepsLonger(start, s1, cgrib[..], |x|);
      s1 := cgrib[..];
    } else {
      NoList(y + e);
    }
    ghost var s := Section(3, GridBody(igds, t, igdstmpl, ideflist));
    GridBodyOctets(igds, t, igdstmpl, ideflist);
    SectionOctets(s);
    CloseSection(cgrib, iofst, ibeg, x, s);
    KeepsLonger(start, s1, cgrib[..], |x|);
    ok := true;
  }

  /** g2_addgrid, for a grid that the template describes (igds[0] is 0). */
  method AddGrid(cgrib: array<byte>, igds: seq<int>, mapgrid: Lookup, igdstmpl: seq<int>, ideflist: seq<int>,
                 ghost m: Grib, ghost finished: bool)
    returns (r: int)
    requires cgrib.Length >= 16 && |igds| == 5 && igds[0] == 0
    requires 0 <= igds[2] < 256 && (igds[2] == 0 ==> ideflist == [])
    requires mapgrid.Known? ==> |igdstmpl| >= |mapgrid.t.omap| && |FullMap(Grid, mapgrid.t, igdstmpl)| == |igdstmpl|
    requires StartsWithGrib(cgrib[..]) ==> Holds(cgrib[..], m, finished) && m.Length() + 18 <= cgrib.Length < SEVENS
    requires StartsWithGrib(cgrib[..]) && mapgrid.Known? ==>
      8 * m.Length() + 144 + MapBits(FullMap(Grid, mapgrid.t, igdstmpl)) + 8 * igds[2] * |ideflist| <= 8 * cgrib.Length
    modifies cgrib
    ensures r == -1 <==> old(!StartsWithGrib(cgrib[..]))
    ensures r == -2 <==> old(StartsWithGrib(cgrib[..]) && EndsWithSevens(cgrib[..], LengthOf(m, finished)))
    ensures r == -4 ==> m.Last() !in {1, 2, 7}
    ensures r == -5 ==> mapgrid.Unknown?
    ensures r in {-1, -2, -4} ==> cgrib[..] == old(cgrib[..])
    ensures r == -5 ==>
      !finished && KeepsBefore(old(cgrib[..]), cgrib[..], 8 * m.Length()) && Holds(cgrib[..], m, false)
    ensures r >= 0 ==> !finished && m.Last() in {1, 2, 7} && mapgrid.Known?
    ensures r >= 0 ==> var s := Section(3, GridBody(igds, mapgrid.t, igdstmpl, ideflist));
      Holds(cgrib[..], m.Add([s]), false) && r == m.Add([s]).Length()
    ensures r >= 0 || r in {-1, -2, -4, -5}
  {
    hide BitsOf, ToBits, At, Join, Total, Section0, Grib.Bits, Grammatical, Starts, Section.Bits, KeepsBefore, FullMap,
      MapBits, GridBody;
    var ier, lencurr, isecnum, issec3, isprevbmap := CheckMessage(cgrib, m, finished);
    if ier != 0 { return ier; }
    if isecnum != 1 && isecnum != 2 && isecnum != 7 { return -4; }
    ghost var x, start := m.Bits(), cgrib[..];
    MessageStarts(cgrib[..], m);
    var ok, iofst := AddSection3(cgrib, igds, mapgrid, igdstmpl, ideflist, lencurr * 8, x);
    if !ok {
      StillHolds(start, cgrib[..], m);
      return -5;
    }
    ghost var s := Section(3, GridBody(igds, mapgrid.t, igdstmpl, ideflist));
    r := lencurr + (iofst - lencurr * 8) / 8;
    GrammarMore(m, s);
    JoinOne(s);
    AddTotal(m, [s]);
    UpdateTotal(cgrib, r, m.discipline, m.Length(), Join(m.secs) + s.Bits());
    Appended(cgrib[..], m, [s]);
  }

  lemma NoList(y: bits)
    ensures y + Fields([], 0) == y
  {
  }

  lemma GridBodyOctets(igds: seq<int>, t: Template, igdstmpl: seq<int>, ideflist: seq<int>)
    requires |igds| == 5 && igds[2] >= 0 && |igdstmpl| >= |t.omap| && |FullMap(Grid, t, igdstmpl)| == |igdstmpl|
    ensures var body := GridBody(igds, t, igdstmpl, ideflist); var n := MapBits(FullMap(Grid, t, igdstmpl));
      |body| == 72 + n + 8 * igds[2] * |ideflist| && |body| % 8 == 0
  {
    hide FullMap, ToBits, EntriesBits, Fields, MapBits, GridHead;
    EntriesLength(igdstmpl, FullMap(Grid, t, igdstmpl));
    MapOctets(FullMap(Grid, t, igdstmpl));
    EightTimes(MapBits(FullMap(Grid, t, igdstmpl)), igds[2], |ideflist|);
  }

  lemma EightTimes(n: int, a: int, b: int)
    requires n % 8 == 0
    ensures (72 + n + (8 * a) * b) % 8 == 0
  {
    var k := a * b;
    assert (8 * a) * b == 8 * k;
  }

  lemma {:induction false} MapOctets(omap: seq<int>)
    ensures MapBits(omap) % 8 == 0
    decreases |omap|
  {
    if |omap| > 0 {
      MapOctets(omap[..|omap| - 1]);
    }
  }

  // ---- g2_addfield ----

  function ProductBody(ipdsnum: int, t: Template, ipdstmpl: seq<int>, coords: seq<int>): bits
    requires |ipdstmpl| >= |t.omap| && |FullMap(Pds, t, ipdstmpl)| == |ipdstmpl|
  {
    ToBits(|coords|, 16) + ToBits(ipdsnum, 16) + EntriesBits(ipdstmpl, FullMap(Pds, t, ipdstmpl)) + Fields(coords, 32)
  }

  function RepresentationBody(ndpts: int, idrsnum: int, t: Template, idrstmpl: seq<int>): bits
    requires |idrstmpl| == |t.omap|
  {
    ToBits(ndpts, 32) + ToBits(idrsnum, 16) + EntriesBits(idrstmpl, t.omap)
  }

  function BitmapBody(ibmap: int, bmap: seq<int>): bits {
    var b := BitmapBits(ibmap, bmap);
    b + Zeros(Pad8(|b|) - |b|)
  }

  function BitmapBits(ibmap: int, bmap: seq<int>): (b: bits)
    ensures |b| == 8 + if ibmap == 0 then |bmap| else 0
  {
    ToBits(ibmap, 8) + (if ibmap == 0 then Fields(bmap, 1) else [])
  }

  /** Section 4; -5 when its template is not known (lines 208-283). */
  method AddSection4(cgrib: array<byte>, ipdsnum: int, mappds: Lookup, ipdstmpl: seq<int>, coords: seq<int>, ibeg: nat,
                     ghost x: bits)
    returns (ok: bool, iofst: nat)
    requires Starts(cgrib[..], x) && |x| == ibeg && ibeg % 8 == 0 && ibeg + 72 <= 8 * cgrib.Length
    requires mappds.Known? ==> |ipdstmpl| >= |mappds.t.omap| && |FullMap(Pds, mappds.t, ipdstmpl)| == |ipdstmpl|
    requires mappds.Known? ==> ibeg + 72 + MapBits(FullMap(Pds, mappds.t, ipdstmpl)) + 32 * |coords| <= 8 * cgrib.Length
    modifies cgrib
    ensures ok == mappds.Known? && KeepsBefore(old(cgrib[..]), cgrib[..], ibeg)
    ensures ok ==> var s := Section(4, ProductBody(ipdsnum, mappds.t, ipdstmpl, coords));
      s.Valid() && Starts(cgrib[..], x + s.Bits()) && iofst == ibeg + 8 * s.Len() == |x + s.Bits()|
    ensures ok ==> iofst == ibeg + 72 + MapBits(FullMap(Pds, mappds.t, ipdstmpl)) + 32 * |coords|
  {
    hide BitsOf, ToBits, At, Starts, Section.Bits, Open, KeepsBefore, EntriesBits, FullMap, MapBits, Fields;
    ghost var start := cgrib[..];
    iofst := OpenSection(cgrib, 4, x, ibeg / 8);
    ghost var s1 := cgrib[..];
    iofst := AddNumber(cgrib, |coords|, 16, iofst, x, 4, []);
    KeepsLonger(start, s1, cgrib[..], |x|);
    s1 := cgrib[..];
    ghost var y := [] + ToBits(|coords|, 16);
    iofst := AddNumber(cgrib, ipdsnum, 16, iofst, x, 4, y);
    KeepsLonger(start, s1, cgrib[..], |x|);
    s1 := cgrib[..];
    y := y + ToBits(ipdsnum, 16);
    if mappds.Unknown? { return false, iofst; }
    var t := mappds.t;
    EntriesLength(ipdstmpl, FullMap(Pds, t, ipdstmpl));
    iofst := AddTemplate(cgrib, Pds, t, ipdstmpl, iofst, x, 4, y);
    KeepsLonger(start, s1, cgrib[..], |x|);
    s1 := cgrib[..];
    y := y + EntriesBits(ipdstmpl, FullMap(Pds, t, ipdstmpl));
    iofst := AddFields(cgrib, coords, 32, iofst, x, 4, y);
    KeepsLonger(start, s1, cgrib[..], |x|);
    s1 := cgrib[..];
    ghost var s := Section(4, ProductBody(ipdsnum, t, ipdstmpl, coords));
    assert y + Fields(coords, 32) == s.body;
    MapOctets(FullMap(Pds, t, ipdstmpl));
    SectionOctets(s);
    CloseSection(cgrib, iofst, ibeg, x, s);
    KeepsLonger(start, s1, cgrib[..], |x|);
    ok := true;
  }

  /** Section 5 (lines 398-428). */
  method AddSection5(cgrib: array<byte>, ndpts: int, idrsnum: int, t: Template, idrstmpl: seq<int>, ibeg: nat,
                     ghost x: bits)
    returns (iofst: nat)
    requires Starts(cgrib[..], x) && |x| == ibeg && ibeg % 8 == 0 && |idrstmpl| == |t.omap|
    requires ibeg + 88 + MapBits(t.omap) <= 8 * cgrib.Length
    modifies cgrib
    ensures KeepsBefore(old(cgrib[..]), cgrib[..], ibeg)
    ensures var s := Section(5, RepresentationBody(ndpts, idrsnum, t, idrstmpl));
      s.Valid() && Starts(cgrib[..], x + s.Bits()) && iofst == ibeg + 8 * s.Len() == |x + s.Bits()|
    ensures iofst == ibeg + 88 + MapBits(t.omap)
  {
    hide BitsOf, ToBits, At, Starts, Section.Bits, Open, KeepsBefore, EntriesBits, MapBits;
    ghost var start := cgrib[..];
    iofst := OpenSection(cgrib, 5, x, ibeg / 8);
    ghost var s1 := cgrib[..];
    iofst := AddNumber(cgrib, ndpts, 32, iofst, x, 5, []);
    KeepsLonger(start, s1, cgrib[..], |x|);
    s1 := cgrib[..];
    ghost var y := [] + ToBits(ndpts, 32);
    iofst := AddNumber(cgrib, idrsnum, 16, iofst, x, 5, y);
    KeepsLonger(start, s1, cgrib[..], |x|);
    s1 := cgrib[..];
    y := y + ToBits(idrsnum, 16);
    EntriesLength(idrstmpl, t.omap);
    assert FullMap(Drs, t, idrstmpl) == t.omap;
    iofst := AddTemplate(cgrib, Drs, t, idrstmpl, iofst, x, 5, y);
    KeepsLonger(start, s1, cgrib[..], |x|);
    s1 := cgrib[..];
    ghost var s := Section(5, RepresentationBody(ndpts, idrsnum, t, idrstmpl));
    assert y + EntriesBits(idrstmpl, t.omap) == s.body;
    MapOctets(t.omap);
    SectionOctets(s);
    CloseSection(cgrib, iofst, ibeg, x, s);
    KeepsLonger(start, s1, cgrib[..], |x|);
  }

  method AddBitmap(cgrib: array<byte>, ibmap: int, bmap: seq<int>, ibeg: nat, ghost x: bits) returns (iofst: nat)
    requires Starts(cgrib[..], x) && |x| == ibeg && ibeg % 8 == 0 && ibeg + 56 + |bmap| <= 8 * cgrib.Length
    modifies cgrib
    ensures Open(cgrib, x, 6, BitmapBits(ibmap, bmap)) && iofst == ibeg + 40 + |BitmapBits(ibmap, bmap)|
    ensures KeepsBefore(old(cgrib[..]), cgrib[..], ibeg)
  {
    hide BitsOf, ToBits, At, Starts, Open, KeepsBefore, Fields;
    ghost var start := cgrib[..];
    iofst := OpenSection(cgrib, 6, x, ibeg / 8);
    ghost var s1 := cgrib[..];
    iofst := AddNumber(cgrib, ibmap, 8, iofst, x, 6, []);
    KeepsLonger(start, s1, cgrib[..], |x|);
    s1 := cgrib[..];
    assert [] + ToBits(ibmap, 8) == ToBits(ibmap, 8);
    if ibmap == 0 {
      iofst := AddFields(cgrib, bmap, 1, iofst, x, 6, ToBits(ibmap, 8));
      KeepsLonger(start, s1, cgrib[..], |x|);
    } else {
      assert ToBits(ibmap, 8) + [] == ToBits(ibmap, 8);
    }
  }

  /** Section 6; -8 when a bitmap is to be used again and there is none (lines 433-466). */
  method AddSection6(cgrib: array<byte>, ibmap: int, bmap: seq<int>, isprevbmap: bool, ibeg: nat, ghost x: bits)
    returns (ok: bool, iofst: nat)
    requires Starts(cgrib[..], x) && |x| == ibeg && ibeg % 8 == 0 && ibeg + 56 + |bmap| <= 8 * cgrib.Length
    modifies cgrib
    ensures ok == !(ibmap == 254 && !isprevbmap) && KeepsBefore(old(cgrib[..]), cgrib[..], ibeg)
    ensures ok ==> var s := Section(6, BitmapBody(ibmap, bmap));
      s.Valid() && Starts(cgrib[..], x + s.Bits()) && iofst == ibeg + 8 * s.Len() == |x + s.Bits()|
    ensures ok ==> iofst <= ibeg + 56 + |bmap|
  {
    hide BitsOf, ToBits, At, Starts, Section.Bits, Open, KeepsBefore, BitmapBits, BitmapBody;
    ghost var start, y := cgrib[..], BitmapBits(ibmap, bmap);
    iofst := AddBitmap(cgrib, ibmap, bmap, ibeg, x);
    ghost var s1 := cgrib[..];
    if ibmap == 254 && !isprevbmap { return false, iofst; }
    ghost var s := Section(6, BitmapBody(ibmap, bmap));
    BitmapPadding(ibeg, ibmap, bmap);
    var left := 8 - iofst % 8;
    if left != 8 {
      iofst := AddNumber(cgrib, 0, left, iofst, x, 6, y);
      KeepsLonger(start, s1, cgrib[..], |x|);
      s1 := cgrib[..];
    }
    SectionOctets(s);
    CloseSection(cgrib, iofst, ibeg, x, s);
    KeepsLonger(start, s1, cgrib[..], |x|);
    ok := true;
  }

  lemma BitmapPadding(ibeg: nat, ibmap: int, bmap: seq<int>)
    requires ibeg % 8 == 0
    ensures var y := BitmapBits(ibmap, bmap); var left := 8 - (ibeg + 40 + |y|) % 8;
      && BitmapBody(ibmap, bmap) == (if left == 8 then y else y + ToBits(0, left))
      && |BitmapBody(ibmap, bmap)| == |y| + (if left == 8 then 0 else left)
    ensures |BitmapBody(ibmap, bmap)| % 8 == 0 && 8 <= |BitmapBody(ibmap, bmap)| <= 16 + |bmap|
  {
    hide BitmapBits, ToBits;
    var y := BitmapBits(ibmap, bmap);
    var left := 8 - |y| % 8;
    assert (ibeg + 40 + |y|) % 8 == |y| % 8;
    ValZeros(left);
    assert y + Zeros(0) == y;
  }

  /** Section 7 (lines 471-487). */
  method AddSection7(cgrib: array<byte>, cpack: seq<byte>, ibeg: nat, ghost x: bits) returns (iofst: nat)
    requires Starts(cgrib[..], x) && |x| == ibeg && ibeg % 8 == 0 && ibeg + 40 + 8 * |cpack| <= 8 * cgrib.Length
    modifies cgrib
    ensures KeepsBefore(old(cgrib[..]), cgrib[..], ibeg)
    ensures var s := Section(7, BitsOf(cpack));
      s.Valid() && Starts(cgrib[..], x + s.Bits()) && iofst == ibeg + 8 * s.Len() == |x + s.Bits()|
    ensures iofst == ibeg + 40 + 8 * |cpack|
  {
    hide BitsOf, ToBits, At, Starts, Section.Bits, Open, KeepsBefore;
    ghost var start, s := cgrib[..], Section(7, BitsOf(cpack));
    iofst := OpenSection(cgrib, 7, x, ibeg / 8);
    ghost var s1 := cgrib[..];
    iofst := AddOctets(cgrib, cpack, iofst, x, 7, []);
    KeepsLonger(start, s1, cgrib[..], |x|);
    s1 := cgrib[..];
    assert [] + BitsOf(cpack) == s.body;
    SectionOctets(s);
    CloseSection(cgrib, iofst, ibeg, x, s);
    KeepsLonger(start, s1, cgrib[..], |x|);
  }

  function Ones(bmap: seq<int>): (n: nat)
    ensures n <= |bmap|
  {
    if |bmap| == 0 then 0 else Ones(bmap[..|bmap| - 1]) + if bmap[|bmap| - 1] == 1 then 1 else 0
  }

  /** Counts the points that a bitmap lets through (lines 299-309). */
  method CountPoints(f: Field) returns (ndpts: int)
    ensures ndpts == f.Points()
  {
    if f.ibmap == 0 || f.ibmap == 254 {
      ndpts := 0;
      for j := 0 to |f.bmap|
        invariant ndpts == Ones(f.bmap[..j])
      {
        assert f.bmap[..j + 1][..j] == f.bmap[..j];
        if f.bmap[j] == 1 {
          ndpts := ndpts + 1;
        }
      }
      assert f.bmap[..|f.bmap|] == f.bmap;
    } else {
      ndpts := f.ngrdpts;
    }
  }

  /** What the packing routine of the representation template gives. */
  datatype PackResult = Packed(octets: seq<byte>) | NotImplemented | NoPolynomial | Failed

  /** The arguments of g2_addfield, with what the template tables and the packing make of them. */
  datatype Field = Field(ipdsnum: int, mappds: Lookup, ipdstmpl: seq<int>, coords: seq<int>,
                         idrsnum: int, mapdrs: Lookup, idrstmpl: seq<int>, ngrdpts: int, packing: PackResult,
                         ibmap: int, bmap: seq<int>) {
    predicate Valid() {
      && (mappds.Known? ==> |ipdstmpl| >= |mappds.t.omap| && |FullMap(Pds, mappds.t, ipdstmpl)| == |ipdstmpl|)
      && (mapdrs.Known? ==> |idrstmpl| == |mapdrs.t.omap|)
      && (ibmap == 0 || ibmap == 254 ==> |bmap| == ngrdpts)
    }

    /** The number of points that are packed: those that the bitmap lets through. */
    function Points(): int {
      if ibmap == 0 || ibmap == 254 then Ones(bmap) else ngrdpts
    }

    predicate Complete() {
      Valid() && mappds.Known? && mapdrs.Known? && packing.Packed?
    }

    function Sections(): seq<Section>
      requires Complete()
    {
      [Section(4, ProductBody(ipdsnum, mappds.t, ipdstmpl, coords)),
       Section(5, RepresentationBody(Points(), idrsnum, mapdrs.t, idrstmpl)),
       Section(6, BitmapBody(ibmap, bmap)),
       Section(7, BitsOf(packing.octets))]
    }

    /** Octets that are always enough. */
    function Room(): (n: nat)
      requires Valid()
      ensures n >= 50
    {
      50 + (if mappds.Known? then MapBits(FullMap(Pds, mappds.t, ipdstmpl)) / 8 + 4 * |coords| else 0)
      + (if mapdrs.Known? then MapBits(mapdrs.t.omap) / 8 else 0)
      + |bmap| + (if packing.Packed? then |packing.octets| else 0)
    }
  }

  /** The outcome of g2_addfield on a message that can take a field. */
  function FieldStatus(f: Field, hasBitmap: bool): int {
    if f.mappds.Unknown? || f.mapdrs.Unknown? then -5
    else match f.packing
      case NotImplemented => -7
      case NoPolynomial => -9
      case Failed => -10
      case Packed(_) => if f.ibmap == 254 && !hasBitmap then -8 else 0
  }

  /** Sections 4 to 7 behind the message (lines 205-487). */
  method AddSections(cgrib: array<byte>, f: Field, isprevbmap: bool, lencurr: nat, ghost x: bits)
    returns (ier: int, iofst: nat)
    requires Starts(cgrib[..], x) && |x| == 8 * lencurr && f.Valid() && lencurr + f.Room() <= cgrib.Length
    modifies cgrib
    ensures ier == FieldStatus(f, isprevbmap) && KeepsBefore(old(cgrib[..]), cgrib[..], |x|)
    ensures ier == 0 ==>
      f.Complete() && Starts(cgrib[..], x + Join(f.Sections())) && iofst == |x| + 8 * Total(f.Sections())
    ensures ier == 0 ==> forall i :: 0 <= i < 4 ==> f.Sections()[i].Valid()
  {
    hide BitsOf, ToBits, At, Starts, Section.Bits, KeepsBefore, MapBits, FullMap, ProductBody, RepresentationBody,
      BitmapBody, Section.Valid, Section.Len, Join, Total, Field.Points;
    ghost var start := cgrib[..];
    RoomInBits(f);
    var ok;
    ok, iofst := AddSection4(cgrib, f.ipdsnum, f.mappds, f.ipdstmpl, f.coords, 8 * lencurr, x);
    if !ok { return -5, iofst; }
    if f.mapdrs.Unknown? { return -5, iofst; }
    if f.packing.NotImplemented? { return -7, iofst; }
    if f.packing.NoPolynomial? { return -9, iofst; }
    if f.packing.Failed? { return -10, iofst; }
    ghost var ss, y, s1 := f.Sections(), x + f.Sections()[0].Bits(), cgrib[..];
    var ndpts := CountPoints(f);
    iofst := AddSection5(cgrib, ndpts, f.idrsnum, f.mapdrs.t, f.idrstmpl, iofst, y);
    KeepsShorter(start, s1, cgrib[..], |x|, |y|);
    s1 := cgrib[..];
    ghost var z := y + ss[1].Bits();
    ok, iofst := AddSection6(cgrib, f.ibmap, f.bmap, isprevbmap, iofst, z);
    KeepsShorter(start, s1, cgrib[..], |x|, |z|);
    if !ok { return -8, iofst; }
    s1 := cgrib[..];
    ghost var w := z + ss[2].Bits();
    iofst := AddSection7(cgrib, f.packing.octets, iofst, w);
    KeepsShorter(start, s1, cgrib[..], |x|, |w|);
    JoinFour(x, ss);
    ier := 0;
  }

  lemma RoomInBits(f: Field)
    requires f.Valid()
    ensures f.mappds.Known? ==> MapBits(FullMap(Pds, f.mappds.t, f.ipdstmpl)) % 8 == 0
    ensures f.mapdrs.Known? ==> MapBits(f.mapdrs.t.omap) % 8 == 0
  {
    hide FullMap;
    if f.mappds.Known? { MapOctets(FullMap(Pds, f.mappds.t, f.ipdstmpl)); }
    if f.mapdrs.Known? { MapOctets(f.mapdrs.t.omap); }
  }

  lemma KeepsShorter(a: seq<byte>, b: seq<byte>, c: seq<byte>, short: nat, long: nat)
    requires KeepsBefore(a, b, short) && KeepsBefore(b, c, long) && short <= long
    ensures KeepsBefore(a, c, short)
  {
    hide BitsOf;
    assert BitsOf(c)[..short] == BitsOf(c)[..long][..short];
    assert BitsOf(b)[..short] == BitsOf(b)[..long][..short];
  }

  lemma JoinFour(x: bits, ss: seq<Section>)
    requires |ss| == 4
    ensures x + Join(ss) == x + ss[0].Bits() + ss[1].Bits() + ss[2].Bits() + ss[3].Bits()
    ensures Total(ss) == ss[0].Len() + ss[1].Len() + ss[2].Len() + ss[3].Len()
  {
    hide Section.Bits, Section.Len, Join, Total;
    assert ss == [ss[0]] + [ss[1]] + [ss[2]] + [ss[3]];
    forall i | 0 <= i < 4 ensures Join([ss[i]]) == ss[i].Bits() && Total([ss[i]]) == ss[i].Len() {
      JoinOne(ss[i]);
    }
    JoinMore([ss[0]], [ss[1]]);
    JoinMore([ss[0]] + [ss[1]], [ss[2]]);
    JoinMore([ss[0]] + [ss[1]] + [ss[2]], [ss[3]]);
    var a, b, c, d := ss[0].Bits(), ss[1].Bits(), ss[2].Bits(), ss[3].Bits();
    assert x + (a + b + c + d) == x + a + b + c + d;
  }

  lemma GrammarField(m: Grib, ss: seq<Section>)
    requires m.Valid() && (m.Last() == 3 || m.Last() == 7)
    requires |ss| == 4 && ss[0].num == 4 && ss[1].num == 5 && ss[2].num == 6 && ss[3].num == 7
    ensures Grammatical(m.Add(ss).secs)
  {
  }

  /** g2_addfield. */
  method AddField(cgrib: array<byte>, f: Field, ghost m: Grib, ghost finished: bool) returns (r: int)
    requires cgrib.Length >= 16 && f.Valid()
    requires StartsWithGrib(cgrib[..]) ==>
      Holds(cgrib[..], m, finished) && m.Length() + f.Room() + 4 <= cgrib.Length < SEVENS
    modifies cgrib
    ensures r == -1 <==> old(!StartsWithGrib(cgrib[..]))
    ensures r == -2 <==> old(StartsWithGrib(cgrib[..]) && EndsWithSevens(cgrib[..], LengthOf(m, finished)))
    ensures r == -4 ==> m.Last() != 3 && m.Last() != 7
    ensures r in {-1, -2, -4} ==> cgrib[..] == old(cgrib[..])
    ensures r in {-5, -7, -8, -9, -10} ==> !finished && r == FieldStatus(f, HasBitmap(m.secs, |m.secs|))
    ensures r in {-5, -7, -8, -9, -10} ==>
      KeepsBefore(old(cgrib[..]), cgrib[..], 8 * m.Length()) && Holds(cgrib[..], m, false)
    ensures r >= 0 ==> !finished && f.Complete() && (m.Last() == 3 || m.Last() == 7)
    ensures r >= 0 ==> FieldStatus(f, HasBitmap(m.secs, |m.secs|)) == 0
    ensures r >= 0 ==> Holds(cgrib[..], m.Add(f.Sections()), false) && r == m.Add(f.Sections()).Length()
    ensures r >= 0 || r in {-1, -2, -4, -5, -7, -8, -9, -10}
  {
    hide BitsOf, ToBits, At, Join, Total, Section0, Grib.Bits, Grammatical, Starts, KeepsBefore, Field.Room, HasBitmap,
      HasSection3, Section.Valid, Section.Bits, Section.Len,
      ProductBody, RepresentationBody, BitmapBody, EndsWithSevens, FieldStatus, Field.Valid;
    var ier, lencurr, isecnum, issec3, isprevbmap := CheckMessage(cgrib, m, finished);
    if ier != 0 { return ier; }
    if isecnum != 3 && isecnum != 7 { return -4; }
    GridIsThere(m.secs);
    if !issec3 { return -6; }
    ghost var x, start := m.Bits(), cgrib[..];
    MessageStarts(cgrib[..], m);
    var iofst;
    ier, iofst := AddSections(cgrib, f, isprevbmap, lencurr, x);
    if ier != 0 {
      StatusCodes(f, isprevbmap);
      StillHolds(start, cgrib[..], m);
      return ier;
    }
    ghost var ss := f.Sections();
    r := iofst / 8;
    GrammarField(m, ss);
    AddTotal(m, ss);
    RoomEnough(f);
    UpdateTotal(cgrib, r, m.discipline, m.Length(), Join(m.secs) + Join(ss));
    Appended(cgrib[..], m, ss);
  }

  lemma StatusCodes(f: Field, hasBitmap: bool)
    ensures FieldStatus(f, hasBitmap) in {0, -5, -7, -8, -9, -10}
  {
  }

  lemma GridIsThere(secs: seq<Section>)
    requires Grammatical(secs) && |secs| > 0 && (secs[|secs| - 1].num == 3 || secs[|secs| - 1].num == 7)
    ensures HasSection3(secs, |secs|)
  {
    GridComesFirst(secs);
  }

  lemma RoomEnough(f: Field)
    requires f.Complete()
    ensures Total(f.Sections()) <= f.Room()
  {
    hide ToBits, BitsOf, FullMap;
    JoinFour([], f.Sections());
    RoomInBits(f);
    EntriesLength(f.ipdstmpl, FullMap(Pds, f.mappds.t, f.ipdstmpl));
    EntriesLength(f.idrstmpl, f.mapdrs.t.omap);
  }

  // ---- the end of a message ----

  /** g2_gribend.  A message that is finished already gives -3, as "7777" is taken for the
      length of one more section. */
  method GribEnd(cgrib: array<byte>, ghost m: Grib, ghost finished: bool) returns (r: int)
    requires cgrib.Length >= 16
    requires StartsWithGrib(cgrib[..]) ==> Holds(cgrib[..], m, finished) && m.Length() + 6 <= cgrib.Length
    modifies cgrib
    ensures r == -1 <==> old(!StartsWithGrib(cgrib[..]))
    ensures r == -3 ==> finished
    ensures r == -4 ==> !finished && m.Last() != 7
    ensures r < 0 ==> r in {-1, -3, -4} && cgrib[..] == old(cgrib[..])
    ensures r >= 0 ==> !finished && m.Last() == 7 && r == m.Length() + 4 && Holds(cgrib[..], m, true)
  {
    hide BitsOf, ToBits, At, Join, Val, Total, Section0, Cut, Low, Grib.Bits, Starts, HoldsBehind;
    if cgrib[0] != 0x47 || cgrib[1] != 0x52 || cgrib[2] != 0x49 || cgrib[3] != 0x42 { return -1; }
    MessageParts(BitsOf(cgrib[..]), m, finished);
    NumberAt(BitsOf(cgrib[..]), 96, LengthOf(m, finished), 32);
    Word32(LengthOf(m, finished));
    var lencurr := LoadField(cgrib, 96, 32);
    var ier, isecnum, issec3, isprevbmap := LastSection(cgrib, lencurr, m, finished);
    if ier != 0 { return -3; }
    if isecnum != 7 { return -4; }
    MessageStarts(cgrib[..], m);
    StartsIsBehind(cgrib, m.Bits());
    PutSevens(cgrib, lencurr, m.Bits());
    r := lencurr + 4;
    WithSevens(m);
    StartsFrom(cgrib, m.Bits() + ToBits(SEVENS, 32));
    UpdateTotal(cgrib, r, m.discipline, m.Length(), Join(m.secs) + ToBits(SEVENS, 32));
    Finished(cgrib[..], m);
  }

  lemma WithSevens(m: Grib)
    ensures m.Bits() + ToBits(SEVENS, 32) == Section0(m.discipline, m.Length()) + (Join(m.secs) + ToBits(SEVENS, 32))
  {
    hide Section0, ToBits, Join;
  }

  lemma Finished(s: seq<byte>, m: Grib)
    requires m.Valid() && Starts(s, Section0(m.discipline, m.Length() + 4) + (Join(m.secs) + ToBits(SEVENS, 32)))
    ensures Holds(s, m, true)
  {
    hide Section0, ToBits, Join, BitsOf, At;
    var a, b, c := Section0(m.discipline, m.Length() + 4), Join(m.secs), ToBits(SEVENS, 32);
    assert a + (b + c) == a + b + c;
  }

  lemma StartsIsBehind(cgrib: array<byte>, x: bits)
    requires Starts(cgrib[..], x)
    ensures HoldsBehind(cgrib, 0, x)
  {
  }

  lemma StartsFrom(cgrib: array<byte>, x: bits)
    requires HoldsBehind(cgrib, 0, x)
    ensures Starts(cgrib[..], x)
  {
  }

  method PutSevens(cgrib: array<byte>, at: nat, ghost x: bits)
    requires HoldsBehind(cgrib, 0, x) && |x| == 8 * at && at + 4 <= cgrib.Length
    modifies cgrib
    ensures HoldsBehind(cgrib, 0, x + ToBits(SEVENS, 32))
  {
    hide BitsOf, ToBits, At, KeepsBefore;
    ghost var data: seq<byte> := [0x37, 0x37, 0x37, 0x37];
    SevensBits();
    NoOctets(data, x);
    for j := 0 to 4
      invariant HoldsBehind(cgrib, 0, x + BitsOf(data[..j]))
    {
      OneMoreOctet(cgrib[..], 0, x + BitsOf(data[..j]), at + j, 0x37);
      NextOctet(data, j);
      assert x + BitsOf(data[..j]) + ToBits(data[j], 8) == x + BitsOf(data[..j + 1]);
      ghost var now := cgrib[..];
      cgrib[at + j] := 0x37;
      assert cgrib[..] == now[at + j := 0x37];
    }
    assert data[..4] == data;
  }

  // ---- the start of a message ----

  /** The octets of the entries of section 1. */
  const MAPSEC1: seq<int> := [2, 2, 1, 1, 1, 2, 1, 1, 1, 1, 1, 1, 1]

  function Identification(listsec1: seq<int>): Section
    requires |listsec1| == 13
  {
    Section(1, EntriesBits(listsec1, MAPSEC1))
  }

  lemma IdentificationSize(listsec1: seq<int>)
    requires |listsec1| == 13
    ensures MapBits(MAPSEC1) == 128 && Identification(listsec1).Len() == 21 && Identification(listsec1).Valid()
  {
    MapSec1Bits();
    EntriesLength(listsec1, MAPSEC1);
  }

  lemma MapSec1Bits()
    ensures MapBits(MAPSEC1) == 128
  {
    assert MAPSEC1 == [2, 2, 1, 1, 1, 2, 1] + [1, 1, 1, 1, 1, 1];
    MapConcat([2, 2, 1, 1, 1, 2, 1], [1, 1, 1, 1, 1, 1]);
    assert [1, 1, 1, 1, 1, 1] == [1, 1, 1] + [1, 1, 1];
    MapConcat([1, 1, 1], [1, 1, 1]);
    assert [1, 1, 1][..2] == [1, 1] && [1, 1][..1] == [1] && [1][..0] == [];
    assert MapBits([1]) == 8 && MapBits([1, 1]) == 16;
    assert [2, 2, 1, 1, 1, 2, 1] == [2, 2] + [1, 1, 1] + [2, 1];
    MapConcat([2, 2] + [1, 1, 1], [2, 1]);
    MapConcat([2, 2], [1, 1, 1]);
    assert [2, 2][..1] == [2] && [2, 1][..1] == [2] && [2][..0] == [];
    assert MapBits([2]) == 16;
  }

  /** g2_create: sections 0 and 1; -1 for any edition but 2. */
  method Create(cgrib: array<byte>, listsec0: seq<int>, listsec1: seq<int>) returns (r: int)
    requires |listsec0| >= 2 && |listsec1| == 13 && 37 <= cgrib.Length
    modifies cgrib
    ensures r == -1 <==> listsec0[1] != 2
    ensures r == -1 ==> cgrib[..] == old(cgrib[..])
    ensures r != -1 ==> r == 37 && Holds(cgrib[..], Grib(listsec0[0], [Identification(listsec1)]), false)
  {
    hide BitsOf, ToBits, At, KeepsBefore, HoldsBehind, EntriesBits, MapBits, Section0;
    if listsec0[1] != 2 { return -1; }
    PutGrib(cgrib);
    ghost var x := BitsOf(GRIB);
    Append(cgrib, 0, 16, 32, 0, x);
    x := x + ToBits(0, 16);
    Append(cgrib, listsec0[0], 8, 48, 0, x);
    x := x + ToBits(listsec0[0], 8);
    Append(cgrib, listsec0[1], 8, 56, 0, x);
    x := x + ToBits(2, 8);
    ghost var y, before := ToBits(1, 8), cgrib[..];
    StartsFrom(cgrib, x);
    BehindNothing(cgrib, 160);
    Append(cgrib, 1, 8, 160, 160, []);
    assert [] + y == y;
    ghost var middle := cgrib[..];
    IdentificationSize(listsec1);
    var iofst := PutEntries(cgrib, listsec1, MAPSEC1, 168, 160, y);
    KeepsLonger(before, middle, cgrib[..], 160);
    y := y + EntriesBits(listsec1, MAPSEC1);
    PrefixKept(before, cgrib, 160, x);
    var lensec1 := (iofst - 128) / 8;
    SetLengths(cgrib, x, y, lensec1, 16 + lensec1);
    r := 16 + lensec1;
    ghost var s := Identification(listsec1);
    JoinOne(s);
    assert x + ToBits(0, 32) + ToBits(37, 32) == Section0(listsec0[0], 37) by { Section0Form(listsec0[0]); }
    assert ToBits(lensec1, 32) + y == s.Bits();
  }

  lemma Section0Form(discipline: int)
    ensures Section0(discipline, 37) ==
      BitsOf(GRIB) + ToBits(0, 16) + ToBits(discipline, 8) + ToBits(2, 8) + ToBits(0, 32) + ToBits(37, 32)
  {
  }

  lemma BehindNothing(cgrib: array<byte>, p: nat)
    requires p <= 8 * cgrib.Length
    ensures HoldsBehind(cgrib, p, [])
  {
  }

  lemma PrefixKept(before: seq<byte>, cgrib: array<byte>, gap: nat, x: bits)
    requires KeepsBefore(before, cgrib[..], gap) && Starts(before, x) && |x| <= gap
    ensures HoldsBehind(cgrib, 0, x)
  {
    KeepsStart(before, cgrib[..], gap, x);
  }

  method PutGrib(cgrib: array<byte>)
    requires 4 <= cgrib.Length
    modifies cgrib
    ensures HoldsBehind(cgrib, 0, BitsOf(GRIB))
  {
    cgrib[0] := 0x47;
    cgrib[1] := 0x52;
    cgrib[2] := 0x49;
    cgrib[3] := 0x42;
    assert cgrib[..] == GRIB + cgrib[4..];
    FirstOctets(GRIB, cgrib[4..]);
  }

  lemma FirstOctets(x: seq<byte>, y: seq<byte>)
    ensures At(BitsOf(x + y), 0, BitsOf(x))
  {
    hide BitsOf;
    BitsOfConcat(x, y);
  }

  /** The length of section 1, then the reserved half of the total length, then the total. */
  method SetLengths(cgrib: array<byte>, ghost x: bits, ghost y: bits, lensec1: nat, len: nat)
    requires HoldsBehind(cgrib, 0, x) && |x| == 64 && HoldsBehind(cgrib, 160, y)
    modifies cgrib
    ensures Starts(cgrib[..], x + ToBits(0, 32) + ToBits(len, 32) + (ToBits(lensec1, 32) + y))
  {
    hide BitsOf, ToBits;
    ghost var b0 := BitsOf(cgrib[..]);
    var one, zero, total := lensec1, 0, len;
    StoreField(cgrib, one, 128, 32);
    ghost var b1 := BitsOf(cgrib[..]);
    FillBehind(b0, 128, ToBits(one, 32), y);
    assert b1[..64] == b0[..64];
    StoreField(cgrib, zero, 64, 32);
    ghost var b2 := BitsOf(cgrib[..]);
    SpliceBehind(b1, 0, x, ToBits(zero, 32));
    assert b2[128..] == b1[128..];
    SameBehind(b1, b2, 128, ToBits(one, 32) + y);
    StoreField(cgrib, total, 96, 32);
    FillGap(b2, x + ToBits(zero, 32), ToBits(total, 32), ToBits(one, 32) + y);
  }

  lemma FillBehind(b: bits, p: nat, g: bits, y: bits)
    requires At(b, p + |g|, y)
    ensures At(Splice(b, p, g), p, g + y)
  {
    var c := Splice(b, p, g);
    assert c[p + |g|..p + |g| + |y|] == b[p + |g|..p + |g| + |y|];
    assert c[p..p + |g| + |y|] == c[p..p + |g|] + c[p + |g|..p + |g| + |y|];
  }

  lemma SameBehind(b: bits, c: bits, p: nat, y: bits)
    requires |b| == |c| && p <= |b| && c[p..] == b[p..] && At(b, p, y)
    ensures At(c, p, y)
  {
    assert c[p..p + |y|] == c[p..][..|y|] && b[p..p + |y|] == b[p..][..|y|];
  }
}
