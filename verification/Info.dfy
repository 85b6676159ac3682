/** The scan that validates a message and counts its fields (g2_info.c). */
module Info {
  import opened Binary
  import opened BitFields
  import opened Packing
  import opened Templates
  import opened Message
  import opened Builder

  // ---- g2_info ----

  /** A finished message stands at octet `at`. */
  ghost predicate HoldsAt(s: seq<byte>, at: nat, m: Grib) {
    && m.Valid() && at + m.Length() + 4 <= |s|
    && At(BitsOf(s), 8 * at, Section0(m.discipline, m.Length() + 4) + Join(m.secs) + ToBits(SEVENS, 32))
  }

  lemma FinishedHoldsAt(s: seq<byte>, m: Grib)
    requires Holds(s, m, true)
    ensures HoldsAt(s, 0, m)
  {
    hide ToBits, BitsOf, Section0;
    JoinSize(m.secs);
  }

  predicate GribAt(s: seq<byte>, j: int) {
    0 <= j && j + 4 <= |s| && s[j..j + 4] == GRIB
  }

  lemma ShiftAt(b: bits, p: nat, q: nat, x: bits)
    requires p <= |b| && At(b[p..], q, x)
    ensures At(b, p + q, x)
  {
    assert b[p..][q..q + |x|] == b[p + q..p + q + |x|];
  }

  lemma MessagePartsAt(s: seq<byte>, at: nat, m: Grib)
    requires HoldsAt(s, at, m)
    ensures var b, p := BitsOf(s), 8 * at;
      && At(b, p + 128, Join(m.secs)) && At(b, p + 48, ToBits(m.discipline, 8)) && At(b, p + 56, ToBits(2, 8))
      && At(b, p + 96, ToBits(m.Length() + 4, 32)) && At(b, p + 8 * m.Length(), ToBits(SEVENS, 32))
      && |Join(m.secs)| == 8 * Total(m.secs)
  {
    hide ToBits, BitsOf, Section0, Join, Total;
    var b, p := BitsOf(s), 8 * at;
    var all := Section0(m.discipline, m.Length() + 4) + Join(m.secs) + ToBits(SEVENS, 32);
    assert b[p..][..|all|] == b[p..p + |all|];
    MessageParts(b[p..], m, true);
    ShiftAt(b, p, 128, Join(m.secs));
    ShiftAt(b, p, 48, ToBits(m.discipline, 8));
    ShiftAt(b, p, 56, ToBits(2, 8));
    ShiftAt(b, p, 96, ToBits(m.Length() + 4, 32));
    ShiftAt(b, p, 8 * m.Length(), ToBits(SEVENS, 32));
  }

  /** The message stands at the first "GRIB" of the first 100 octets, when there is one. */
  ghost predicate FirstMessage(s: seq<byte>, at: nat, m: Grib) {
    forall j :: 0 <= j < 100 && GribAt(s, j) && (forall i :: 0 <= i < j ==> !GribAt(s, i)) ==>
      j == at && HoldsAt(s, at, m)
  }

  ghost predicate NoGrib(s: seq<byte>) {
    forall j :: 0 <= j < 100 ==> !GribAt(s, j)
  }

  /** The search for "GRIB" in the first 100 octets. */
  method FindGrib(cgrib: array<byte>) returns (istart: int)
    ensures istart == -1 <==> NoGrib(cgrib[..])
    ensures istart != -1 ==> 0 <= istart < 100 && GribAt(cgrib[..], istart)
    ensures forall j :: 0 <= j < istart ==> !GribAt(cgrib[..], j)
  {
    for j := 0 to 100
      invariant forall i :: 0 <= i < j ==> !GribAt(cgrib[..], i)
    {
      if j + 3 < cgrib.Length {
        GribOctets(cgrib[..], j);
        if cgrib[j] == 0x47 && cgrib[j + 1] == 0x52 && cgrib[j + 2] == 0x49 && cgrib[j + 3] == 0x42 {
          return j;
        }
      }
    }
    istart := -1;
  }

  lemma GribOctets(s: seq<byte>, j: nat)
    requires j + 4 <= |s|
    ensures GribAt(s, j) <==> s[j] == 0x47 && s[j + 1] == 0x52 && s[j + 2] == 0x49 && s[j + 3] == 0x42
  {
    var x := s[j..j + 4];
    assert x[0] == s[j] && x[1] == s[j + 1] && x[2] == s[j + 2] && x[3] == s[j + 3];
  }

  lemma BitsOfSlice(s: seq<byte>, i: nat, n: nat)
    requires i + n <= |s|
    ensures Cut(BitsOf(s), 8 * i, 8 * n) == BitsOf(s[i..i + n])
  {
    hide BitsOf;
    assert s == s[..i] + s[i..i + n] + s[i + n..];
    BitsOfThree(s[..i], s[i..i + n], s[i + n..]);
    ThreeParts(BitsOf(s), BitsOf(s[..i]), BitsOf(s[i..i + n]), BitsOf(s[i + n..]));
  }

  /** A length below 0x37373737 does not look like "7777". */
  lemma LengthIsNotSevens(s: seq<byte>, i: nat, v: nat)
    requires At(BitsOf(s), 8 * i, ToBits(v, 32)) && v < SEVENS
    ensures i + 4 <= |s| && !EndsWithSevens(s, i + 4)
  {
    hide ToBits, BitsOf, Val, Low, At, Cut;
    AtFits(BitsOf(s), 8 * i, ToBits(v, 32));
    AtCut(BitsOf(s), 8 * i, ToBits(v, 32));
    BitsOfSlice(s, i, 4);
    SevensBits();
    ValOfToBits(v, 32);
    ValOfToBits(SEVENS, 32);
    Word32(v);
    Word32(SEVENS);
  }

  lemma AtMessage(s: seq<byte>, at: nat, m: Grib)
    requires HoldsAt(s, at, m)
    ensures m.Valid() && at + m.Length() + 4 <= |s|
  {
  }

  lemma SectionsValid(m: Grib)
    requires m.Valid()
    ensures forall i :: 0 <= i < |m.secs| ==> m.secs[i].Valid()
  {
  }

  /** Where section `k` stands. */
  lemma SectionWhere(s: seq<byte>, at: nat, m: Grib, k: nat)
    requires HoldsAt(s, at, m) && k < |m.secs|
    ensures At(BitsOf(s), 8 * (at + 16 + Total(m.secs[..k])), m.secs[k].Bits())
    ensures Total(m.secs[..k]) + m.secs[k].Len() == Total(m.secs[..k + 1]) <= Total(m.secs)
    ensures m.secs[k].Valid() && m.secs[k].Len() < SEVENS
  {
    hide BitsOf, ToBits, At, Join, Section.Bits, Total, Section0, Section.Valid, Section.Len, Grammatical, HoldsAt;
    AtMessage(s, at, m);
    MessagePartsAt(s, at, m);
    SectionsValid(m);
    SectionAt(BitsOf(s), 8 * at + 128, m.secs, k);
    SectionLength(m, k);
    assert 8 * at + 128 + 8 * Total(m.secs[..k]) == 8 * (at + 16 + Total(m.secs[..k]));
  }

  /** What the scan reads of section `k`, which does not look like "7777". */
  lemma SectionSeen(s: seq<byte>, ipos: nat, x: Section)
    requires At(BitsOf(s), 8 * ipos, x.Bits()) && x.Valid() && x.Len() < SEVENS
    ensures ipos + 5 <= |s| && !EndsWithSevens(s, ipos + 4)
    ensures Val(Cut(BitsOf(s), 8 * ipos, 32)) == x.Len() && Val(Cut(BitsOf(s), 8 * ipos + 32, 8)) == x.num
  {
    hide BitsOf, ToBits, At, Section.Bits, Val, Cut, Section.Len, IsBitmap, EndsWithSevens;
    SectionNumbers(BitsOf(s), 8 * ipos, x);
    SectionParts(BitsOf(s), 8 * ipos, x);
    LengthIsNotSevens(s, ipos, x.Len());
  }

  /** What the scan reads at the end. */
  lemma EndSeen(s: seq<byte>, at: nat, m: Grib)
    requires HoldsAt(s, at, m)
    ensures at + m.Length() + 4 <= |s| && EndsWithSevens(s, at + m.Length() + 4)
  {
    hide BitsOf, ToBits, At, Join, Total, Section0;
    MessagePartsAt(s, at, m);
    SevensBits();
    OctetsAt(s, at + m.Length(), [0x37, 0x37, 0x37, 0x37]);
  }

  lemma LaterSections(secs: seq<Section>, k: nat)
    requires Grammatical(secs) && 0 < k < |secs|
    ensures 2 <= secs[k].num <= 7
  {
    assert Follows(secs[k - 1].num, secs[k].num);
  }

  /** The loop over the sections behind section 1 (g2_info.c, lines 158-196). */
  method CountSections(cgrib: array<byte>, at: nat, lengrib: int, lensec1: nat, ghost m: Grib)
    returns (ierr: int, numfields: nat, numlocal: nat)
    requires HoldsAt(cgrib[..], at, m) && lengrib == m.Length() + 4 && lensec1 == m.secs[0].Len()
    ensures ierr == 0 && numfields == Count(m.secs, 4) && numlocal == Count(m.secs, 2)
  {
    hide BitsOf, ToBits, At, Join, Section.Bits, Val, Total, Section0, Cut, Low, IsBitmap, Section.Valid, Grammatical,
      Section.Len, HoldsAt, EndsWithSevens;
    AtMessage(cgrib[..], at, m);
    ghost var secs := m.secs;
    numfields, numlocal, ierr := 0, 0, 0;
    var ipos := at + 16 + lensec1;
    ghost var k: nat := 1;
    FirstSection(secs);
    assert secs[..|secs|] == secs;
    while true
      invariant 1 <= k <= |secs| && ipos == at + 16 + Total(secs[..k])
      invariant numfields == Count(secs[..k], 4) && numlocal == Count(secs[..k], 2)
      decreases |secs| - k
    {
      NotYetAll(secs, k);
      if k < |secs| {
        LaterSections(secs, k);
        SectionWhere(cgrib[..], at, m, k);
        SectionSeen(cgrib[..], ipos, secs[k]);
        CountNext(secs, k);
      } else {
        EndSeen(cgrib[..], at, m);
      }
      var end := IsSevens(cgrib, ipos);
      if end {
        ipos := ipos + 4;
        if ipos != at + lengrib { ierr := 4; }
        return;
      }
      var lensec := LoadField(cgrib, 8 * ipos, 32);
      var isecnum := LoadField(cgrib, 8 * ipos + 32, 8);
      ipos := ipos + lensec;
      if ipos > at + lengrib { ierr := 5; return; }
      if 2 <= isecnum <= 7 {
        if isecnum == 2 {
          numlocal := numlocal + 1;
        } else if isecnum == 4 {
          numfields := numfields + 1;
        }
      } else {
        ierr := 6;
        return;
      }
      k := k + 1;
    }
  }

  lemma FirstSection(secs: seq<Section>)
    requires |secs| > 0 && Grammatical(secs)
    ensures secs[0].num == 1 && Total(secs[..1]) == secs[0].Len()
    ensures Count(secs[..1], 4) == 0 && Count(secs[..1], 2) == 0
  {
    assert secs[..1][..0] == [];
  }

  lemma SectionLength(m: Grib, k: nat)
    requires m.Valid() && k < |m.secs|
    ensures m.secs[k].Len() < SEVENS && m.secs[k].Valid()
  {
    JoinAround(m.secs, k);
  }

  /** Section 0 (g2_info.c, lines 100-129). */
  method ReadIndicator(cgrib: array<byte>, at: nat, ghost m: Grib) returns (discipline: int, edition: int, lengrib: int)
    requires HoldsAt(cgrib[..], at, m)
    ensures discipline == Low(m.discipline, 8) && edition == 2 && lengrib == m.Length() + 4
  {
    hide BitsOf, ToBits, At, Join, Val, Total, Section0, Cut, Low;
    ghost var b := BitsOf(cgrib[..]);
    MessagePartsAt(cgrib[..], at, m);
    NumberAt(b, 8 * at + 48, m.discipline, 8);
    NumberAt(b, 8 * at + 56, 2, 8);
    NumberAt(b, 8 * at + 96, m.Length() + 4, 32);
    Byte8(2);
    Word32(m.Length() + 4);
    discipline := LoadField(cgrib, 8 * (at + 6), 8);
    edition := LoadField(cgrib, 8 * (at + 6) + 8, 8);
    lengrib := LoadField(cgrib, 8 * (at + 6) + 48, 32);
  }

  /** Section 1 (g2_info.c, lines 133-152). */
  method ReadIdentification(cgrib: array<byte>, at: nat, ghost m: Grib, ghost list: seq<int>)
    returns (lensec1: int, isecnum: int, listsec1: seq<int>)
    requires HoldsAt(cgrib[..], at, m) && |list| == 13 && m.secs[0] == Identification(list)
    ensures lensec1 == m.secs[0].Len() && isecnum == 1 && (listsec1 == list <==> AllFit(list, MAPSEC1))
  {
    hide BitsOf, ToBits, At, Join, Section.Bits, Val, Total, Section0, Cut, Low, Section.Valid, Grammatical,
      Section.Len, MapBits, EntriesAt, EntriesBits, AllFit;
    ghost var b, s := BitsOf(cgrib[..]), m.secs[0];
    MessagePartsAt(cgrib[..], at, m);
    FirstSection(m.secs);
    NoTotal(m.secs);
    SectionAt(b, 8 * at + 128, m.secs, 0);
    SectionLength(m, 0);
    SectionNumbers(b, 8 * at + 128, s);
    SectionParts(b, 8 * at + 128, s);
    IdentificationSize(list);
    EntriesRead(b, 8 * at + 168, list, MAPSEC1);
    lensec1 := LoadField(cgrib, 8 * at + 128, 32);
    isecnum := LoadField(cgrib, 8 * at + 160, 8);
    var iofst;
    listsec1, iofst := GetEntries(cgrib, MAPSEC1, 8 * at + 168);
  }

  /** g2_info on a finished message that starts at the first "GRIB" of the first 100 octets:
      it returns 0 with the numbers of fields and local sections and the values of section 1
      that were put in. */
  method Info(cgrib: array<byte>, sz: int, ghost at: nat, ghost m: Grib, ghost list: seq<int>)
    returns (ierr: int, discipline: int, edition: int, lengrib: int, listsec1: seq<int>, numfields: nat, numlocal: nat)
    requires FirstMessage(cgrib[..], at, m) && m.Valid() && |list| == 13 && m.secs[0] == Identification(list)
    ensures ierr == 1 <==> NoGrib(cgrib[..])
    ensures ierr == 7 ==> at + m.Length() + 4 > sz + 1
    ensures ierr == 0 || ierr == 1 || ierr == 7
    ensures ierr == 0 ==> at + m.Length() + 4 <= sz + 1 && lengrib == m.Length() + 4
    ensures ierr == 0 ==> discipline == Low(m.discipline, 8) && edition == 2
    ensures ierr == 0 ==> numfields == Count(m.secs, 4) && numlocal == Count(m.secs, 2)
    ensures ierr == 0 ==> (listsec1 == list <==> AllFit(list, MAPSEC1))
  {
    hide Low, AllFit, HoldsAt, GribAt, NoGrib, Count, Identification, Section.Len;
    ierr, discipline, edition, lengrib, listsec1, numfields, numlocal := 0, 0, 0, 0, [], 0, 0;
    var istart := FindGrib(cgrib);
    if istart == -1 { ierr := 1; return; }
    assert istart == at;
    discipline, edition, lengrib := ReadIndicator(cgrib, istart, m);
    if istart + lengrib > sz + 1 { ierr := 7; return; }
    if edition != 2 { ierr := 2; return; }
    var lensec1, isecnum;
    lensec1, isecnum, listsec1 := ReadIdentification(cgrib, istart, m, list);
    if isecnum != 1 { ierr := 3; return; }
    ierr, numfields, numlocal := CountSections(cgrib, istart, lengrib, lensec1, m);
  }

  lemma NoTotal(secs: seq<Section>)
    ensures Total(secs[..0]) == 0
  {
  }
}
