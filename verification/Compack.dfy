/** The encoder of complex packing without missing values (g2/compack.c), from the scaled
    integers on. */
module Compack {
  import opened Binary
  import opened BitFields
  import opened Packing
  import opened Groups
  import opened PackGp
  import opened Encoder

  const NO_MARKS := Marks(0, 0, 0)

  /** The least and the greatest value of one group (lines 252-260). */
  method Extremes(ifld: array<int>, n: nat, len: nat) returns (imin: int, imax: int)
    requires n < ifld.Length && n + len <= ifld.Length
    ensures forall k :: n <= k < n + len ==> imin <= ifld[k] <= imax
    ensures exists k :: n <= k < Larger(n + len, n + 1) && ifld[k] == imin
    ensures exists k :: n <= k < Larger(n + len, n + 1) && ifld[k] == imax
  {
    imin, imax := ifld[n], ifld[n];
    for j := n + 1 to Larger(n + len, n + 1)
      invariant forall k :: n <= k < j ==> imin <= ifld[k] <= imax
      invariant exists k :: n <= k < j && ifld[k] == imin
      invariant exists k :: n <= k < j && ifld[k] == imax
    {
      if ifld[j] < imin { imin := ifld[j]; }
      if ifld[j] > imax { imax := ifld[j]; }
    }
  }

  /** The codes in the place of the values (lines 270-272). */
  method Lower(ifld: array<int>, n: nat, len: nat, ref: int)
    requires n + len <= ifld.Length
    modifies ifld
    ensures ifld[..n] == old(ifld[..n]) && ifld[n + len..] == old(ifld[n + len..])
    ensures forall k :: n <= k < n + len ==> ifld[k] == old(ifld[k]) - ref
  {
    for j := n to n + len
      invariant forall k :: n <= k < j ==> ifld[k] == old(ifld[k]) - ref
      invariant forall k :: 0 <= k < ifld.Length && !(n <= k < j) ==> ifld[k] == old(ifld[k])
    {
      ifld[j] := ifld[j] - ref;
    }
  }

  /** The reference and width of one group, and the codes in place of its values (lines 252-275). */
  method DescribeGroup(ifld: array<int>, n: nat, len: nat, ghost w: nat) returns (ref: int, width: nat)
    requires n < ifld.Length && n + len <= ifld.Length
    requires w <= 30 && forall k :: n <= k < ifld.Length ==> 0 <= ifld[k] < Pow2(w)
    modifies ifld
    ensures ifld[..n] == old(ifld[..n]) && ifld[n + len..] == old(ifld[n + len..])
    ensures 0 <= ref < Pow2(w) && width <= w
    ensures GroupReadyAll(0, ref, width, ifld[n..n + len], AsReals(old(ifld[n..n + len])))
    // the reference is the least value, and no narrower width would do
    ensures len > 0 ==> exists k :: n <= k < n + len && old(ifld[k]) == ref
    ensures len > 0 && width > 0 ==> exists k :: n <= k < n + len && old(ifld[k]) - ref >= Pow2(width - 1)
  {
    hide BitLen, GroupReadyAll, AsReals, Pow2;
    ghost var values := ifld[n..n + len];
    var imax;
    ref, imax := Extremes(ifld, n, len);
    assert forall k :: 0 <= k < len ==> values[k] == ifld[n + k];
    width := 0;
    if ref != imax {
      width := BitLen(imax - ref);
      BitsNeeded(imax - ref, w);
    }
    Lower(ifld, n, len, ref);
    ghost var codes := ifld[n..n + len];
    assert forall k :: 0 <= k < len ==> codes[k] == ifld[n + k];
    GroupOfReals(ref, width, imax, codes, values);
  }

  lemma GroupOfReals(ref: int, width: nat, imax: int, codes: seq<int>, values: seq<int>)
    requires |codes| == |values|
    requires forall k :: 0 <= k < |values| ==> ref <= values[k] <= imax && codes[k] == values[k] - ref
    requires 0 <= ref <= imax && imax - ref < Pow2(width) && (width == 0 ==> ref == imax)
    requires if values == [] then width == 0 else ref in values && imax in values
    requires width > 0 ==> imax - ref >= Pow2(width - 1)
    ensures GroupReadyAll(0, ref, width, codes, AsReals(values))
  {
    hide Pow2;
    var cells := AsReals(values);
    if values != [] {
      var i :| 0 <= i < |values| && values[i] == ref;
      var j :| 0 <= j < |values| && values[j] == imax;
      assert cells[i] == Real(ref) && cells[j] == Real(imax);
    }
    assert Lean(0, ref, width, cells);
  }

  /** References, widths and codes of all groups (lines 246-276). */
  method DescribeGroups(ifld: array<int>, glen: array<int>, ghost w: nat) returns (gref: array<int>, gwidth: array<int>)
    requires ifld != glen && glen.Length >= 1 && NonNegative(glen[..]) && TotalLength(glen[..]) == ifld.Length
    requires glen[glen.Length - 1] > 0
    requires w <= 30 && forall k :: 0 <= k < ifld.Length ==> 0 <= ifld[k] < Pow2(w)
    modifies ifld
    ensures fresh(gref) && fresh(gwidth) && gref != gwidth && gref.Length == gwidth.Length == glen.Length
    ensures forall k :: 0 <= k < gref.Length ==> 0 <= gref[k] < Pow2(w) && 0 <= gwidth[k] <= w
    ensures ReadyAll(0, gref[..], gwidth[..], glen[..], ifld[..], AsReals(old(ifld[..])))
  {
    hide TotalLength, AsReals, ReadyAll, GroupReadyAll, NonNegative, Pow2;
    ghost var values := ifld[..];
    gref, gwidth := new int[glen.Length], new int[glen.Length];
    var n: nat := 0;
    ReadyNone(0);
    StartOf(values, glen[..]);
    for ng := 0 to glen.Length
      invariant n == TotalLength(glen[..ng]) <= ifld.Length && ifld[n..] == values[n..]
      invariant forall k :: 0 <= k < ng ==> 0 <= gref[k] < Pow2(w) && 0 <= gwidth[k] <= w
      invariant ReadyAll(0, gref[..ng], gwidth[..ng], glen[..ng], ifld[..n], AsReals(values[..n]))
    {
      NextStart(glen[..], ng);
      var end := n + glen[ng];
      RestUntouched(ifld[..], values, n, end);
      ghost var codes, refs, widths := ifld[..n], gref[..ng], gwidth[..ng];
      gref[ng], gwidth[ng] := DescribeGroup(ifld, n, glen[ng], w);
      ReadyMore(0, refs, widths, glen[..ng], codes, AsReals(values[..n]), gref[ng], gwidth[ng], ifld[n..end],
        AsReals(values[n..end]));
      Joined(values, n, end);
      Snoc(gref, ng);
      Snoc(gwidth, ng);
      Snoc(glen, ng);
      assert ifld[..end] == codes + ifld[n..end];
      n := end;
    }
    WholeArray(gref);
    WholeArray(gwidth);
    WholeArray(glen);
    assert ifld[..] == ifld[..n] && values == values[..n];
  }

  /** Behind the groups that are described the values are what they were. */
  lemma RestUntouched(now: seq<int>, values: seq<int>, n: nat, end: nat)
    requires |now| == |values| && n <= end <= |now| && now[n..] == values[n..]
    ensures now[n..end] == values[n..end] && now[end..] == values[end..]
    ensures forall k :: n <= k < |now| ==> now[k] == values[k]
  {
    assert forall k :: n <= k < |now| ==> now[k] == now[n..][k - n];
  }

  lemma StartOf(values: seq<int>, lens: seq<int>)
    ensures TotalLength(lens[..0]) == 0 && AsReals(values[..0]) == []
  {
  }

  lemma Joined(values: seq<int>, n: nat, end: nat)
    requires n <= end <= |values|
    ensures AsReals(values[..end]) == AsReals(values[..n]) + AsReals(values[n..end])
  {
  }

  /** The order of differencing that is used; an order that is not known becomes 1. */
  function OrderOf(idrsnum: int, entry: int): nat {
    if idrsnum != 3 then 0 else if entry == 2 then 2 else 1
  }

  /** What the encoder demands: values below 2^30, of at most `w` bits, also after
      differencing, and more values than the order of differencing. */
  ghost predicate Packable(vals: seq<int>, order: nat, w: nat) {
    && 1 <= |vals| < 1073741824 && w <= 30 && (forall k :: 0 <= k < |vals| ==> 0 <= vals[k] < 1073741824)
    && if order == 1 || order == 2 then |vals| > order && SpreadBelow(order, vals, Pow2(w))
       else forall k :: 0 <= k < |vals| ==> vals[k] < Pow2(w)
  }

  /** Spatial differencing and its header, when the template asks for it (lines 126-210). */
  method MaybeDifference(ifld: array<int>, idrsnum: int, t: array<int>, cpack: array<byte>, ghost w: nat)
    returns (iofst: nat, nbitsd: nat, ghost h: DiffHead)
    requires t.Length >= TEMPLATE_SIZE && (idrsnum == 2 || idrsnum == 3) && t != ifld && 12 <= cpack.Length
    requires Packable(ifld[..], OrderOf(idrsnum, t[ORDER]), w)
    modifies ifld, t, cpack
    ensures h.Valid() && h.order == OrderOf(idrsnum, old(t[ORDER])) && h.nbitsd == nbitsd
    ensures Holds(cpack, h.Bits()) && iofst == |h.Bits()| <= 96
    ensures idrsnum == 3 ==> t[ORDER] == h.order
    ensures h.order != 0 ==> HeadOf(h, old(ifld[..]))
    ensures idrsnum == 3 ==> t[ORDER] == if old(t[ORDER]) == 1 || old(t[ORDER]) == 2 then old(t[ORDER]) else 1
    ensures Integrate(h.order, h.ival1, h.ival2, h.minsd, ifld[..]) == old(ifld[..])
    ensures Packable(ifld[..], 0, w)
  {
    hide Integrate, Holds, BitsOf, SpreadBelow, DiffHead.Bits, DiffHead.Valid, Pow2, HeadOf;
    Pow2Mono(w, 30);
    Pow2Of30();
    iofst, nbitsd, h := 0, 0, NO_DIFFERENCES;
    assert ifld[..] == ifld[..ifld.Length];
    if idrsnum == 3 {
      if t[ORDER] != 1 && t[ORDER] != 2 { t[ORDER] := 1; }
      iofst, nbitsd, h := PutDifferences(cpack, ifld, ifld.Length, t[ORDER], Pow2(w));
      assert ifld[..] == ifld[..ifld.Length];
    } else {
      HoldsNothing(cpack);
      NoDifferences(ifld[..]);
    }
  }

  /** Groups, references and data (lines 212-380). */
  method PackGroups(ifld: array<int>, iofst: nat, cpack: array<byte>, ghost head: bits, ghost w: nat)
    returns (nbitsgref: nat, ngroups: nat, layout: Layout, lcpack: nat, ghost pl: Plan)
    requires Packable(ifld[..], 0, w) && iofst == |head| <= 96 && Holds(cpack, head)
    requires Roomy(cpack.Length, ifld.Length, w)
    modifies ifld, cpack
    ensures pl.Valid() && pl.Means(0, AsReals(old(ifld[..]))) && |pl.refs| == ngroups && pl.linc == 1
    ensures pl.nbr == nbitsgref && layout == Layout(pl.wref, pl.nbw, pl.lref, pl.nbl, pl.lens[|pl.lens| - 1])
    ensures Holds(cpack, pl.Stream(head)) && |pl.Stream(head)| <= 8 * lcpack < |pl.Stream(head)| + 8
    ensures Chosen(old(ifld[..]), NO_MARKS, pl.lens) && Economical(0, pl, AsReals(old(ifld[..])))
  {
    hide Holds, ReadyAll, Pow2, AsReals, TotalLength, NonNegative, BitsOf, Narrow, Plan.Means, Plan.Stream, Chosen,
      Economical;
    ghost var xs := ifld[..];
    Narrow30(xs);
    var glen := ChooseGroups(ifld[..], NO_MARKS);
    var gref, gwidth := DescribeGroups(ifld, glen, w);
    Pow2Mono(w, 30);
    Pow2Of30();
        assert gref[0] >= 0;
    nbitsgref, layout, lcpack, pl := PutAll(cpack, ifld, gref, gwidth, glen, 0, iofst, head, AsReals(xs), w);
    ngroups := glen.Length;
  }

  /** compack.  `constant` says that the field has one value only; its scaled integers are 0
      then.  Decoding the octets and the template gives back every integer. */
  method Compack(vals: seq<int>, constant: bool, idrsnum: int, t: array<int>, cpack: array<byte>,
                 ghost w: nat)
    returns (lcpack: nat, ghost h: DiffHead, ghost pl: Plan, ghost xs: seq<int>)
    requires t.Length >= TEMPLATE_SIZE && (idrsnum == 2 || idrsnum == 3)
    requires if constant then forall k :: 0 <= k < |vals| ==> vals[k] == 0
      else Packable(vals, OrderOf(idrsnum, t[ORDER]), w) && Roomy(cpack.Length, |vals|, w)
    modifies t, cpack
    ensures constant ==> lcpack == 0 && t[NGROUPS] == 0
    // an order that is known is kept, and the octets start with the header of that order
    ensures !constant && idrsnum == 3 ==> t[16] == if old(t[16]) == 1 || old(t[16]) == 2 then old(t[16]) else 1
    ensures !constant && idrsnum == 3 ==> Header(BitsOf(cpack[..]), t[16], 8 * t[17], vals)
    // the groups are those of the values, differenced if the template asks for it
    ensures !constant ==> Written(BitsOf(cpack[..]), lcpack, h, pl, 0, AsReals(xs), xs, NO_MARKS)
    ensures !constant ==> Integrate(h.order, h.ival1, h.ival2, h.minsd, xs) == vals
    ensures !constant ==>
      t[NGROUPS] == |pl.refs| && (idrsnum == 3 ==> h.order == t[16]) && (idrsnum == 2 ==> h.order == 0)
    ensures Recovers(BitsOf(cpack[..]), ParamsOf(idrsnum, t[..]), AsReals(vals), lcpack)
  {
    hide Integrate, Recovers, AsReals, BitsOf, At, Packable, Plan.Means, Plan.Describes, Plan.Valid, Plan.Stream,
      DiffHead.Describes, DiffHead.Bits, DiffHead.Valid, HeadOf, Header, Chosen, Economical;
    h, pl, xs := NO_DIFFERENCES, Plan([], 0, [], 0, 0, [], 0, 0, 0, [], []), [];
    if constant {
      lcpack := 0;
      FillTemplate(t, idrsnum, 0, 0, Layout(0, 0, 0, 0, 0), 0);
      t[6], t[7], t[8] := 0, 0, 0;
      ConstantDecodes(BitsOf(cpack[..]), ParamsOf(idrsnum, t[..]), vals);
    } else {
      var ifld := new int[|vals|](i requires 0 <= i < |vals| => vals[i]);
      assert ifld[..] == vals;
      var iofst, nbitsd, nbitsgref, ngroups, layout;
      iofst, nbitsd, h := MaybeDifference(ifld, idrsnum, t, cpack, w);
      xs := ifld[..];
      nbitsgref, ngroups, layout, lcpack, pl := PackGroups(ifld, iofst, cpack, h.Bits(), w);
      FillTemplate(t, idrsnum, nbitsgref, ngroups, layout, nbitsd);
      t[6], t[7], t[8] := 0, 0, 0;
      TemplateDescribes(t[..], idrsnum, pl, h, layout);
      RealsDecode(BitsOf(cpack[..]), ParamsOf(idrsnum, t[..]), pl, h, xs, vals, lcpack);
      if idrsnum == 3 {
        StreamHeader(BitsOf(cpack[..]), pl, h, vals);
      }
    }
  }

  lemma Narrow30(xs: seq<int>)
    requires forall k :: 0 <= k < |xs| ==> 0 <= xs[k] < 1073741824
    ensures Narrow(xs, NO_MARKS)
  {
    Pow2Of30();
  }

  lemma RealsDecode(b: bits, p: Params, pl: Plan, h: DiffHead, xs: seq<int>, vals: seq<int>, lcpack: nat)
    requires h.Valid() && h.Describes(p) && pl.Valid() && pl.Describes(p) && pl.Means(0, AsReals(xs)) && p.missing == 0
    requires At(b, 0, pl.Stream(h.Bits())) && |pl.Stream(h.Bits())| <= 8 * lcpack
    requires |xs| == |vals| && Integrate(h.order, h.ival1, h.ival2, h.minsd, xs) == vals
    ensures Recovers(b, p, AsReals(vals), lcpack)
  {
    hide At, Integrate, Recovers, Reals, AsReals, Pow2, SameShape;
    SameReals(xs, vals);
    RealsOfAsReals(xs);
    RealsOfAsReals(vals);
    PlanDecodes(b, p, pl, h, AsReals(xs), AsReals(vals), lcpack);
  }

  lemma SameReals(xs: seq<int>, vals: seq<int>)
    requires |xs| == |vals|
    ensures SameShape(AsReals(xs), AsReals(vals))
  {
  }

  lemma ConstantDecodes(b: bits, p: Params, vals: seq<int>)
    requires p.Valid() && p.ngroups == 0 && forall k :: 0 <= k < |vals| ==> vals[k] == 0
    ensures Recovers(b, p, AsReals(vals), 0)
  {
    assert AsReals(vals) == seq(|vals|, i => Real(0));
  }
}
