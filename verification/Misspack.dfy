/** The encoder of complex packing with missing values (g2/misspack.c), from the scaled
    integers and the map of missing values on. */
module Misspack {
  import opened Binary
  import opened BitFields
  import opened Packing
  import opened Groups
  import opened PackGp
  import opened Encoder

  /** The map of missing values and the values that are there, moved together (lines 100-167). */
  method SplitMissing(samples: seq<Sample>) returns (ifldmiss: array<int>, jfld: array<int>, nonmiss: nat)
    ensures fresh(ifldmiss) && fresh(jfld) && ifldmiss != jfld && ifldmiss.Length == jfld.Length == |samples|
    ensures forall k :: 0 <= k < |samples| ==> ifldmiss[k] == MarkOf(samples[k])
    ensures nonmiss == |Reals(samples)| && jfld[..nonmiss] == Reals(samples)
    ensures forall k :: nonmiss <= k < |samples| ==> jfld[k] == 0
  {
    ifldmiss, jfld := new int[|samples|](_ => 0), new int[|samples|](_ => 0);
    nonmiss := 0;
    for j := 0 to |samples|
      invariant forall k :: 0 <= k < j ==> ifldmiss[k] == MarkOf(samples[k])
      invariant nonmiss == |Reals(samples[..j])| <= j && jfld[..nonmiss] == Reals(samples[..j])
      invariant forall k :: nonmiss <= k < |samples| ==> jfld[k] == 0
    {
      assert samples[..j + 1][..j] == samples[..j];
      ifldmiss[j] := MarkOf(samples[j]);
      if ifldmiss[j] == 0 {
        jfld[nonmiss] := samples[j].v;
        nonmiss := nonmiss + 1;
      }
    }
    assert samples[..|samples|] == samples;
  }

  /** The value that stands for a cell before grouping. */
  function FillIn(c: Sample, miss1: int, miss2: int): int {
    match c
    case Real(v) => v
    case Primary => miss1
    case Secondary => miss2
  }

  /** Puts values and marks back in their places; the marks lie below every value
      (lines 259-275). */
  method ExpandValues(samples: seq<Sample>, ifldmiss: array<int>, jfld: array<int>, nonmiss: nat)
    returns (ifld: array<int>, miss1: int, miss2: int)
    requires ifldmiss.Length == jfld.Length == |samples| && 1 <= nonmiss == |Reals(samples)|
    requires forall k :: 0 <= k < |samples| ==> ifldmiss[k] == MarkOf(samples[k])
    ensures fresh(ifld) && ifld.Length == |samples| && miss2 == miss1 - 1
    ensures forall k :: 0 <= k < nonmiss ==> miss1 < jfld[k]
    ensures exists k :: 0 <= k < nonmiss && jfld[k] == miss1 + 1
    ensures var cells := Expand(samples, jfld[..nonmiss]);
      forall k :: 0 <= k < |samples| ==> ifld[k] == FillIn(cells[k], miss1, miss2)
  {
    hide Reals;
    miss1 := jfld[0];
    for j := 0 to nonmiss
      invariant miss1 <= jfld[0] && forall k :: 0 <= k < j ==> miss1 <= jfld[k]
      invariant exists k :: 0 <= k < nonmiss && jfld[k] == miss1
    {
      if jfld[j] < miss1 { miss1 := jfld[j]; }
    }
    miss1 := miss1 - 1;
    miss2 := miss1 - 1;
    ifld := new int[|samples|](_ => 0);
    var n := 0;
    ghost var cells := Expand(samples, jfld[..nonmiss]);
    NoReals(samples);
    for j := 0 to |samples|
      invariant n == |Reals(samples[..j])|
      invariant forall k :: 0 <= k < j ==> ifld[k] == FillIn(cells[k], miss1, miss2)
    {
      ExpandAt(samples, jfld[..nonmiss], j);
      if ifldmiss[j] == 0 {
        ifld[j] := jfld[n];
        n := n + 1;
      } else if ifldmiss[j] == 1 {
        ifld[j] := miss1;
      } else if ifldmiss[j] == 2 {
        ifld[j] := miss2;
      }
    }
  }

  lemma NoReals(samples: seq<Sample>)
    ensures |Reals(samples[..0])| == 0
  {
  }

  lemma {:induction false} ExpandAt(cells: seq<Sample>, vals: seq<int>, j: nat)
    requires j < |cells| && |Reals(cells)| <= |vals|
    ensures |Reals(cells[..j + 1])| == |Reals(cells[..j])| + (if cells[j].Real? then 1 else 0) <= |vals|
    ensures Expand(cells, vals)[j] == if cells[j].Real? then Real(vals[|Reals(cells[..j])|]) else cells[j]
    decreases |cells|
  {
    var n := |cells| - 1;
    assert cells[..j + 1][..j] == cells[..j];
    RealsOfPrefix(cells, j + 1);
    if j < n {
      RealsOfPrefix(cells, n);
      ExpandAt(cells[..n], vals, j);
      assert cells[..n][..j] == cells[..j] && cells[..n][..j + 1] == cells[..j + 1];
    }
  }

  /** Expanding keeps the places of the values and uses the values in order. */
  lemma ExpandShape(cells: seq<Sample>, vals: seq<int>)
    requires |Reals(cells)| <= |vals|
    ensures SameShape(Expand(cells, vals), cells)
    ensures Reals(Expand(cells, vals)) == vals[..|Reals(cells)|]
  {
    hide Reals, Expand;
    forall j | 0 <= j < |cells|
      ensures Expand(cells, vals)[j].Real? == cells[j].Real? && (!cells[j].Real? ==> Expand(cells, vals)[j] == cells[j])
    {
      ExpandAt(cells, vals, j);
    }
    RealsOfExpand(cells, vals);
  }

  lemma {:induction false} RealsOfExpand(cells: seq<Sample>, vals: seq<int>)
    requires |Reals(cells)| <= |vals|
    ensures Reals(Expand(cells, vals)) == vals[..|Reals(cells)|]
    decreases |cells|
  {
    if |cells| > 0 {
      var n := |cells| - 1;
      RealsOfPrefix(cells, n);
      RealsOfExpand(cells[..n], vals);
      assert Expand(cells, vals)[..n] == Expand(cells[..n], vals);
    }
  }

  // ---- one group ----

  /** The code of a cell in a group. */
  function CodeOf(c: Sample, ref: int, width: nat): int {
    match c
    case Real(v) => v - ref
    case Primary => Pow2(width) - 1
    case Secondary => Pow2(width) - 2
  }

  /** The references and widths that the encoder gives to a group. */
  ghost predicate Described(missopt: nat, ref: int, width: nat, cells: seq<Sample>) {
    || (ref == -2 && width == 0 && forall k :: 0 <= k < |cells| ==> cells[k].Secondary?)
    || (ref == -1 && width == 0 && forall k :: 0 <= k < |cells| ==> cells[k].Primary?)
    || (ref >= 0 && width >= 1 &&
        forall k :: 0 <= k < |cells| && cells[k].Real? ==> 0 <= cells[k].v - ref < Pow2(width) - missopt)
  }

  /** No value takes a reserved code, so every code means its cell. */
  lemma GroupMeans(missopt: nat, ref: int, width: nat, codes: seq<int>, cells: seq<Sample>)
    requires 1 <= missopt <= 2 && Described(missopt, ref, width, cells) && Lean(missopt, ref, width, cells)
    requires missopt == 1 ==> forall k :: 0 <= k < |cells| ==> !cells[k].Secondary?
    requires |codes| == |cells| && forall k :: 0 <= k < |cells| ==> codes[k] == CodeOf(cells[k], ref, width)
    ensures GroupReadyAll(missopt, ref, width, codes, cells)
  {
    hide Pow2, Lean;
    if width > 0 {
      AtLeastTwo(width);
    }
  }

  method CountKinds(ifldmiss: array<int>, n: nat, len: nat, ghost cells: seq<Sample>)
    returns (num0: nat, num1: nat, num2: nat)
    requires n + len <= ifldmiss.Length && |cells| == len
    requires forall k :: 0 <= k < len ==> ifldmiss[n + k] == MarkOf(cells[k])
    ensures num0 == 0 <==> forall k :: 0 <= k < len ==> !cells[k].Real?
    ensures num1 == 0 <==> forall k :: 0 <= k < len ==> !cells[k].Primary?
    ensures num2 == 0 <==> forall k :: 0 <= k < len ==> !cells[k].Secondary?
  {
    num0, num1, num2 := 0, 0, 0;
    for j := 0 to len
      invariant num0 == 0 <==> forall k :: 0 <= k < j ==> !cells[k].Real?
      invariant num1 == 0 <==> forall k :: 0 <= k < j ==> !cells[k].Primary?
      invariant num2 == 0 <==> forall k :: 0 <= k < j ==> !cells[k].Secondary?
    {
      assert ifldmiss[n + j] == MarkOf(cells[j]);
      if ifldmiss[n + j] == 0 { num0 := num0 + 1; }
      if ifldmiss[n + j] == 1 { num1 := num1 + 1; }
      if ifldmiss[n + j] == 2 { num2 := num2 + 1; }
    }
  }

  /** Reference and width of a group with values (lines 336-358). */
  method DescribeValues(ifld: array<int>, ifldmiss: array<int>, n: nat, len: nat, missopt: nat,
                        ghost cells: seq<Sample>, ghost w: nat)
    returns (ref: int, width: nat)
    requires 2 <= w <= 30 && ifld.Length == ifldmiss.Length && n + len <= ifld.Length && |cells| == len
    requires 1 <= missopt <= 2
    requires forall k :: 0 <= k < len ==> ifldmiss[n + k] == MarkOf(cells[k])
    requires forall k :: 0 <= k < len && cells[k].Real? ==>
      ifld[n + k] == cells[k].v && 0 <= cells[k].v < Pow2(w) - missopt
    requires exists k :: 0 <= k < len && cells[k].Real?
    ensures 0 <= ref < Pow2(w) - missopt && width <= w && Described(missopt, ref, width, cells)
    // the reference is the least value, and no narrower width would do
    ensures exists k :: 0 <= k < len && cells[k] == Real(ref)
    ensures exists k :: 0 <= k < len && cells[k].Real? && cells[k].v + missopt - ref >= Pow2(width - 1)
  {
    hide Pow2, BitLen;
    Pow2AtLeastFour(w);
    ref := 2147483647;
    var imax := -2147483647;
    for lg := 0 to len
      invariant (ref == 2147483647 && imax == -2147483647) || 0 <= ref <= imax < Pow2(w) - missopt
      invariant forall k :: 0 <= k < lg && cells[k].Real? ==> ref <= cells[k].v <= imax
      invariant imax != -2147483647 ==>
        (exists k :: 0 <= k < lg && cells[k] == Real(ref)) && exists k :: 0 <= k < lg && cells[k] == Real(imax)
    {
      assert ifldmiss[n + lg] == MarkOf(cells[lg]);
      if ifldmiss[n + lg] == 0 {
        assert ifld[n + lg] == cells[lg].v;
        if ifld[n + lg] < ref { ref := ifld[n + lg]; }
        if ifld[n + lg] > imax { imax := ifld[n + lg]; }
      }
    }
    imax := imax + missopt;
    width := 0;
    if ref != imax {
      width := BitLen(imax - ref);
      BitsNeeded(imax - ref, w);
    }
  }

  /** Reference, width and codes of one group (lines 315-373). */
  method DescribeGroup(ifld: array<int>, ifldmiss: array<int>, n: nat, len: nat, missopt: nat, ghost cells: seq<Sample>,
                       ghost w: nat)
    returns (ref: int, width: nat)
    requires 2 <= w <= 30 && ifld != ifldmiss && ifld.Length == ifldmiss.Length && n + len <= ifld.Length
    requires |cells| == len
    requires 1 <= missopt <= 2
    requires forall k :: 0 <= k < len ==> ifldmiss[n + k] == MarkOf(cells[k])
    requires forall k :: 0 <= k < len && cells[k].Real? ==>
      ifld[n + k] == cells[k].v && 0 <= cells[k].v < Pow2(w) - missopt
    requires missopt == 1 ==> forall k :: 0 <= k < len ==> !cells[k].Secondary?
    modifies ifld
    ensures ifld[..n] == old(ifld[..n]) && ifld[n + len..] == old(ifld[n + len..])
    ensures -2 <= ref < Pow2(w) - missopt && width <= w
    ensures GroupReadyAll(missopt, ref, width, ifld[n..n + len], cells)
    ensures (exists k :: 0 <= k < len && cells[k].Real?) ==> ref >= 0
  {
    hide Pow2, GroupReadyAll;
    Pow2AtLeastFour(w);
    var num0, num1, num2 := CountKinds(ifldmiss, n, len, cells);
    if num0 == 0 {
      if num1 == 0 {
        ref, width := -2, 0;
      } else if num2 == 0 {
        ref, width := -1, 0;
      } else {
        ref, width := 0, 1;
      }
    } else {
      ref, width := DescribeValues(ifld, ifldmiss, n, len, missopt, cells, w);
    }
    assert Described(missopt, ref, width, cells) && Lean(missopt, ref, width, cells);
    WriteCodes(ifld, ifldmiss, n, len, ref, width, cells);
    GroupMeans(missopt, ref, width, ifld[n..n + len], cells);
  }

  /** Puts the codes of a group in the place of its values (lines 359-371). */
  method WriteCodes(ifld: array<int>, ifldmiss: array<int>, n: nat, len: nat, ref: int, width: nat,
                    ghost cells: seq<Sample>)
    requires ifld != ifldmiss && ifld.Length == ifldmiss.Length && n + len <= ifld.Length && |cells| == len
    requires forall k :: 0 <= k < len ==> ifldmiss[n + k] == MarkOf(cells[k])
    requires forall k :: 0 <= k < len && cells[k].Real? ==> ifld[n + k] == cells[k].v
    modifies ifld
    ensures ifld[..n] == old(ifld[..n]) && ifld[n + len..] == old(ifld[n + len..])
    ensures forall k :: 0 <= k < len ==> ifld[n..n + len][k] == CodeOf(cells[k], ref, width)
  {
    hide Pow2;
    var mtemp := Pow2(width);
    for lg := 0 to len
      invariant forall k :: 0 <= k < ifld.Length && !(n <= k < n + lg) ==> ifld[k] == old(ifld[k])
      invariant forall k :: n <= k < n + lg ==> ifld[k] == CodeOf(cells[k - n], ref, width)
    {
      var j := n + lg;
      if ifldmiss[j] == 0 {
        ifld[j] := ifld[j] - ref;
      } else if ifldmiss[j] == 1 {
        ifld[j] := mtemp - 1;
      } else if ifldmiss[j] == 2 {
        ifld[j] := mtemp - 2;
      }
    }
  }

  /** The field from which the groups are chosen: the values in their places, and in the others
      marks just below the least value. */
  ghost predicate FilledIn(samples: seq<Sample>, xs: seq<int>, miss1: int, miss2: int, ic: seq<int>)
    requires |xs| == |Reals(samples)|
  {
    && miss2 == miss1 - 1 && (forall k :: 0 <= k < |xs| ==> miss1 < xs[k])
    && (exists k :: 0 <= k < |xs| && xs[k] == miss1 + 1)
    && |ic| == |samples| && forall k :: 0 <= k < |samples| ==> ic[k] == FillIn(Expand(samples, xs)[k], miss1, miss2)
  }

  /** The cells that `ifld` and `ifldmiss` hold. */
  ghost predicate HoldsCells(ifld: seq<int>, ifldmiss: seq<int>, missopt: nat, cells: seq<Sample>, from: nat,
                             w: nat) {
    && |ifld| == |ifldmiss| == |cells|
    && (forall k :: from <= k < |cells| ==> ifldmiss[k] == MarkOf(cells[k]))
    && (forall k :: from <= k < |cells| && cells[k].Real? ==>
      ifld[k] == cells[k].v && 0 <= cells[k].v < Pow2(w) - missopt)
    && (missopt == 1 ==> forall k :: 0 <= k < |cells| ==> !cells[k].Secondary?)
  }

  /** References, widths and codes of all groups (lines 313-374). */
  method DescribeGroups(ifld: array<int>, ifldmiss: array<int>, glen: array<int>, missopt: nat,
                        ghost cells: seq<Sample>, ghost w: nat)
    returns (gref: array<int>, gwidth: array<int>)
    requires ifld != glen && ifld != ifldmiss && ifld.Length == ifldmiss.Length && 1 <= missopt <= 2 && 2 <= w <= 30
    requires glen.Length >= 1 && NonNegative(glen[..]) && TotalLength(glen[..]) == ifld.Length
    requires glen[glen.Length - 1] > 0
    requires HoldsCells(ifld[..], ifldmiss[..], missopt, cells, 0, w) && exists k :: 0 <= k < |cells| && cells[k].Real?
    modifies ifld
    ensures fresh(gref) && fresh(gwidth) && gref != gwidth && gref.Length == gwidth.Length == glen.Length
    ensures forall k :: 0 <= k < gref.Length ==> -2 <= gref[k] < Pow2(w) - missopt && 0 <= gwidth[k] <= w
    ensures exists k :: 0 <= k < gref.Length && gref[k] >= 0
    ensures ReadyAll(missopt, gref[..], gwidth[..], glen[..], ifld[..], cells)
  {
    hide TotalLength, ReadyAll, GroupReadyAll, HoldsCells, SomeRef, NonNegative, Pow2;
    gref, gwidth := new int[glen.Length], new int[glen.Length];
    var n: nat := 0;
    ReadyNone(missopt);
    CellsOfGroup(ifld[..], ifldmiss[..], missopt, cells, 0, 0, w);
    SomeRefNone();
    FirstStart(glen[..]);
    for ng := 0 to glen.Length
      invariant n == TotalLength(glen[..ng]) <= ifld.Length && HoldsCells(ifld[..], ifldmiss[..], missopt, cells, n, w)
      invariant forall k :: 0 <= k < ng ==> -2 <= gref[k] < Pow2(w) - missopt && 0 <= gwidth[k] <= w
      invariant SomeRef(gref[..ng], cells[..n])
      invariant ReadyAll(missopt, gref[..ng], gwidth[..ng], glen[..ng], ifld[..n], cells[..n])
    {
      NextStart(glen[..], ng);
      var end := n + glen[ng];
      CellsOfGroup(ifld[..], ifldmiss[..], missopt, cells, n, end, w);
      ghost var codes, refs, widths, before := ifld[..n], gref[..ng], gwidth[..ng], ifld[..];
      ghost var group := cells[n..end];
      gref[ng], gwidth[ng] := DescribeGroup(ifld, ifldmiss, n, glen[ng], missopt, group, w);
      ReadyMore(missopt, refs, widths, glen[..ng], codes, cells[..n], gref[ng], gwidth[ng], ifld[n..end], group);
      SomeRefMore(refs, cells[..n], gref[ng], group);
      Snoc(gref, ng);
      Snoc(gwidth, ng);
      Snoc(glen, ng);
      assert ifld[..end] == codes + ifld[n..end];
      assert cells[..end] == cells[..n] + group;
      RestHolds(before, ifld[..], ifldmiss[..], missopt, cells, n, end, w);
      n := end;
    }
    WholeArray(gref);
    WholeArray(gwidth);
    WholeArray(glen);
    assert ifld[..] == ifld[..n] && cells == cells[..n];
    SomeRefAll(gref[..], cells);
  }

  /** Once a value has been seen, so has a reference that is not a mark. */
  ghost predicate SomeRef(refs: seq<int>, cells: seq<Sample>) {
    (exists k :: 0 <= k < |cells| && cells[k].Real?) ==> exists j :: 0 <= j < |refs| && refs[j] >= 0
  }

  lemma SomeRefNone()
    ensures SomeRef([], [])
  {
  }

  lemma SomeRefMore(refs: seq<int>, cells: seq<Sample>, ref: int, group: seq<Sample>)
    requires SomeRef(refs, cells) && ((exists k :: 0 <= k < |group| && group[k].Real?) ==> ref >= 0)
    ensures SomeRef(refs + [ref], cells + group)
  {
    var all := refs + [ref];
    if (exists k :: 0 <= k < |group| && group[k].Real?) {
      assert all[|refs|] >= 0;
    } else if (exists k :: 0 <= k < |cells| && cells[k].Real?) {
      var j :| 0 <= j < |refs| && refs[j] >= 0;
      assert all[j] >= 0;
    }
  }

  lemma SomeRefAll(refs: seq<int>, cells: seq<Sample>)
    requires SomeRef(refs, cells) && exists k :: 0 <= k < |cells| && cells[k].Real?
    ensures exists j :: 0 <= j < |refs| && refs[j] >= 0
  {
  }

  lemma FirstStart(lens: seq<int>)
    ensures TotalLength(lens[..0]) == 0
  {
  }

  lemma CellsOfGroup(ifld: seq<int>, ifldmiss: seq<int>, missopt: nat, cells: seq<Sample>, n: nat, end: nat,
                     w: nat)
    requires HoldsCells(ifld, ifldmiss, missopt, cells, n, w) && n <= end <= |ifld|
    ensures end <= |cells| == |ifldmiss| == |ifld|
    ensures forall k :: 0 <= k < end - n ==> ifldmiss[n + k] == MarkOf(cells[n..end][k])
    ensures forall k :: 0 <= k < end - n && cells[n..end][k].Real? ==>
      ifld[n + k] == cells[n..end][k].v && 0 <= cells[n..end][k].v < Pow2(w) - missopt
    ensures missopt == 1 ==> forall k :: 0 <= k < end - n ==> !cells[n..end][k].Secondary?
  {
  }

  lemma RestHolds(before: seq<int>, ifld: seq<int>, ifldmiss: seq<int>, missopt: nat, cells: seq<Sample>, n: nat,
                  end: nat, w: nat)
    requires HoldsCells(before, ifldmiss, missopt, cells, n, w) && n <= end <= |ifld| == |before|
    requires ifld[end..] == before[end..]
    ensures HoldsCells(ifld, ifldmiss, missopt, cells, end, w)
  {
    forall k | end <= k < |ifld| ensures ifld[k] == before[k] {
      assert ifld[end..][k - end] == before[end..][k - end];
    }
  }

  // ---- the encoder ----

  /** The order of differencing that is used; an order that is not known becomes 2. */
  function OrderOf(idrsnum: int, entry: int): nat {
    if idrsnum != 3 then 0 else if entry == 1 then 1 else 2
  }

  /** What the encoder demands: a value that is not missing, values below 2^30, room for the
      reserved codes next to values of at most `w` bits, also after differencing, and more
      points than the order. */
  ghost predicate Packable(samples: seq<Sample>, missopt: nat, order: nat, w: nat) {
    && 1 <= |samples| < 1073741824 && |Reals(samples)| >= 1 && 2 <= w <= 30
    && (missopt == 1 ==> forall k :: 0 <= k < |samples| ==> !samples[k].Secondary?)
    && (forall k :: 0 <= k < |Reals(samples)| ==> 0 <= Reals(samples)[k] < 1073741824)
    && if order == 1 || order == 2 then
         |samples| > order && SpreadBelow(order, Reals(samples), Pow2(w) - missopt)
       else forall k :: 0 <= k < |Reals(samples)| ==> Reals(samples)[k] < Pow2(w) - missopt
  }

  /** Spatial differencing and its header, when the template asks for it (lines 170-255). */
  method MaybeDifference(jfld: array<int>, nonmiss: nat, missopt: nat, idrsnum: int, t: array<int>, cpack: array<byte>,
                         ghost samples: seq<Sample>, ghost w: nat)
    returns (iofst: nat, nbitsd: nat, ghost h: DiffHead)
    requires t.Length >= TEMPLATE_SIZE && (idrsnum == 2 || idrsnum == 3) && t != jfld && 12 <= cpack.Length
    requires 1 <= missopt <= 2
    requires Packable(samples, missopt, OrderOf(idrsnum, t[ORDER]), w)
    requires jfld.Length == |samples| && nonmiss == |Reals(samples)| && jfld[..nonmiss] == Reals(samples)
    requires forall k :: nonmiss <= k < |samples| ==> jfld[k] == 0
    modifies jfld, t, cpack
    ensures h.Valid() && h.order == OrderOf(idrsnum, old(t[ORDER])) && h.nbitsd == nbitsd
    ensures Holds(cpack, h.Bits()) && iofst == |h.Bits()| <= 96
    ensures (idrsnum == 3 ==> t[ORDER] == h.order) && t[MISSING] == old(t[MISSING])
    ensures h.order != 0 ==> HeadOf(h, Reals(samples))
    ensures idrsnum == 3 ==> t[ORDER] == if old(t[ORDER]) == 1 || old(t[ORDER]) == 2 then old(t[ORDER]) else 2
    ensures Integrate(h.order, h.ival1, h.ival2, h.minsd, jfld[..nonmiss]) == Reals(samples)
    ensures forall k :: 0 <= k < nonmiss ==> 0 <= jfld[k] < Pow2(w) - missopt
  {
    hide Integrate, Holds, BitsOf, SpreadBelow, DiffHead.Bits, DiffHead.Valid, Reals, Pow2, HeadOf;
    Pow2AtLeastFour(w);
    iofst, nbitsd, h := 0, 0, NO_DIFFERENCES;
    assert forall k :: 0 <= k < nonmiss ==> jfld[k] == Reals(samples)[k];
    if idrsnum == 3 {
      if t[ORDER] != 1 && t[ORDER] != 2 { t[ORDER] := 2; }
      iofst, nbitsd, h := PutDifferences(cpack, jfld, nonmiss, t[ORDER], Pow2(w) - missopt);
    } else {
      HoldsNothing(cpack);
      NoDifferences(jfld[..nonmiss]);
    }
  }

  lemma Pow2AtLeastFour(w: nat)
    requires 2 <= w <= 30
    ensures 4 <= Pow2(w) <= 1073741824
  {
    Pow2Mono(2, w);
    Pow2Mono(w, 30);
    Pow2Of30();
  }

  /** Groups, references and data (lines 276-497). */
  method PackGroups(ifld: array<int>, ifldmiss: array<int>, missopt: nat, miss1: int, miss2: int, iofst: nat,
                    cpack: array<byte>, ghost head: bits, ghost cells: seq<Sample>, ghost w: nat)
    returns (nbitsgref: nat, ngroups: nat, layout: Layout, lcpack: nat, ghost pl: Plan)
    requires ifld != ifldmiss && 1 <= ifld.Length == ifldmiss.Length < 1073741824 && 1 <= missopt <= 2
    requires HoldsCells(ifld[..], ifldmiss[..], missopt, cells, 0, w) && exists k :: 0 <= k < |cells| && cells[k].Real?
    requires Narrow(ifld[..], Marks(missopt, miss1, miss2))
    requires iofst == |head| <= 96 && Holds(cpack, head) && Roomy(cpack.Length, ifld.Length, w) && 2 <= w <= 30
    modifies ifld, cpack
    ensures pl.Valid() && pl.Means(missopt, cells) && |pl.refs| == ngroups && pl.linc == 1
    ensures pl.nbr == nbitsgref && layout == Layout(pl.wref, pl.nbw, pl.lref, pl.nbl, pl.lens[|pl.lens| - 1])
    ensures Holds(cpack, pl.Stream(head)) && |pl.Stream(head)| <= 8 * lcpack < |pl.Stream(head)| + 8
    ensures Chosen(old(ifld[..]), Marks(missopt, miss1, miss2), pl.lens) && Economical(missopt, pl, cells)
  {
    hide Holds, ReadyAll, Pow2, TotalLength, NonNegative, BitsOf, Narrow, HoldsCells, Plan.Means, Plan.Stream, Chosen,
      Economical;
    var glen := ChooseGroups(ifld[..], Marks(missopt, miss1, miss2));
    var gref, gwidth := DescribeGroups(ifld, ifldmiss, glen, missopt, cells, w);
    Pow2Mono(w, 30);
    Pow2Of30();
    nbitsgref, layout, lcpack, pl := PutAll(cpack, ifld, gref, gwidth, glen, missopt, iofst, head, cells, w);
    ngroups := glen.Length;
  }

  /** What the groups are chosen from. */
  lemma ExpandedValues(samples: seq<Sample>, missopt: nat, jfld: seq<int>, ifld: seq<int>, ifldmiss: seq<int>,
                       miss1: int, miss2: int, w: nat)
    requires 1 <= missopt <= 2 && w <= 30 && |jfld| == |Reals(samples)| >= 1 && |ifld| == |ifldmiss| == |samples|
    requires missopt == 1 ==> forall k :: 0 <= k < |samples| ==> !samples[k].Secondary?
    requires forall k :: 0 <= k < |jfld| ==> 0 <= jfld[k] < Pow2(w) - missopt && miss1 < jfld[k]
    requires miss2 == miss1 - 1 && forall k :: 0 <= k < |samples| ==> ifldmiss[k] == MarkOf(samples[k])
    requires forall k :: 0 <= k < |samples| ==> ifld[k] == FillIn(Expand(samples, jfld)[k], miss1, miss2)
    ensures var cells := Expand(samples, jfld);
      && HoldsCells(ifld, ifldmiss, missopt, cells, 0, w) && (exists k :: 0 <= k < |cells| && cells[k].Real?)
      && Narrow(ifld, Marks(missopt, miss1, miss2)) && SameShape(cells, samples) && Reals(cells) == jfld
  {
    hide Pow2, Expand, Reals;
    Pow2Mono(w, 30);
    Pow2Of30();
    var cells := Expand(samples, jfld);
    ExpandShape(samples, jfld);
    assert jfld[..|jfld|] == jfld;
    SomeReal(cells);
    forall k | 0 <= k < |cells| && cells[k].Real? ensures cells[k].v in jfld {
      RealsHold(cells, k);
    }
  }

  lemma IsFilledIn(samples: seq<Sample>, xs: seq<int>, miss1: int, miss2: int, ic: seq<int>)
    requires |xs| == |Reals(samples)| && miss2 == miss1 - 1 && forall k :: 0 <= k < |xs| ==> miss1 < xs[k]
    requires exists k :: 0 <= k < |xs| && xs[k] == miss1 + 1
    requires |ic| == |samples|
    requires forall k :: 0 <= k < |samples| ==> ic[k] == FillIn(Expand(samples, xs)[k], miss1, miss2)
    ensures FilledIn(samples, xs, miss1, miss2, ic)
  {
  }

  lemma {:induction false} RealsHold(cells: seq<Sample>, k: nat)
    requires k < |cells| && cells[k].Real?
    ensures cells[k].v in Reals(cells)
    decreases |cells|
  {
    if k < |cells| - 1 {
      RealsHold(cells[..|cells| - 1], k);
    }
  }

  lemma {:induction false} SomeReal(cells: seq<Sample>)
    requires |Reals(cells)| >= 1
    ensures exists k :: 0 <= k < |cells| && cells[k].Real?
    decreases |cells|
  {
    var n := |cells| - 1;
    if !cells[n].Real? {
      SomeReal(cells[..n]);
      var k :| 0 <= k < n && cells[..n][k].Real?;
      assert cells[k].Real?;
    }
  }

  /** misspack.  Decoding the octets and the template gives back every integer and every
      missing value mark; -1 when the template asks for no known missing value management. */
  method Misspack(samples: seq<Sample>, idrsnum: int, t: array<int>, cpack: array<byte>, ghost w: nat)
    returns (lcpack: int, ghost h: DiffHead, ghost pl: Plan, ghost xs: seq<int>, ghost ic: seq<int>, ghost m: Marks)
    requires t.Length >= TEMPLATE_SIZE && (idrsnum == 2 || idrsnum == 3)
    requires 1 <= t[MISSING] <= 2 ==>
      Packable(samples, t[MISSING], OrderOf(idrsnum, t[ORDER]), w) && Roomy(cpack.Length, |samples|, w)
    modifies t, cpack
    ensures lcpack == -1 <==> !(1 <= old(t[MISSING]) <= 2)
    ensures lcpack == -1 ==> t[..] == old(t[..]) && cpack[..] == old(cpack[..])
    ensures lcpack != -1 ==> t[MISSING] == old(t[MISSING])
    // an order that is known is kept, and the octets start with the header of that order
    ensures lcpack != -1 && idrsnum == 3 ==>
      t[16] == if old(t[16]) == 1 || old(t[16]) == 2 then old(t[16]) else 2
    ensures lcpack != -1 && idrsnum == 3 ==> Header(BitsOf(cpack[..]), t[16], 8 * t[17], Reals(samples))
    // the groups are those of the field with the values, differenced if the template asks for
    // it, and the marks in the places of missing ones
    ensures lcpack != -1 ==> |Reals(samples)| == |xs| && lcpack >= 0
    ensures lcpack != -1 ==> Written(BitsOf(cpack[..]), lcpack, h, pl, t[MISSING], Expand(samples, xs), ic, m)
    ensures lcpack != -1 ==> Integrate(h.order, h.ival1, h.ival2, h.minsd, xs) == Reals(samples)
    ensures lcpack != -1 ==> m.option == t[MISSING] && FilledIn(samples, xs, m.primary, m.secondary, ic)
    ensures lcpack != -1 ==>
      t[NGROUPS] == |pl.refs| && (idrsnum == 3 ==> h.order == t[16]) && (idrsnum == 2 ==> h.order == 0)
    ensures lcpack != -1 ==> Recovers(BitsOf(cpack[..]), ParamsOf(idrsnum, t[..]), samples, lcpack)
  {
    hide Integrate, Recovers, Reals, Expand, BitsOf, At, SpreadBelow, HoldsCells, Narrow, SameShape, Plan.Means,
      FilledIn, Plan.Describes, Plan.Valid, Plan.Stream,
      DiffHead.Describes, DiffHead.Bits, DiffHead.Valid, HeadOf, Header, Chosen, Economical;
    var missopt := t[MISSING];
    h, pl, xs, ic, m := NO_DIFFERENCES, Plan([], 0, [], 0, 0, [], 0, 0, 0, [], []), [], [], Marks(0, 0, 0);
    if missopt != 1 && missopt != 2 { return -1, h, pl, xs, ic, m; }
    var ifldmiss, jfld, nonmiss := SplitMissing(samples);
    var iofst, nbitsd, nbitsgref, ngroups, layout;
    ghost var cells;
    iofst, nbitsd, h := MaybeDifference(jfld, nonmiss, missopt, idrsnum, t, cpack, samples, w);
    var ifld, miss1, miss2 := ExpandValues(samples, ifldmiss, jfld, nonmiss);
    xs, ic, m := jfld[..nonmiss], ifld[..], Marks(missopt, miss1, miss2);
    cells := Expand(samples, xs);
    IsFilledIn(samples, xs, miss1, miss2, ic);
    ExpandedValues(samples, missopt, jfld[..nonmiss], ifld[..], ifldmiss[..], miss1, miss2, w);
    nbitsgref, ngroups, layout, lcpack, pl := PackGroups(ifld, ifldmiss, missopt, miss1, miss2, iofst, cpack, h.Bits(),
      cells, w);
    FillTemplate(t, idrsnum, nbitsgref, ngroups, layout, nbitsd);
    TemplateDescribes(t[..], idrsnum, pl, h, layout);
    PlanDecodes(BitsOf(cpack[..]), ParamsOf(idrsnum, t[..]), pl, h, cells, samples, lcpack);
    if idrsnum == 3 {
      StreamHeader(BitsOf(cpack[..]), pl, h, Reals(samples));
    }
  }
}
