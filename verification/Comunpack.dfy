/** The decoder of complex packing (g2/comunpack.c), proved to compute `Packing.Decode`.
    The values stay scaled integers: the conversion to floating point is not modelled. */
module Comunpack {
  import opened Binary
  import opened BitFields
  import opened Packing

  /** One number for every group, and the next octet boundary (lines 140-149, 154-163, 174-183). */
  method ReadSection(cpack: array<byte>, dest: array<int>, iofst: nat, nb: nat) returns (next: nat)
    requires iofst + SectionSize(nb, dest.Length) <= 8 * cpack.Length
    modifies dest
    ensures dest[..] == SectionValues(BitsOf(cpack[..]), iofst, nb, dest.Length)
    ensures next == iofst + SectionSize(nb, dest.Length)
  {
    hide BitsOf, LoadAll, Within;
    next := iofst;
    if nb != 0 {
      WithinProduct(iofst, nb, dest.Length, 8 * cpack.Length);
      Gbits(cpack, dest, 0, iofst, nb, 0, dest.Length);
      var itemp := nb * dest.Length;
      next := next + itemp;
      if itemp % 8 != 0 {
        next := next + (8 - itemp % 8);
      }
    } else {
      for j := 0 to dest.Length
        invariant forall i :: 0 <= i < j ==> dest[i] == 0
      {
        dest[j] := 0;
      }
    }
  }

  /** Applies `factor` and `ref` to every entry. */
  method Rescale(a: array<int>, factor: nat, ref: nat)
    modifies a
    ensures a[..] == AddTo(old(a[..]), factor, ref)
  {
    for j := 0 to a.Length
      invariant forall i :: 0 <= i < a.Length ==> a[i] == if i < j then old(a[i]) * factor + ref else old(a[i])
    {
      a[j] := a[j] * factor + ref;
    }
  }

  method Totals(gwidth: array<int>, glen: array<int>) returns (totBit: int, totLen: int)
    requires gwidth.Length == glen.Length
    ensures totBit == TotalBits(gwidth[..], glen[..]) && totLen == TotalLength(glen[..])
  {
    totBit, totLen := 0, 0;
    for j := 0 to glen.Length
      invariant totBit == TotalBits(gwidth[..j], glen[..j]) && totLen == TotalLength(glen[..j])
    {
      assert glen[..j + 1][..j] == glen[..j] && gwidth[..j + 1][..j] == gwidth[..j];
      totBit := totBit + gwidth[j] * glen[j];
      totLen := totLen + glen[j];
    }
    assert glen[..glen.Length] == glen[..] && gwidth[..gwidth.Length] == gwidth[..];
  }

  // ---- the data of one group ----

  /** After the cells of some groups: their marks are in `miss`, and their values, moved
      together, are the first `non` entries of `ifld`. */
  ghost predicate Kept(ifld: seq<int>, miss: seq<int>, cells: seq<Sample>, non: nat) {
    && |cells| <= |ifld| == |miss|
    && non == |Reals(cells)| && ifld[..non] == Reals(cells)
    && forall k :: 0 <= k < |cells| ==> miss[k] == MarkOf(cells[k])
  }

  lemma KeptOne(ifld: seq<int>, miss: seq<int>, cells: seq<Sample>, non: nat, c: Sample)
    requires Kept(ifld, miss, cells, non) && |cells| < |ifld|
    ensures var n := |cells|;
      var ifld' := if c.Real? then ifld[non := c.v] else ifld;
      Kept(ifld', miss[n := MarkOf(c)], cells + [c], if c.Real? then non + 1 else non)
  {
    var n := |cells|;
    assert (cells + [c])[..n] == cells;
    assert Reals(cells + [c]) == Reals(cells) + (if c.Real? then [c.v] else []);
  }

  /** Sorts out the codes of a group (lines 237-251): values move down to the first free
      place, which never lies beyond the place being read. */
  method TakeCodes(ifld: array<int>, ifldmiss: array<int>, n0: nat, non0: nat, missing: nat, nbr: nat, ref: int,
                   width: nat,
                   len: nat, ghost codes: seq<int>, ghost done: seq<Sample>)
    returns (non: nat)
    requires ifld != ifldmiss && ifld.Length == ifldmiss.Length && n0 + len <= ifld.Length
    requires 1 <= missing <= 2 && width != 0 && ifld[n0..n0 + len] == codes
    requires |done| == n0 && Kept(ifld[..], ifldmiss[..], done, non0)
    modifies ifld, ifldmiss
    ensures Kept(ifld[..], ifldmiss[..], done + GroupCells(missing, nbr, ref, width, codes), non)
  {
    hide Pow2, Kept, Reals;
    ghost var cells := GroupCells(missing, nbr, ref, width, codes);
    non := non0;
    var msng1 := Pow2(width) - 1;
    var msng2 := msng1 - 1;
    var n := n0;
    assert done + cells[..0] == done;
    assert forall i :: n0 <= i < n0 + len ==> ifld[i] == ifld[n0..n0 + len][i - n0];
    for k := 0 to len
      invariant n == n0 + k && Kept(ifld[..], ifldmiss[..], done + cells[..k], non)
      invariant forall i :: n <= i < n0 + len ==> ifld[i] == codes[i - n0]
    {
      KeptBound(ifld[..], ifldmiss[..], done + cells[..k], non);
      KeptOne(ifld[..], ifldmiss[..], done + cells[..k], non, cells[k]);
      assert done + cells[..k] + [cells[k]] == done + cells[..k + 1];
      if ifld[n] == msng1 {
        ifldmiss[n] := 1;
      } else if missing == 2 && ifld[n] == msng2 {
        ifldmiss[n] := 2;
      } else {
        ifldmiss[n] := 0;
        ifld[non] := ifld[n] + ref;
        non := non + 1;
      }
      n := n + 1;
    }
    assert done + cells[..len] == done + cells;
  }

  /** A group of width 0 (lines 253-268): all its values are the reference, or all are missing. */
  method TakeConstant(ifld: array<int>, ifldmiss: array<int>, n0: nat, non0: nat, missing: nat, nbr: nat, ref: int,
                      len: nat, ghost codes: seq<int>, ghost done: seq<Sample>)
    returns (non: nat)
    requires ifld != ifldmiss && ifld.Length == ifldmiss.Length && n0 + len <= ifld.Length
    requires 1 <= missing <= 2 && |codes| == len
    requires |done| == n0 && Kept(ifld[..], ifldmiss[..], done, non0)
    modifies ifld, ifldmiss
    ensures Kept(ifld[..], ifldmiss[..], done + GroupCells(missing, nbr, ref, 0, codes), non)
  {
    hide Pow2, Kept, Reals;
    ghost var cells := GroupCells(missing, nbr, ref, 0, codes);
    non := non0;
    var msng1 := Pow2(nbr) - 1;
    var msng2 := msng1 - 1;
    var n := n0;
    var mark := if ref == msng1 then 1 else if missing == 2 && ref == msng2 then 2 else 0;
    assert done + cells[..0] == done;
    for k := 0 to len
      invariant n == n0 + k && Kept(ifld[..], ifldmiss[..], done + cells[..k], non)
    {
      KeptBound(ifld[..], ifldmiss[..], done + cells[..k], non);
      KeptOne(ifld[..], ifldmiss[..], done + cells[..k], non, cells[k]);
      assert done + cells[..k] + [cells[k]] == done + cells[..k + 1];
      ifldmiss[n] := mark;
      if mark == 0 {
        ifld[non] := ref;
        non := non + 1;
      }
      n := n + 1;
    }
    assert done + cells[..len] == done + cells;
  }

  /** A group with missing values (lines 232-268). */
  method GroupWithMissing(cpack: array<byte>, ifld: array<int>, ifldmiss: array<int>, n0: nat, non0: nat, iofst: nat,
                          missing: nat, nbr: nat, ref: int, width: nat, len: nat, ghost done: seq<Sample>)
    returns (non: nat)
    requires ifld != ifldmiss && ifld.Length == ifldmiss.Length && n0 + len <= ifld.Length
    requires iofst + width * len <= 8 * cpack.Length && 1 <= missing <= 2
    requires |done| == n0 && Kept(ifld[..], ifldmiss[..], done, non0)
    modifies ifld, ifldmiss
    ensures Kept(ifld[..], ifldmiss[..],
      done + GroupCells(missing, nbr, ref, width, CodesAt(BitsOf(cpack[..]), iofst, width, len)), non)
  {
    hide Pow2, Kept, Reals, GroupCells, LoadAll, BitsOf;
    ghost var codes := CodesAt(BitsOf(cpack[..]), iofst, width, len);
    if width != 0 {
      WithinProduct(iofst, width, len, 8 * cpack.Length);
      ghost var before := ifld[..];
      Gbits(cpack, ifld, n0, iofst, width, 0, len);
      KeptSame(before, ifld[..], ifldmiss[..], done, non0);
      non := TakeCodes(ifld, ifldmiss, n0, non0, missing, nbr, ref, width, len, codes, done);
    } else {
      non := TakeConstant(ifld, ifldmiss, n0, non0, missing, nbr, ref, len, codes, done);
    }
  }

  lemma KeptBound(ifld: seq<int>, miss: seq<int>, cells: seq<Sample>, non: nat)
    requires Kept(ifld, miss, cells, non)
    ensures non <= |cells|
  {
  }

  lemma KeptSame(ifld: seq<int>, ifld': seq<int>, miss: seq<int>, cells: seq<Sample>, non: nat)
    requires Kept(ifld, miss, cells, non) && |ifld'| == |ifld| && ifld'[..|cells|] == ifld[..|cells|]
    ensures Kept(ifld', miss, cells, non)
  {
    assert ifld'[..non] == ifld'[..|cells|][..non] == ifld[..|cells|][..non];
  }

  // ---- the data of all groups ----

  /** What the loop over the groups has in hand before group `j`. */
  ghost predicate Upto(b: bits, iofst: int, n: int, start: nat, refs: seq<int>, widths: seq<int>, lens: seq<int>,
                       j: nat)
    requires |refs| == |widths| == |lens| && j <= |lens| && NonNegative(widths) && NonNegative(lens)
  {
    && iofst == start + TotalBits(widths[..j], lens[..j]) <= |b| && n == TotalLength(lens[..j])
    && 0 <= iofst && 0 <= n
  }

  lemma NextGroup(b: bits, start: nat, missing: nat, nbr: nat, refs: seq<int>, widths: seq<int>, lens: seq<int>, j: nat)
    requires |refs| == |widths| == |lens| && j < |lens| && NonNegative(widths) && NonNegative(lens)
    requires start + TotalBits(widths, lens) <= |b|
    ensures var q := start + TotalBits(widths[..j], lens[..j]);
      && 0 <= q && 0 <= TotalLength(lens[..j]) && TotalLength(lens[..j]) + lens[j] <= TotalLength(lens)
      && 0 <= widths[j] * lens[j] && q + widths[j] * lens[j] <= |b|
      && Upto(b, q + widths[j] * lens[j], TotalLength(lens[..j]) + lens[j], start, refs, widths, lens, j + 1)
      && Cells(b, start, missing, nbr, refs[..j + 1], widths[..j + 1], lens[..j + 1])
         == Cells(b, start, missing, nbr, refs[..j], widths[..j], lens[..j])
            + GroupCells(missing, nbr, refs[j], widths[j], CodesAt(b, q, widths[j], lens[j]))
  {
    hide Cells, TotalBits, TotalLength, CellOf, GroupCells, CodesAt;
    var n := j + 1;
    TotalsPrefix(widths, lens, n);
    TotalsNonNegative(widths[..j], lens[..j]);
    assert refs[..n][..j] == refs[..j] && widths[..n][..j] == widths[..j] && lens[..n][..j] == lens[..j];
    LastTotals(widths[..n], lens[..n]);
    LastCells(b, start, missing, nbr, refs[..n], widths[..n], lens[..n]);
  }

  lemma LastCells(b: bits, start: nat, missing: nat, nbr: nat, refs: seq<int>, widths: seq<int>, lens: seq<int>)
    requires |refs| == |widths| == |lens| >= 1 && NonNegative(widths) && NonNegative(lens)
    requires start + TotalBits(widths, lens) <= |b|
    ensures var j := |lens| - 1; var q := start + TotalBits(widths[..j], lens[..j]);
      && 0 <= q && 0 <= widths[j] * lens[j] && q + widths[j] * lens[j] <= |b|
      && Cells(b, start, missing, nbr, refs, widths, lens)
         == Cells(b, start, missing, nbr, refs[..j], widths[..j], lens[..j])
            + GroupCells(missing, nbr, refs[j], widths[j], CodesAt(b, q, widths[j], lens[j]))
  {
    hide CellOf, GroupCells, CodesAt, TotalBits, TotalLength;
    var j := |lens| - 1;
    LastTotals(widths, lens);
    TotalsNonNegative(widths[..j], lens[..j]);
    assert 0 <= widths[j] * lens[j];
  }

  /** Adds the reference to the codes of a group (lines 211-214). */
  method AddReference(ifld: array<int>, n0: nat, len: nat, ref: int)
    requires n0 + len <= ifld.Length
    modifies ifld
    ensures ifld[..n0] == old(ifld[..n0])
    ensures forall i :: n0 <= i < n0 + len ==> ifld[i] == old(ifld[i]) + ref
  {
    var n := n0;
    for k := 0 to len
      invariant n == n0 + k
      invariant forall i :: 0 <= i < n0 ==> ifld[i] == old(ifld[i])
      invariant forall i :: n0 <= i < n0 + len ==> ifld[i] == if i < n then old(ifld[i]) + ref else old(ifld[i])
    {
      ifld[n] := ifld[n] + ref;
      n := n + 1;
    }
  }

  /** One group without missing values (lines 209-219). */
  method PlainGroup(cpack: array<byte>, ifld: array<int>, n0: nat, iofst: nat, ref: int, width: nat, len: nat)
    requires n0 + len <= ifld.Length && iofst + width * len <= 8 * cpack.Length
    modifies ifld
    ensures ifld[..n0] == old(ifld[..n0])
    ensures AsReals(ifld[n0..n0 + len]) == GroupCells(0, 0, ref, width, CodesAt(BitsOf(cpack[..]), iofst, width, len))
  {
    hide Pow2, BitsOf, LoadAll, AsReals, GroupCells;
    ghost var codes := CodesAt(BitsOf(cpack[..]), iofst, width, len);
    ghost var start := ifld[..n0];
    if width != 0 {
      WithinProduct(iofst, width, len, 8 * cpack.Length);
      Gbits(cpack, ifld, n0, iofst, width, 0, len);
      assert ifld[..n0] == start;
      assert ifld[n0..n0 + len] == codes;
      assert forall i :: n0 <= i < n0 + len ==> ifld[i] == ifld[n0..n0 + len][i - n0];
      AddReference(ifld, n0, len, ref);
    } else {
      for l := n0 to n0 + len
        invariant ifld[..n0] == start
        invariant forall i :: n0 <= i < l ==> ifld[i] == ref
      {
        ifld[l] := ref;
        assert ifld[..n0] == start;
      }
    }
    PlainCells(ifld[n0..n0 + len], ref, width, codes);
  }

  lemma PlainCells(vals: seq<int>, ref: int, width: nat, codes: seq<int>)
    requires |vals| == |codes| && forall i :: 0 <= i < |vals| ==> vals[i] == codes[i] + ref
    ensures AsReals(vals) == GroupCells(0, 0, ref, width, codes)
  {
    hide Pow2;
  }

  method PlainGroups(cpack: array<byte>, ifld: array<int>, start: nat, nbr: nat, gref: seq<int>, gwidth: seq<int>,
                     glen: seq<int>)
    requires |gref| == |gwidth| == |glen| && NonNegative(gwidth) && NonNegative(glen)
    requires TotalLength(glen) == ifld.Length && start + TotalBits(gwidth, glen) <= 8 * cpack.Length
    modifies ifld
    ensures AsReals(ifld[..]) == Cells(BitsOf(cpack[..]), start, 0, nbr, gref, gwidth, glen)
  {
    hide Cells, CodesAt, BitsOf, CellOf, TotalBits, TotalLength;
    ghost var b := BitsOf(cpack[..]);
    var n, iofst := 0, start;
    TotalsNonNegative(gwidth, glen);
    NoGroups(b, start, 0, nbr, gref, gwidth, glen);
    for j := 0 to |glen|
      invariant Upto(b, iofst, n, start, gref, gwidth, glen, j) && n <= ifld.Length
      invariant AsReals(ifld[..n]) == Cells(b, start, 0, nbr, gref[..j], gwidth[..j], glen[..j])
    {
      NextGroup(b, start, 0, nbr, gref, gwidth, glen, j);
      PlainGroup(cpack, ifld, n, iofst, gref[j], gwidth[j], glen[j]);
      AsRealsJoin(ifld[..], n, glen[j]);
      AnyRefWidth(nbr, gref[j], gwidth[j], CodesAt(b, iofst, gwidth[j], glen[j]));
      n := n + glen[j];
      iofst := iofst + gwidth[j] * glen[j];
    }
    AllGroups(gref, gwidth, glen);
    assert ifld[..n] == ifld[..];
  }

  lemma AsRealsJoin(s: seq<int>, n: nat, len: nat)
    requires n + len <= |s|
    ensures AsReals(s[..n + len]) == AsReals(s[..n]) + AsReals(s[n..n + len])
  {
  }

  lemma AnyRefWidth(nbr: nat, ref: int, width: nat, codes: seq<int>)
    ensures GroupCells(0, nbr, ref, width, codes) == GroupCells(0, 0, ref, width, codes)
  {
    hide Pow2;
  }

  lemma NoGroups(b: bits, start: nat, missing: nat, nbr: nat, refs: seq<int>, widths: seq<int>, lens: seq<int>)
    requires |refs| == |widths| == |lens| && NonNegative(widths) && NonNegative(lens) && start <= |b|
    ensures Upto(b, start, 0, start, refs, widths, lens, 0)
    ensures Cells(b, start, missing, nbr, refs[..0], widths[..0], lens[..0]) == []
  {
  }

  lemma AllGroups(refs: seq<int>, widths: seq<int>, lens: seq<int>)
    requires |refs| == |widths| == |lens|
    ensures refs[..|lens|] == refs && widths[..|lens|] == widths && lens[..|lens|] == lens
  {
  }

  method GroupsWithMissing(cpack: array<byte>, ifld: array<int>, ifldmiss: array<int>, start: nat, missing: nat,
                           nbr: nat,
                           gref: seq<int>, gwidth: seq<int>, glen: seq<int>)
    returns (non: nat)
    requires |gref| == |gwidth| == |glen| && NonNegative(gwidth) && NonNegative(glen) && 1 <= missing <= 2
    requires ifld != ifldmiss && TotalLength(glen) == ifld.Length == ifldmiss.Length
    requires start + TotalBits(gwidth, glen) <= 8 * cpack.Length
    modifies ifld, ifldmiss
    ensures Kept(ifld[..], ifldmiss[..], Cells(BitsOf(cpack[..]), start, missing, nbr, gref, gwidth, glen), non)
  {
    hide Cells, CodesAt, BitsOf, CellOf, Kept, TotalBits, TotalLength, Reals;
    ghost var b := BitsOf(cpack[..]);
    var n, iofst := 0, start;
    non := 0;
    TotalsNonNegative(gwidth, glen);
    NoGroups(b, start, missing, nbr, gref, gwidth, glen);
    KeptNothing(ifld[..], ifldmiss[..]);
    for j := 0 to |glen|
      invariant Upto(b, iofst, n, start, gref, gwidth, glen, j) && n <= ifld.Length
      invariant Kept(ifld[..], ifldmiss[..], Cells(b, start, missing, nbr, gref[..j], gwidth[..j], glen[..j]), non)
    {
      NextGroup(b, start, missing, nbr, gref, gwidth, glen, j);
      non := GroupWithMissing(cpack, ifld, ifldmiss, n, non, iofst, missing, nbr, gref[j], gwidth[j], glen[j],
        Cells(b, start, missing, nbr, gref[..j], gwidth[..j], glen[..j]));
      n := n + glen[j];
      iofst := iofst + gwidth[j] * glen[j];
    }
    AllGroups(gref, gwidth, glen);
  }

  lemma KeptNothing(ifld: seq<int>, miss: seq<int>)
    requires |ifld| == |miss|
    ensures Kept(ifld, miss, [], 0)
  {
  }

  // ---- undoing the differences ----

  /** One more value summed up. */
  lemma IntegrateNext(order: int, ival1: int, ival2: int, minsd: int, xs: seq<int>, n: nat)
    requires order <= n < |xs| && (order == 1 || order == 2)
    ensures var before := Integrate(order, ival1, ival2, minsd, xs[..n]);
      Integrate(order, ival1, ival2, minsd, xs[..n + 1]) == before +
        [if order == 1 then xs[n] + minsd + before[n - 1] else xs[n] + minsd + (2 * before[n - 1]) - before[n - 2]]
  {
    assert xs[..n + 1][..n] == xs[..n];
  }

  lemma IntegrateFirst(order: int, ival1: int, ival2: int, minsd: int, xs: seq<int>)
    requires order == 1 || order == 2
    ensures |xs| >= 1 ==> Integrate(order, ival1, ival2, minsd, xs[..1]) == [ival1]
    ensures |xs| >= 2 && order == 2 ==> Integrate(order, ival1, ival2, minsd, xs[..2]) == [ival1, ival2]
    ensures Integrate(order, ival1, ival2, minsd, xs[..0]) == []
  {
    if |xs| >= 1 {
      assert xs[..1][..0] == [];
    }
    if |xs| >= 2 {
      assert xs[..2][..1] == xs[..1];
    }
  }

  /** Sums up the differences in place (lines 280-300). */
  method SumUp(ifld: array<int>, count: nat, order: int, ival1: int, ival2: int, minsd: int)
    requires count <= ifld.Length && (order == 1 ==> ifld.Length >= 1) && (order == 2 ==> ifld.Length >= 2)
    modifies ifld
    ensures ifld[..count] == Integrate(order, ival1, ival2, minsd, old(ifld[..count]))
  {
    ghost var xs := ifld[..];
    if order == 1 || order == 2 {
      IntegrateFirst(order, ival1, ival2, minsd, xs);
      assert xs[..count] == old(ifld[..count]);
      ifld[0] := ival1;
      if order == 2 {
        ifld[1] := ival2;
      }
      if count > order {
        SumRest(ifld, count, order, ival1, ival2, minsd, xs);
      } else if count == 2 {
        assert ifld[..2] == [ival1, ival2];
      } else if count == 1 {
        assert ifld[..1] == [ival1];
      }
    }
  }

  lemma ReplaceNext(before: seq<int>, xs: seq<int>, n: nat, v: int)
    requires |before| == n < |xs|
    ensures (before + xs[n..])[n := v] == before + [v] + xs[n + 1..]
  {
  }

  method SumRest(ifld: array<int>, count: nat, order: nat, ival1: int, ival2: int, minsd: int, ghost xs: seq<int>)
    requires 1 <= order <= 2 && order < count <= ifld.Length == |xs|
    requires ifld[..order] == Integrate(order, ival1, ival2, minsd, xs[..order]) && ifld[order..] == xs[order..]
    modifies ifld
    ensures ifld[..count] == Integrate(order, ival1, ival2, minsd, xs[..count])
  {
    hide Integrate;
    assert ifld[..] == ifld[..order] + ifld[order..];
    for n := order to count
      invariant ifld[..] == Integrate(order, ival1, ival2, minsd, xs[..n]) + xs[n..]
    {
      IntegrateNext(order, ival1, ival2, minsd, xs, n);
      ghost var before := Integrate(order, ival1, ival2, minsd, xs[..n]);
      ghost var now := ifld[..];
      assert ifld[n] == now[n] && ifld[n - 1] == now[n - 1] && (order == 2 ==> ifld[n - 2] == now[n - 2]);
      ifld[n] := ifld[n] + minsd;
      if order == 1 {
        ifld[n] := ifld[n] + ifld[n - 1];
      } else {
        ifld[n] := ifld[n] + (2 * ifld[n - 1]) - ifld[n - 2];
      }
      assert ifld[..] == now[n := ifld[n]];
      ReplaceNext(before, xs, n, ifld[n]);
    }
  }

  /** Hands out the values to the places that are not missing (lines 305-324). */
  method Deliver(fld: array<Sample>, ifld: array<int>, ifldmiss: array<int>, ndpts: nat, ghost cells: seq<Sample>)
    requires ndpts == |cells| <= fld.Length && ndpts <= ifldmiss.Length && |Reals(cells)| <= ifld.Length
    requires forall k :: 0 <= k < ndpts ==> ifldmiss[k] == MarkOf(cells[k])
    modifies fld
    ensures fld[..ndpts] == Expand(cells, ifld[..])
  {
    var non := 0;
    assert cells[..ndpts] == cells;
    for n := 0 to ndpts
      invariant non == |Reals(cells[..n])| <= |Reals(cells)|
      invariant fld[..n] == Expand(cells[..n], ifld[..])
    {
      assert cells[..n + 1][..n] == cells[..n];
      RealsOfPrefix(cells, n + 1);
      if ifldmiss[n] == 0 {
        fld[n] := Real(ifld[non]);
        non := non + 1;
      } else if ifldmiss[n] == 1 {
        fld[n] := Primary;
      } else {
        fld[n] := Secondary;
      }
    }
  }

  // ---- the decoder ----

  /** The differencing header (lines 109-135). */
  method ReadHead(cpack: array<byte>, p: Params) returns (ival1: int, ival2: int, minsd: int, iofst: nat)
    requires p.Valid() && p.HeadSize() <= 8 * cpack.Length && p.nbitsd % 8 == 0
    ensures (ival1, ival2, minsd) == Head(BitsOf(cpack[..]), p) && iofst == p.HeadSize()
  {
    hide BitsOf, SignedAt, SectionSize;
    iofst, ival1, ival2, minsd := 0, 0, 0, 0;
    if p.diff && p.nbitsd != 0 {
      ival1 := ReadSigned(cpack, iofst, p.nbitsd);
      iofst := iofst + p.nbitsd;
      if p.order == 2 {
        ival2 := ReadSigned(cpack, iofst, p.nbitsd);
        iofst := iofst + p.nbitsd;
      }
      minsd := ReadSigned(cpack, iofst, p.nbitsd);
      iofst := iofst + p.nbitsd;
    }
  }

  /** References, widths and lengths of the groups (lines 136-186). */
  method ReadGroups(cpack: array<byte>, p: Params) returns (gref: array<int>, gwidth: array<int>, glen: array<int>)
    requires p.Valid() && p.ngroups > 0 && p.DataAt() <= 8 * cpack.Length
    ensures fresh(gref) && fresh(gwidth) && fresh(glen)
    ensures gref[..] == GroupRefs(BitsOf(cpack[..]), p)
    ensures gwidth[..] == GroupWidths(BitsOf(cpack[..]), p)
    ensures glen[..] == GroupLengths(BitsOf(cpack[..]), p)
  {
    hide BitsOf, SectionValues, SectionSize, AddTo;
    gref := new int[p.ngroups];
    gwidth := new int[p.ngroups];
    glen := new int[p.ngroups];
    var iofst := ReadSection(cpack, gref, p.HeadSize(), p.nbr);
    iofst := ReadSection(cpack, gwidth, iofst, p.nbw);
    Rescale(gwidth, 1, p.wref);
    iofst := ReadSection(cpack, glen, iofst, p.nbl);
    Rescale(glen, p.linc, p.lref);
    glen[p.ngroups - 1] := p.llast;
  }

  /** The data of all groups (lines 203-270). */
  method ReadData(cpack: array<byte>, p: Params, gref: seq<int>, gwidth: seq<int>, glen: seq<int>,
                  ifld: array<int>, ifldmiss: array<int>)
    returns (count: nat)
    requires |gref| == |gwidth| == |glen| && NonNegative(gwidth) && NonNegative(glen) && p.Valid()
    requires ifld != ifldmiss && TotalLength(glen) == ifld.Length == ifldmiss.Length
    requires p.DataAt() + TotalBits(gwidth, glen) <= 8 * cpack.Length
    requires forall k :: 0 <= k < ifldmiss.Length ==> ifldmiss[k] == 0
    modifies ifld, ifldmiss
    ensures var cells := Cells(BitsOf(cpack[..]), p.DataAt(), p.missing, p.nbr, gref, gwidth, glen);
      && count == |Reals(cells)| <= ifld.Length && ifld[..count] == Reals(cells)
      && forall k :: 0 <= k < |cells| ==> ifldmiss[k] == MarkOf(cells[k])
  {
    hide BitsOf, Cells, TotalBits, TotalLength, Reals, MarkOf;
    ghost var cells := Cells(BitsOf(cpack[..]), p.DataAt(), p.missing, p.nbr, gref, gwidth, glen);
    if p.missing == 0 {
      PlainGroups(cpack, ifld, p.DataAt(), p.nbr, gref, gwidth, glen);
      AllReal(ifld[..], cells);
      count := ifld.Length;
    } else {
      count := GroupsWithMissing(cpack, ifld, ifldmiss, p.DataAt(), p.missing, p.nbr, gref, gwidth, glen);
      KeptFacts(ifld[..], ifldmiss[..], cells, count);
    }
  }

  /** comunpack: status 1 when the group widths and lengths disagree with the number of
      values or the length of the section, and otherwise the samples that the bits mean. */
  method Comunpack(cpack: array<byte>, lensec: int, idrsnum: int, t: seq<int>, ndpts: nat, fld: array<Sample>)
    returns (status: int)
    requires |t| >= TEMPLATE_SIZE && Readable(BitsOf(cpack[..]), ParamsOf(idrsnum, t), ndpts, lensec)
    requires ndpts <= fld.Length && (idrsnum == 3 && t[NGROUPS] != 0 && 1 <= t[ORDER] <= 2 ==> ndpts >= t[ORDER])
    modifies fld
    ensures status == 0 || status == 1
    // the two checks: the lengths make up the field, and the codes end within the section
    ensures var b, p := BitsOf(cpack[..]), ParamsOf(idrsnum, t);
      status == 1 <==>
      t[NGROUPS] != 0
      && (TotalLength(GroupLengths(b, p)) != ndpts || TotalBits(GroupWidths(b, p), GroupLengths(b, p)) > 8 * lensec)
    ensures status == 1 <==> Decode(BitsOf(cpack[..]), ParamsOf(idrsnum, t), ndpts, lensec) == Inconsistent
    ensures status == 0 ==> Decode(BitsOf(cpack[..]), ParamsOf(idrsnum, t), ndpts, lensec) == Unpacked(fld[..ndpts])
  {
    hide BitsOf, Cells, Head, SectionSize, MarkOf, GroupRefs, GroupWidths, GroupLengths, TotalBits, TotalLength,
      Integrate, Expand, Reals;
    var p := ParamsOf(idrsnum, t);
    ghost var b := BitsOf(cpack[..]);
    status := 0;
    if p.ngroups == 0 {
      for j := 0 to ndpts
        invariant forall i :: 0 <= i < j ==> fld[i] == Real(0)
      {
        fld[j] := Real(0);
      }
      return;
    }
    var ifld := new int[ndpts](_ => 0);
    var ival1, ival2, minsd, iofst := ReadHead(cpack, p);
    var gref, gwidth, glen := ReadGroups(cpack, p);
    var totBit, totLen := Totals(gwidth, glen);
    if totLen != ndpts { status := 1; return; }
    if totBit > 8 * lensec { status := 1; return; }
    ghost var cells := Cells(b, p.DataAt(), p.missing, p.nbr, gref[..], gwidth[..], glen[..]);
    var ifldmiss := new int[ndpts](_ => 0);
    var count := ReadData(cpack, p, gref[..], gwidth[..], glen[..], ifld, ifldmiss);
    var order := if p.diff then p.order else 0;
    SumUp(ifld, count, order, ival1, ival2, minsd);
    Deliver(fld, ifld, ifldmiss, ndpts, cells);
    ExpandPrefix(cells, ifld[..count], ifld[..]);
  }

  lemma AllReal(vals: seq<int>, cells: seq<Sample>)
    requires AsReals(vals) == cells
    ensures Reals(cells) == vals && vals[..|vals|] == vals && forall k :: 0 <= k < |cells| ==> MarkOf(cells[k]) == 0
  {
    RealsOfAsReals(vals);
  }

  lemma KeptFacts(ifld: seq<int>, miss: seq<int>, cells: seq<Sample>, non: nat)
    requires Kept(ifld, miss, cells, non)
    ensures non == |Reals(cells)| <= |ifld| && ifld[..non] == Reals(cells)
    ensures forall k :: 0 <= k < |cells| ==> miss[k] == MarkOf(cells[k])
  {
  }

  /** Only as many values as there are places matter. */
  lemma {:induction false} ExpandPrefix(cells: seq<Sample>, vals: seq<int>, more: seq<int>)
    requires |Reals(cells)| <= |vals| && vals <= more
    ensures Expand(cells, vals) == Expand(cells, more)
    decreases |cells|
  {
    if |cells| > 0 {
      RealsOfPrefix(cells, |cells| - 1);
      ExpandPrefix(cells[..|cells| - 1], vals, more);
    }
  }
}
