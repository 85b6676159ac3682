/** What it means for a list of groups to cut an array into runs that pack into their bits:
    the meaning shared by g2_pack_gp.c and g2_reduce.c. */
module Groups {
  import opened Binary

  /** Missing value management (`is523`, `missp`, `misss`): 0 none, 1 primary marks,
      2 primary and secondary marks. */
  datatype Marks = Marks(option: nat, primary: int, secondary: int) {
    predicate Valid() {
      option <= 2
    }

    predicate Missing(v: int) {
      || (option == 1 && v == primary)
      || (option == 2 && (v == primary || v == secondary))
    }
  }

  /** The reference and the maximum of a group, its bit width and its number of values. */
  datatype Group = Group(min: int, max: int, bits: int, size: int)

  /** Every value of `ic[from..to]` that is not missing lies between `lo` and `hi`, and
      `bits` bits hold their distance and the codes reserved for missing values. */
  ghost predicate Fits(ic: seq<int>, m: Marks, from: int, to: int, lo: int, hi: int, bits: int)
  {
    0 <= from <= to <= |ic| && 0 <= bits &&
    forall k :: from <= k < to && !m.Missing(ic[k]) ==>
      lo <= ic[k] <= hi && hi - lo + m.option < Pow2(bits)
  }

  /** The groups cut `ic[from..to]` into consecutive runs, each of which fits. */
  ghost predicate Covers(ic: seq<int>, m: Marks, gs: seq<Group>, from: int, to: int)
    decreases |gs|
  {
    if |gs| == 0 then from == to
    else
      var g := gs[0];
      && 0 <= g.size
      && Fits(ic, m, from, from + g.size, g.min, g.max, g.bits)
      && Covers(ic, m, gs[1..], from + g.size, to)
  }

  function TotalSize(gs: seq<Group>): int {
    if |gs| == 0 then 0 else gs[0].size + TotalSize(gs[1..])
  }

  lemma {:induction false} CoversTotal(ic: seq<int>, m: Marks, gs: seq<Group>, from: int, to: int)
    requires Covers(ic, m, gs, from, to)
    ensures TotalSize(gs) == to - from && from <= to
    decreases |gs|
  {
    if |gs| > 0 {
      CoversTotal(ic, m, gs[1..], from + gs[0].size, to);
    }
  }

  lemma {:induction false} CoversConcat(ic: seq<int>, m: Marks, gs: seq<Group>, hs: seq<Group>, from: int, mid: int,
                                        to: int)
    requires Covers(ic, m, gs, from, mid) && Covers(ic, m, hs, mid, to)
    ensures Covers(ic, m, gs + hs, from, to)
    decreases |gs|
  {
    if |gs| == 0 {
      assert gs + hs == hs;
    } else {
      CoversConcat(ic, m, gs[1..], hs, from + gs[0].size, mid, to);
      assert (gs + hs)[1..] == gs[1..] + hs;
    }
  }

  lemma CoversOne(ic: seq<int>, m: Marks, g: Group, from: int)
    requires 0 <= g.size && Fits(ic, m, from, from + g.size, g.min, g.max, g.bits)
    ensures Covers(ic, m, [g], from, from + g.size)
  {
    assert Covers(ic, m, [g][1..], from + g.size, from + g.size);
  }

  // ---- splitting groups ----

  /** `pieces` are groups with the reference, maximum and width of `g`, and together its size;
      the last one is empty only when `g` is. */
  ghost predicate PiecesOf(g: Group, pieces: seq<Group>) {
    && |pieces| >= 1
    && TotalSize(pieces) == g.size
    && (g.size > 0 ==> pieces[|pieces| - 1].size > 0)
    && forall i :: 0 <= i < |pieces| ==>
      0 <= pieces[i].size && pieces[i].min == g.min && pieces[i].max == g.max && pieces[i].bits == g.bits
  }

  /** Every parent, in order, is replaced by `counts` of its pieces. */
  ghost predicate SplitOf(parents: seq<Group>, pieces: seq<Group>, counts: seq<nat>)
    requires |counts| == |parents|
    decreases |parents|
  {
    if |parents| == 0 then |pieces| == 0
    else
      && counts[0] <= |pieces|
      && PiecesOf(parents[0], pieces[..counts[0]])
      && SplitOf(parents[1..], pieces[counts[0]..], counts[1..])
  }

  lemma {:induction false} SplitKeepsTotal(parents: seq<Group>, pieces: seq<Group>, counts: seq<nat>)
    requires |counts| == |parents| && SplitOf(parents, pieces, counts)
    ensures TotalSize(pieces) == TotalSize(parents)
    decreases |parents|
  {
    if |parents| > 0 {
      SplitKeepsTotal(parents[1..], pieces[counts[0]..], counts[1..]);
      TotalConcat(pieces[..counts[0]], pieces[counts[0]..]);
      assert pieces == pieces[..counts[0]] + pieces[counts[0]..];
    }
  }

  lemma {:induction false} TotalConcat(gs: seq<Group>, hs: seq<Group>)
    ensures TotalSize(gs + hs) == TotalSize(gs) + TotalSize(hs)
    decreases |gs|
  {
    if |gs| == 0 {
      assert gs + hs == hs;
    } else {
      TotalConcat(gs[1..], hs);
      assert (gs + hs)[1..] == gs[1..] + hs;
    }
  }

  /** Pieces of a group that fits fit. */
  lemma {:induction false} PiecesCover(ic: seq<int>, m: Marks, g: Group, pieces: seq<Group>, from: int, to: int)
    requires Fits(ic, m, from, to, g.min, g.max, g.bits)
    requires TotalSize(pieces) == to - from
    requires forall i :: 0 <= i < |pieces| ==>
      0 <= pieces[i].size && pieces[i].min == g.min && pieces[i].max == g.max && pieces[i].bits == g.bits
    ensures Covers(ic, m, pieces, from, to)
    decreases |pieces|
  {
    if |pieces| > 0 {
      TotalNonNegative(pieces[1..]);
      PiecesCover(ic, m, g, pieces[1..], from + pieces[0].size, to);
    }
  }

  lemma {:induction false} TotalNonNegative(gs: seq<Group>)
    requires forall i :: 0 <= i < |gs| ==> 0 <= gs[i].size
    ensures TotalSize(gs) >= 0
    decreases |gs|
  {
    if |gs| > 0 {
      TotalNonNegative(gs[1..]);
    }
  }

  /** Splitting groups keeps a good grouping good. */
  lemma {:induction false} SplitCovers(ic: seq<int>, m: Marks, parents: seq<Group>, pieces: seq<Group>,
                                       counts: seq<nat>, from: int, to: int)
    requires |counts| == |parents| && SplitOf(parents, pieces, counts)
    requires Covers(ic, m, parents, from, to)
    ensures Covers(ic, m, pieces, from, to)
    decreases |parents|
  {
    if |parents| > 0 {
      var c, mid := counts[0], from + parents[0].size;
      PiecesCover(ic, m, parents[0], pieces[..c], from, mid);
      SplitCovers(ic, m, parents[1..], pieces[c..], counts[1..], mid, to);
      CoversConcat(ic, m, pieces[..c], pieces[c..], from, mid, to);
      assert pieces == pieces[..c] + pieces[c..];
    }
  }

  /** A filled last group stays filled. */
  lemma {:induction false} SplitKeepsLast(parents: seq<Group>, pieces: seq<Group>, counts: seq<nat>)
    requires |counts| == |parents| > 0 && SplitOf(parents, pieces, counts) && parents[|parents| - 1].size > 0
    ensures |pieces| > 0 && pieces[|pieces| - 1].size > 0
    decreases |parents|
  {
    var rest := pieces[counts[0]..];
    if |parents| == 1 {
      assert pieces == pieces[..counts[0]];
    } else {
      SplitKeepsLast(parents[1..], rest, counts[1..]);
      assert rest[|rest| - 1] == pieces[|pieces| - 1];
    }
  }

  // ---- the parallel arrays of the C code ----

  /** The contents of jmin, jmax, lbit and nov. */
  datatype Table = Table(jmin: seq<int>, jmax: seq<int>, lbit: seq<int>, nov: seq<int>) {
    predicate Valid() {
      |jmin| == |jmax| == |lbit| == |nov|
    }

    /** The groups that entries `from` to `to` describe, once the reference width and size
        are added back. */
    function Groups(from: nat, to: nat, bitRef: int, sizeRef: int): (gs: seq<Group>)
      requires Valid() && from <= to <= |jmin|
      ensures |gs| == to - from
    {
      seq(to - from, i requires 0 <= i < to - from =>
        Group(jmin[from + i], jmax[from + i], lbit[from + i] + bitRef, nov[from + i] + sizeRef))
    }
  }

  function Sum(s: seq<nat>): nat {
    if |s| == 0 then 0 else Sum(s[..|s| - 1]) + s[|s| - 1]
  }

  lemma SumStep(s: seq<nat>, i: nat)
    requires i < |s|
    ensures Sum(s[..i + 1]) == Sum(s[..i]) + s[i]
  {
    assert s[..i + 1][..i] == s[..i];
  }
}
