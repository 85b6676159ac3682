/** The choice of groups for complex packing (g2/g2_pack_gp.c).

    The labels and gotos of the C code become loops over the same state.  Offsets are counted
    from zero and ranges exclude their end, so group A is `ic[kstart..ktotal]` and group B is
    `ic[ktotal..nendb]`; the places of the extremes keep the C numbering, which starts at 1. */
module PackGp {
  import opened Binary
  import opened Groups
  import opened Reduce

  /** One more than the largest value: no value of the data. */
  const MALLOW := 1073741825

  /** The least and greatest value seen and the places where they were seen last or first. */
  datatype Extremes = Extremes(min: int, max: int, minAt: int, maxAt: int)

  const NOTHING_SEEN := Extremes(MALLOW, -MALLOW, MALLOW, -MALLOW)

  /** Group A, B or C while it is being formed.  `missing` says that all its values are
      missing; its extremes are 0 then. */
  datatype Window = Window(e: Extremes, missing: bool, bits: nat)

  predicate InRange(ic: seq<int>, m: Marks) {
    forall k :: 0 <= k < |ic| && !m.Missing(ic[k]) ==> -1073741824 <= ic[k] < 1073741824
  }

  /** All values can be packed into 30 bits next to the reserved codes. */
  ghost predicate Narrow(ic: seq<int>, m: Marks) {
    forall k :: 0 <= k < |ic| && !m.Missing(ic[k]) ==> 0 <= ic[k] && ic[k] + m.option < Pow2(30)
  }

  ghost predicate AllMissing(ic: seq<int>, m: Marks, from: int, to: int) {
    forall k :: 0 <= k < |ic| && from <= k < to ==> m.Missing(ic[k])
  }

  ghost predicate Bounds(ic: seq<int>, m: Marks, e: Extremes) {
    && -1073741824 <= e.min <= e.max < 1073741824
    && (Narrow(ic, m) ==> 0 <= e.min && e.max + m.option < Pow2(30))
  }

  /** The invariant of a window over `ic[from..to]`. */
  ghost predicate Ok(ic: seq<int>, m: Marks, w: Window, from: int, to: int) {
    && Fits(ic, m, from, to, w.e.min, w.e.max, w.bits)
    && (w.missing ==> AllMissing(ic, m, from, to))
    && Bounds(ic, m, w.e)
    && ((w.missing && m.option != 2) || w.e.max - w.e.min + m.option < Pow2(w.bits))
  }

  /** The extremes `r` extend `e` by the values of `ic[from..to]` and no further. */
  ghost predicate Extends(ic: seq<int>, m: Marks, e: Extremes, r: Extremes, from: int, to: int) {
    && r.min <= e.min && e.max <= r.max
    && (forall k :: 0 <= k < |ic| && from <= k < to && !m.Missing(ic[k]) ==> r.min <= ic[k] <= r.max)
    && ((r.min == e.min && r.minAt == e.minAt) || SeenAt(ic, m, r.min, r.minAt, from, to))
    && ((r.max == e.max && r.maxAt == e.maxAt) || SeenAt(ic, m, r.max, r.maxAt, from, to))
  }

  ghost predicate SeenAt(ic: seq<int>, m: Marks, v: int, place: int, from: int, to: int) {
    from < place <= to && 0 < place <= |ic| && ic[place - 1] == v && !m.Missing(v)
  }

  /** The extremes are seen where they occur last in `ic[from..to]`, or first. */
  ghost predicate SeenWhere(ic: seq<int>, m: Marks, e: Extremes, from: int, to: int, last: bool) {
    forall k :: 0 <= k < |ic| && from <= k < to && !m.Missing(ic[k]) ==>
      && (ic[k] == e.min ==> if last then k < e.minAt else e.minAt <= k + 1)
      && (ic[k] == e.max ==> if last then k < e.maxAt else e.maxAt <= k + 1)
  }

  /** What one scan promises. */
  ghost predicate Scanned(ic: seq<int>, m: Marks, e: Extremes, r: Extremes, from: int, to: int, orEqual: bool) {
    && Extends(ic, m, e, r, from, to)
    && (orEqual || (e == NOTHING_SEEN && InRange(ic, m)) ==> SeenWhere(ic, m, r, from, to, orEqual))
  }

  /** The loops that find the minimum and maximum, all of one shape.  With `orEqual` a later
      equal value takes the place of an earlier one. */
  method Scan(ic: seq<int>, m: Marks, from: nat, to: nat, e: Extremes, orEqual: bool) returns (r: Extremes)
    requires to <= |ic|
    ensures Scanned(ic, m, e, r, from, to, orEqual)
  {
    hide Scanned;
    r := e;
    var k := from;
    ScanNothing(ic, m, e, e, from, to, orEqual);
    while k < to
      invariant k <= to || k == from
      invariant Scanned(ic, m, e, r, from, k, orEqual)
    {
      ghost var before := r;
      if !m.Missing(ic[k]) {
        if ic[k] < r.min || (orEqual && ic[k] == r.min) {
          r := r.(min := ic[k], minAt := k + 1);
        }
        if ic[k] > r.max || (orEqual && ic[k] == r.max) {
          r := r.(max := ic[k], maxAt := k + 1);
        }
      }
      ScanOne(ic, m, e, before, r, from, k, orEqual);
      k := k + 1;
    }
    ScanNothing(ic, m, e, r, from, to, orEqual);
  }

  lemma ScanNothing(ic: seq<int>, m: Marks, e: Extremes, r: Extremes, from: int, to: int, orEqual: bool)
    ensures Scanned(ic, m, e, e, from, from, orEqual)
    ensures to <= from && Scanned(ic, m, e, r, from, from, orEqual) ==> Scanned(ic, m, e, r, from, to, orEqual)
  {
  }

  lemma ScanOne(ic: seq<int>, m: Marks, e: Extremes, r: Extremes, r': Extremes, from: nat, k: nat, orEqual: bool)
    requires from <= k < |ic| && Scanned(ic, m, e, r, from, k, orEqual)
    requires var v := ic[k];
      var low, high := v < r.min || (orEqual && v == r.min), v > r.max || (orEqual && v == r.max);
      r' == if m.Missing(v) then r
        else Extremes(if low then v else r.min, if high then v else r.max, if low then k + 1 else r.minAt,
          if high then k + 1 else r.maxAt)
    ensures Scanned(ic, m, e, r', from, k + 1, orEqual)
  {
  }

  /** The least width, from `first` to 30, for values that lie `range` apart. */
  method BitsFor(range: int, lmiss: int, first: nat) returns (ok: bool, bits: nat)
    ensures ok ==> first <= bits <= 30 && range + lmiss < Pow2(bits)
    ensures ok && bits > first ==> range + lmiss >= Pow2(bits - 1)
    ensures !ok && first <= 30 ==> range + lmiss >= Pow2(30)
  {
    bits := first;
    while bits <= 30
      invariant bits > first ==> bits <= 31 && range + lmiss >= Pow2(bits - 1)
    {
      if range + lmiss < Pow2(bits) {
        return true, bits;
      }
      bits := bits + 1;
    }
    ok := false;
  }

  /** Turns the extremes of a group into its window (lines 567-601, 736-764, 979-1012). */
  method Settle(ghost ic: seq<int>, m: Marks, e: Extremes, first: nat, ghost from: int, ghost to: int)
    returns (ok: bool, w: Window)
    requires m.Valid() && first <= 30 && 0 <= from <= to <= |ic|
    requires e.min == MALLOW ==> AllMissing(ic, m, from, to)
    requires e.min != MALLOW ==> Bounds(ic, m, e)
    requires forall k :: from <= k < to && !m.Missing(ic[k]) ==> e.min <= ic[k] <= e.max
    ensures ok ==> Ok(ic, m, w, from, to)
    ensures ok ==> w.missing == (e.min == MALLOW) && (e.min != MALLOW ==> w.e == e)
    ensures ok && !(w.missing && m.option != 2) ==> w.bits >= first
    ensures ok && !(w.missing && m.option != 2) && w.bits > first ==> w.e.max - w.e.min + m.option >= Pow2(w.bits - 1)
    ensures ok ==> w.bits <= 30
    ensures ok && w.missing ==> w.e == e.(min := 0, max := 0)
    ensures ok && w.missing && m.option != 2 ==> w.bits == 0
    ensures Narrow(ic, m) ==> ok
  {
    Pow2Of30();
    if e.min == MALLOW {
      w := Window(e.(min := 0, max := 0), true, 0);
      if m.option != 2 {
        return true, w;
      }
    } else {
      w := Window(e, false, 0);
    }
    var bits;
    ok, bits := BitsFor(w.e.max - w.e.min, m.option, first);
    w := w.(bits := bits);
  }

  /** Scanning from nothing finds exact extremes, or nothing when all values are missing. */
  lemma ScanFromNothing(ic: seq<int>, m: Marks, r: Extremes, from: nat, to: nat)
    requires from <= to <= |ic| && InRange(ic, m) && Extends(ic, m, NOTHING_SEEN, r, from, to)
    ensures r.min == MALLOW ==> AllMissing(ic, m, from, to)
    ensures r.min != MALLOW ==> Bounds(ic, m, r)
    ensures r.min != MALLOW ==> SeenAt(ic, m, r.min, r.minAt, from, to) && SeenAt(ic, m, r.max, r.maxAt, from, to)
  {
    Pow2Of30();
    if r.min != MALLOW {
      assert SeenAt(ic, m, r.min, r.minAt, from, to);
      assert r.max >= ic[r.minAt - 1];
      assert SeenAt(ic, m, r.max, r.maxAt, from, to);
    }
  }

  // ---- where groups end and how wide they are ----

  /** The values from `from` on are missing or like the first one up to `end`, and no further. */
  ghost predicate RunEnds(ic: seq<int>, m: Marks, from: nat, end: nat) {
    && from < end <= |ic|
    && (forall k :: from < k < end ==> m.Missing(ic[k]) || ic[k] == ic[from])
    && (end < |ic| ==> !m.Missing(ic[end]) && ic[end] != ic[from])
  }

  /** The first group ends at the least size, or at the end of a run of equal values that is
      longer; it takes the whole data when at most lminpk/2 values would be left over, or when
      they are one run. */
  ghost predicate FirstEnd(ic: seq<int>, m: Marks, lminpk: nat, end: nat)
    requires lminpk >= 2
  {
    if |ic| - lminpk <= lminpk / 2 then end == |ic|
    else if ic[0] != ic[1] then end == lminpk
    else exists r: nat :: RunEnds(ic, m, 0, r) && end == if r > lminpk then r else lminpk
  }

  /** A group behind place `at` ends at the least size, or with `run` at the end of a run of
      equal values that is longer; it takes all the rest when at most lminpk/2 values of it
      would be left over. */
  ghost predicate NextEnd(ic: seq<int>, m: Marks, lminpk: nat, at: nat, end: nat, run: bool) {
    exists r: nat ::
      (if run && at + 1 < |ic| then RunEnds(ic, m, at, r) else r == at) && EndsBehind(|ic|, lminpk, at, r, end)
  }

  predicate EndsBehind(n: nat, lminpk: nat, at: nat, r: nat, end: nat) {
    var e := if r > at + lminpk then r else at + lminpk;
    end == if n - e <= lminpk / 2 then n else e
  }

  /** The window says exactly what is in `ic[from..to]`: its extremes are there, and no
      narrower width would hold them; when all values are missing they count as 0. */
  ghost predicate Snug(ic: seq<int>, m: Marks, w: Window, from: nat, to: nat) {
    && w.e.max - w.e.min + (if w.missing && m.option != 2 then 0 else m.option) < Pow2(w.bits)
    && (w.bits > 0 ==> w.e.max - w.e.min + m.option >= Pow2(w.bits - 1))
    && if w.missing then AllMissing(ic, m, from, to) && w.e.min == w.e.max == 0
       else
         && SeenAt(ic, m, w.e.min, w.e.minAt, from, to) && SeenAt(ic, m, w.e.max, w.e.maxAt, from, to)
         && forall k :: 0 <= k < |ic| && from <= k < to && !m.Missing(ic[k]) ==> w.e.min <= ic[k] <= w.e.max
  }

  /** The window `w` is `w0` widened by the values of `ic[from..to]`, in as few bits more as
      will do. */
  ghost predicate Widens(ic: seq<int>, m: Marks, w0: Window, w: Window, from: nat, to: nat) {
    && Extends(ic, m, w0.e, w.e, from, to) && !w.missing && w0.bits <= w.bits
    && w.e.max - w.e.min + m.option < Pow2(w.bits)
    && (w.bits > w0.bits ==> w.e.max - w.e.min + m.option >= Pow2(w.bits - 1))
  }

  /** Where the run of values like the first one ends (lines 432-506, 632-653). */
  method RunEnd(ic: seq<int>, m: Marks, from: nat) returns (end: nat)
    requires from < |ic|
    ensures RunEnds(ic, m, from, end)
  {
    end := from + 1;
    while end < |ic|
      invariant from < end <= |ic|
      invariant forall k :: from < k < end ==> m.Missing(ic[k]) || ic[k] == ic[from]
    {
      if !m.Missing(ic[end]) && ic[end] != ic[from] {
        return;
      }
      end := end + 1;
    }
  }

  /** Extends `end` to the end of the data when few values would be left over. */
  function NoSmallRest(end: nat, nxy: nat, lminpk: nat): nat {
    if nxy - end <= lminpk / 2 then nxy else end
  }

  /** A new group has the least size and does not leave a small rest, or takes all the rest. */
  predicate LongEnough(from: int, end: int, nxy: int, lminpk: nat) {
    end == nxy || (end - from >= lminpk && nxy - end > lminpk / 2)
  }

  function Min(a: int, b: int): int { if a < b then a else b }

  function Max(a: int, b: int): int { if a > b then a else b }

  /** A window that no narrower width would hold, over values that are really there. */
  ghost predicate Tight(ic: seq<int>, m: Marks, w: Window, from: int, to: int) {
    || w.bits == 0
    || (m.option == 2 && w.bits <= 2)
    || (&& SeenAt(ic, m, w.e.min, w.e.minAt, from, to) && SeenAt(ic, m, w.e.max, w.e.maxAt, from, to)
        && w.e.max - w.e.min + m.option >= Pow2(w.bits - 1))
  }

  /** The first group A (lines 395-601). */
  method FirstGroup(ic: seq<int>, m: Marks, lminpk: nat) returns (ok: bool, a: Window, nenda: nat)
    requires m.Valid() && |ic| >= 1 && InRange(ic, m) && lminpk >= 2
    ensures 0 < nenda <= |ic| && (nenda == |ic| || nenda >= lminpk)
    ensures lminpk >= |ic| ==> nenda == |ic|
    ensures FirstEnd(ic, m, lminpk, nenda) && (ok ==> Snug(ic, m, a, 0, nenda))
    ensures ok && !a.missing ==> SeenWhere(ic, m, a.e, 0, nenda, false)
    ensures ok ==> Ok(ic, m, a, 0, nenda) && Tight(ic, m, a, 0, nenda) && a.bits <= 30
    ensures Narrow(ic, m) ==> ok
  {
    nenda := NoSmallRest(Min(lminpk, |ic|), |ic|, lminpk);
    if nenda != |ic| && ic[0] == ic[1] {
      var end := RunEnd(ic, m, 0);
      nenda := if end == |ic| then |ic| else Max(nenda, end);
    }
    var e := Scan(ic, m, 0, nenda, NOTHING_SEEN, false);
    ScanFromNothing(ic, m, e, 0, nenda);
    ok, a := Settle(ic, m, e, 0, 0, nenda);
    if a.bits > 2 {
      Pow2Mono(2, a.bits - 1);
      assert Pow2(2) == 4;
    }
  }

  /** Group B anew after group A, or with the points beyond its old end (lines 619-764). */
  method GroupB(ic: seq<int>, m: Marks, ktotal: nat, lminpk: nat, anew: bool, b0: Window, nendb0: nat, ghost from0: nat)
    returns (ok: bool, b: Window, nendb: nat)
    requires m.Valid() && InRange(ic, m) && ktotal < |ic| && lminpk >= 2
    requires !anew ==> Ok(ic, m, b0, from0, nendb0) && from0 <= ktotal && b0.bits <= 30
    ensures ktotal < nendb <= |ic| && LongEnough(ktotal, nendb, |ic|, lminpk)
    ensures NextEnd(ic, m, lminpk, ktotal, nendb, anew && m.option == 0)
    ensures ok ==> if anew then Snug(ic, m, b, ktotal, nendb) else Widens(ic, m, b0, b, nendb0, nendb)
    ensures ok && !b.missing ==> SeenWhere(ic, m, b.e, if anew then ktotal else nendb0, nendb, true)
    ensures ok ==> Ok(ic, m, b, ktotal, nendb) && b.bits <= 30
    ensures Narrow(ic, m) ==> ok
  {
    var e, ibitbs, mstart := NOTHING_SEEN, 0, ktotal;
    nendb := 1;
    if anew {
      if ktotal + 1 < |ic| && m.option == 0 {
        nendb := RunEnd(ic, m, ktotal);
      }
    } else {
      e, ibitbs, mstart := b0.e, b0.bits, nendb0;
    }
    ghost var run := if anew && m.option == 0 && ktotal + 1 < |ic| then nendb else ktotal;
    nendb := Max(nendb, Min(ktotal + lminpk, |ic|));
    nendb := NoSmallRest(nendb, |ic|, lminpk);
    assert EndsBehind(|ic|, lminpk, ktotal, run, nendb);
    var r := Scan(ic, m, mstart, nendb, e, true);
    if anew {
      ScanFromNothing(ic, m, r, mstart, nendb);
    } else {
      ScanFurther(ic, m, b0, r, from0, nendb0, ktotal, nendb);
    }
    ok, b := Settle(ic, m, r, ibitbs, ktotal, nendb);
  }

  lemma ScanFurther(ic: seq<int>, m: Marks, b0: Window, r: Extremes, from0: nat, nendb0: nat, from: nat, to: nat)
    requires InRange(ic, m) && Ok(ic, m, b0, from0, nendb0) && from0 <= from <= to <= |ic|
    requires Extends(ic, m, b0.e, r, nendb0, to)
    ensures r.min != MALLOW && Bounds(ic, m, r)
    ensures forall k :: from <= k < to && !m.Missing(ic[k]) ==> r.min <= ic[k] <= r.max
  {
    Pow2Of30();
  }

  /** `v` is an extreme of the window or a value of `ic[from..to]`. */
  ghost predicate OneOf(ic: seq<int>, m: Marks, w: Window, v: int, from: int, to: int) {
    || (!w.missing && (v == w.e.min || v == w.e.max))
    || exists k :: 0 <= k < |ic| && from <= k < to && ic[k] == v && !m.Missing(v)
  }

  /** The window cannot take the values of `ic[from..to]` in its width. */
  ghost predicate TooFar(ic: seq<int>, m: Marks, w: Window, from: int, to: int) {
    exists lo, hi ::
      OneOf(ic, m, w, lo, from, to) && OneOf(ic, m, w, hi, from, to) && hi - lo >= Pow2(w.bits) - m.option
  }

  /** The window `c` is `w` with the values of `ic[from..to]`, in the same width. */
  ghost predicate Joined(ic: seq<int>, m: Marks, w: Window, c: Window, from: int, to: int) {
    && c.bits == w.bits && (c.missing ==> w.missing && AllMissing(ic, m, from, to))
    && (!c.missing ==>
      && OneOf(ic, m, w, c.e.min, from, to) && OneOf(ic, m, w, c.e.max, from, to)
      && (!w.missing ==> c.e.min <= w.e.min && w.e.max <= c.e.max)
      && c.e.max - c.e.min < Pow2(w.bits) - m.option)
  }

  /** Group C: group A with the next points, if they fit in its width (lines 1023-1156). */
  method AddToA(ic: seq<int>, m: Marks, a: Window, ghost kstart: nat, ktotal: nat, kinc: nat)
    returns (added: bool, c: Window, nount: nat)
    requires m.Valid() && InRange(ic, m) && ktotal < |ic| && kinc >= 1 && Ok(ic, m, a, kstart, ktotal)
    ensures nount == Min(kinc, |ic| - ktotal)
    ensures added ==> Ok(ic, m, c, kstart, ktotal + nount) && c.bits == a.bits
    ensures added ==> Joined(ic, m, a, c, ktotal, ktotal + nount)
    ensures !added ==> TooFar(ic, m, a, ktotal, ktotal + nount)
  {
    hide Pow2;
    var e := Before(a);
    var to := Min(ktotal + kinc, |ic|);
    nount := to - ktotal;
    var r := Scan(ic, m, ktotal, to, e, false);
    if r.min == MALLOW {
      c := a.(missing := true);
      MissingAdded(ic, m, a, r, kstart, ktotal, to);
      return true, c, nount;
    }
    WidenedIs(ic, m, a, r, kstart, ktotal, to);
    c := Window(r, false, a.bits);
    if r.max - r.min >= Pow2(a.bits) - m.option {
      assert TooFar(ic, m, a, ktotal, to);
      return false, c, nount;
    }
    PointsAdded(ic, m, a, r, kstart, ktotal, to);
    added := true;
  }

  /** Where the extremes of group C come from. */
  lemma WidenedIs(ic: seq<int>, m: Marks, a: Window, r: Extremes, kstart: nat, ktotal: nat, to: nat)
    requires InRange(ic, m) && Ok(ic, m, a, kstart, ktotal) && ktotal <= to <= |ic|
    requires Extends(ic, m, Before(a), r, ktotal, to) && r.min != MALLOW
    ensures OneOf(ic, m, a, r.min, ktotal, to) && OneOf(ic, m, a, r.max, ktotal, to)
    ensures !a.missing ==> r.min <= a.e.min && a.e.max <= r.max
  {
    hide Pow2;
    if a.missing {
      ScanFromNothing(ic, m, r, ktotal, to);
      assert ic[r.minAt - 1] == r.min && ic[r.maxAt - 1] == r.max;
    } else {
      if r.min != a.e.min { assert ic[r.minAt - 1] == r.min; }
      if r.max != a.e.max { assert ic[r.maxAt - 1] == r.max; }
    }
  }

  /** The extremes that the scan for group C starts from. */
  function Before(a: Window): Extremes {
    if a.missing then NOTHING_SEEN else Extremes(a.e.min, a.e.max, a.e.minAt, a.e.minAt)
  }

  lemma MissingAdded(ic: seq<int>, m: Marks, a: Window, r: Extremes, kstart: nat, ktotal: nat, to: nat)
    requires InRange(ic, m) && Ok(ic, m, a, kstart, ktotal) && ktotal <= to <= |ic|
    requires Extends(ic, m, Before(a), r, ktotal, to)
    requires r.min == MALLOW
    ensures a.missing && Ok(ic, m, a, kstart, to) && AllMissing(ic, m, ktotal, to)
  {
    Pow2Of30();
    ScanFromNothing(ic, m, r, ktotal, to);
  }

  lemma PointsAdded(ic: seq<int>, m: Marks, a: Window, r: Extremes, kstart: nat, ktotal: nat, to: nat)
    requires InRange(ic, m) && Ok(ic, m, a, kstart, ktotal) && ktotal <= to <= |ic|
    requires Extends(ic, m, Before(a), r, ktotal, to)
    requires r.min != MALLOW && r.max - r.min < Pow2(a.bits) - m.option
    ensures Ok(ic, m, Window(r, false, a.bits), kstart, to)
  {
    Pow2Of30();
    if a.missing {
      ScanFromNothing(ic, m, r, ktotal, to);
    }
  }

  /** The value at place `k` is there, and the window cannot take it in its width. */
  ghost predicate Misfit(ic: seq<int>, m: Marks, w: Window, k: nat) {
    k < |ic| && !m.Missing(ic[k]) && Max(w.e.max, ic[k]) - Min(w.e.min, ic[k]) >= Pow2(w.bits) - m.option
  }

  /** The window `w` is `w0` with the values of `ic[from..to]` in front, in the same width. */
  ghost predicate MovedInto(ic: seq<int>, m: Marks, w0: Window, w: Window, from: int, to: int) {
    && w.bits == w0.bits && (w.missing <==> w0.missing && AllMissing(ic, m, from, to))
    && (w.e.min == w0.e.min || exists k :: 0 <= k < |ic| && from <= k < to && ic[k] == w.e.min && !m.Missing(ic[k]))
    && (w.e.max == w0.e.max || exists k :: 0 <= k < |ic| && from <= k < to && ic[k] == w.e.max && !m.Missing(ic[k]))
  }

  /** Moves points from the end of group A to the front of group B while they fit in the
      width of B (lines 795-892). */
  method LookBack(ic: seq<int>, m: Marks, b0: Window, kstart: nat, ktotal: nat, nendb: nat)
    returns (b: Window, kounta: nat)
    requires m.Valid() && InRange(ic, m) && kstart <= ktotal <= nendb <= |ic| && Ok(ic, m, b0, ktotal, nendb)
    ensures kounta <= ktotal - kstart && b.bits == b0.bits
    ensures Ok(ic, m, b, kstart + kounta, nendb)
    // it stops only at a value that does not fit
    ensures kounta > 0 ==> Misfit(ic, m, b, kstart + kounta - 1)
    ensures MovedInto(ic, m, b0, b, kstart + kounta, ktotal)
  {
    hide Pow2, Ok;
    b := b0;
    kounta := ktotal - kstart;
    var k := ktotal;
    while k > kstart
      invariant kstart <= k && kounta == k - kstart && b.bits == b0.bits
      invariant Ok(ic, m, b, k, nendb) && k <= ktotal && MovedInto(ic, m, b0, b, k, ktotal)
    {
      var v := ic[k - 1];
      if !m.Missing(v) {
        OkOrder(ic, m, b, k, nendb);
        var tst := b.e;
        if v < b.e.min {
          tst := tst.(min := v, minAt := k);
        } else if v > b.e.max {
          tst := tst.(max := v, maxAt := k);
        }
        if tst.max - tst.min >= Pow2(b.bits) - m.option {
          return;
        }
        PointMoved(ic, m, b, tst, k, nendb);
        b := Window(tst, false, b.bits);
      } else {
        MissingMoved(ic, m, b, k, nendb);
      }
      kounta := kounta - 1;
      k := k - 1;
    }
  }

  lemma OkOrder(ic: seq<int>, m: Marks, w: Window, from: int, to: int)
    requires Ok(ic, m, w, from, to)
    ensures w.e.min <= w.e.max
  {
  }

  lemma PointMoved(ic: seq<int>, m: Marks, b: Window, tst: Extremes, k: nat, nendb: nat)
    requires InRange(ic, m) && 0 < k <= nendb <= |ic| && Ok(ic, m, b, k, nendb) && !m.Missing(ic[k - 1])
    requires tst.min == Min(b.e.min, ic[k - 1]) && tst.max == Max(b.e.max, ic[k - 1])
    requires tst.max - tst.min < Pow2(b.bits) - m.option
    ensures Ok(ic, m, Window(tst, false, b.bits), k - 1, nendb)
  {
    hide Pow2;
  }

  lemma MissingMoved(ic: seq<int>, m: Marks, b: Window, k: nat, nendb: nat)
    requires 0 < k <= nendb <= |ic| && Ok(ic, m, b, k, nendb) && m.Missing(ic[k - 1])
    ensures Ok(ic, m, b, k - 1, nendb)
  {
    hide Pow2;
  }

  /** The window of what is left of group A: the old one, when its extremes were seen before
      the last point that is left, and otherwise an exact one. */
  ghost predicate Shrunk(ic: seq<int>, m: Marks, a0: Window, a: Window, from: nat, to: nat) {
    if to > a0.e.minAt && to > a0.e.maxAt then a == a0 else Snug(ic, m, a, from, to)
  }

  /** Group A after points went to group B (lines 901-1012). */
  method ShrinkA(ic: seq<int>, m: Marks, a0: Window, kstart: nat, nenda: nat, nouta: nat) returns (ok: bool, a: Window)
    requires m.Valid() && InRange(ic, m) && kstart + nouta <= nenda <= |ic| && Ok(ic, m, a0, kstart, nenda)
    ensures ok ==> Ok(ic, m, a, kstart, nenda - nouta) && (a0.bits <= 30 ==> a.bits <= 30)
    ensures ok ==> Shrunk(ic, m, a0, a, kstart, nenda - nouta)
    ensures Narrow(ic, m) ==> ok
  {
    if nenda - nouta > a0.e.minAt && nenda - nouta > a0.e.maxAt {
      return true, a0;
    }
    var e := Scan(ic, m, kstart, nenda - nouta, NOTHING_SEEN, false);
    ScanFromNothing(ic, m, e, kstart, nenda - nouta);
    ok, a := Settle(ic, m, e, 0, kstart, nenda - nouta);
  }

  /** When group B takes over every point of a tight group A, it is at least as wide. */
  lemma TightStays(ic: seq<int>, m: Marks, a: Window, b: Window, kstart: nat, ktotal: nat, nendb: nat)
    requires m.Valid() && Ok(ic, m, a, kstart, ktotal) && Tight(ic, m, a, kstart, ktotal)
    requires Ok(ic, m, b, kstart, nendb) && ktotal <= nendb
    ensures b.bits >= a.bits
  {
    if b.bits < a.bits {
      if m.option == 2 && a.bits <= 2 {
        assert Pow2(1) == 2;
        Pow2Mono(b.bits, 1);
      } else {
        var lo, hi := a.e.minAt - 1, a.e.maxAt - 1;
        assert kstart <= lo < nendb && kstart <= hi < nendb;
        assert b.e.min <= ic[lo] <= b.e.max && b.e.min <= ic[hi] <= b.e.max;
        Pow2Mono(b.bits, a.bits - 1);
      }
    }
  }

  // ---- how one group comes about ----

  /** Group A is `a` and ends at place `at`, group B behind it is `b` and ends at `end`; `kinc`
      points are taken at once. */
  datatype Look = Look(at: nat, a: Window, kinc: nat, b: Window, end: nat)

  /** The extremes of group B lie behind place `at`, so that it need not be looked at anew. */
  predicate Behind(looks: seq<Look>, at: int) {
    looks != [] && looks[|looks| - 1].b.e.minAt > at && looks[|looks| - 1].b.e.maxAt > at
  }

  /** Group B of a look, anew or from that of the look before. */
  ghost predicate Looked(ic: seq<int>, m: Marks, lminpk: nat, before: seq<Look>, l: Look) {
    if Behind(before, l.at) then
      var b0, end0 := before[|before| - 1].b, before[|before| - 1].end;
      && NextEnd(ic, m, lminpk, l.at, l.end, false) && Widens(ic, m, b0, l.b, end0, l.end)
      && (!l.b.missing ==> SeenWhere(ic, m, l.b.e, end0, l.end, true))
    else
      && NextEnd(ic, m, lminpk, l.at, l.end, m.option == 0) && Snug(ic, m, l.b, l.at, l.end)
      && (!l.b.missing ==> SeenWhere(ic, m, l.b.e, l.at, l.end, true))
  }

  /** How many points are taken at once: all the rest when at most lminpk/2 would be left over. */
  function Taken(n: int, lminpk: nat, at: int, kinc: nat): int {
    if n - (at + kinc) <= lminpk / 2 then n - at else kinc
  }

  /** From `a0`, which ends at `start`, group A has grown to `a`, which ends at `at`: at every
      look group B was at least as wide, and the next points fitted. */
  ghost predicate Grew(ic: seq<int>, m: Marks, lminpk: nat, start: nat, a0: Window, kinc0: nat, looks: seq<Look>,
                       at: nat, a: Window, kinc: nat)
    decreases |looks|
  {
    if looks == [] then at == start && a == a0 && kinc == kinc0
    else
      var front, l := looks[..|looks| - 1], looks[|looks| - 1];
      && Grew(ic, m, lminpk, start, a0, kinc0, front, l.at, l.a, l.kinc)
      && Looked(ic, m, lminpk, front, l) && l.b.bits >= l.a.bits
      && kinc == Taken(|ic|, lminpk, l.at, l.kinc) && at == l.at + Min(kinc, |ic| - l.at)
      && Joined(ic, m, l.a, a, l.at, at)
  }

  /** One closed group: group A started as `a0` over `ic[from..start]` and was closed as `a`
      over `ic[from..to]`, with group B `b` behind it up to `end`. */
  datatype Closing = Closing(from: nat, start: nat, a0: Window, kinc0: nat, looks: seq<Look>,
                             a: Window, to: nat, b: Window, end: nat, kinc: nat)

  /** Why it was closed there: the data are used up; or group B is at least as wide and the
      next points do not fit in group A; or group B is narrower, and group A has grown, or
      gave group B all points from its end that fit in the width of B. */
  ghost predicate ClosedAs(ic: seq<int>, m: Marks, lminpk: nat, c: Closing) {
    if c.to == |ic| then Grew(ic, m, lminpk, c.start, c.a0, c.kinc0, c.looks, c.to, c.a, c.kinc)
    else
      c.looks != [] &&
      var front, l := c.looks[..|c.looks| - 1], c.looks[|c.looks| - 1];
      && Grew(ic, m, lminpk, c.start, c.a0, c.kinc0, front, l.at, l.a, l.kinc) && Looked(ic, m, lminpk, front, l)
      && c.end == l.end
      && if l.b.bits >= l.a.bits then Full(ic, m, lminpk, c, l)
         else if front != [] then c.to == l.at && c.a == l.a && c.b == l.b && c.kinc == l.kinc
         else GaveBack(ic, m, c, l)
  }

  ghost predicate Full(ic: seq<int>, m: Marks, lminpk: nat, c: Closing, l: Look) {
    && c.to == l.at && c.a == l.a && c.b == l.b && c.kinc == Taken(|ic|, lminpk, l.at, l.kinc)
    && TooFar(ic, m, c.a, c.to, c.to + Min(c.kinc, |ic| - c.to))
  }

  ghost predicate GaveBack(ic: seq<int>, m: Marks, c: Closing, l: Look) {
    && c.from <= c.to <= l.at && c.kinc == l.kinc && MovedInto(ic, m, l.b, c.b, c.to, l.at)
    && (c.to > c.from ==> Misfit(ic, m, c.b, c.to - 1))
    && if c.to == l.at then c.a == l.a else Shrunk(ic, m, l.a, c.a, c.from, c.to)
  }

  /** The last look, with group A as it is then. */
  ghost predicate LastLook(ic: seq<int>, m: Marks, lminpk: nat, start: nat, a0: Window, kinc0: nat, looks: seq<Look>,
                           at: nat, a: Window, kinc: nat, b: Window, end: nat) {
    looks != [] &&
    var front, l := looks[..|looks| - 1], looks[|looks| - 1];
    && l == Look(at, a, kinc, b, end)
    && Grew(ic, m, lminpk, start, a0, kinc0, front, at, a, kinc) && Looked(ic, m, lminpk, front, l)
  }

  /** Adds points to group A while group B is at least as wide and they fit (from label 133 to
      the comparison behind label 170, and from label 180 to label 195). */
  method GrowA(ic: seq<int>, m: Marks, kstart: nat, nenda: nat, a0: Window, lminpk: nat, kinc0: nat)
    returns (ok: bool, a: Window, ktotal: nat, b: Window, nendb: nat, kinc: nat, adda: bool, ghost looks: seq<Look>,
             ghost kincL: nat)
    requires m.Valid() && InRange(ic, m) && lminpk >= 2 && kinc0 >= 1
    requires kstart < nenda < |ic| && Ok(ic, m, a0, kstart, nenda) && a0.bits <= 30
    ensures kinc >= 1 && (Narrow(ic, m) ==> ok)
    ensures nenda <= ktotal <= |ic| && (ok ==> Ok(ic, m, a, kstart, ktotal) && a.bits == a0.bits)
    ensures ok && ktotal == |ic| ==> Grew(ic, m, lminpk, nenda, a0, kinc0, looks, ktotal, a, kinc)
    ensures ok && ktotal < |ic| ==>
      && ktotal < nendb <= |ic| && Ok(ic, m, b, ktotal, nendb) && b.bits <= 30 && adda == (|looks| > 1)
      && LastLook(ic, m, lminpk, nenda, a0, kinc0, looks, ktotal, a, kincL, b, nendb)
    ensures ok && ktotal < |ic| && b.bits >= a.bits ==>
      && kinc == Taken(|ic|, lminpk, ktotal, kincL) && TooFar(ic, m, a, ktotal, ktotal + Min(kinc, |ic| - ktotal))
    ensures ok && ktotal < |ic| && b.bits < a.bits ==> kinc == kincL && (!adda ==> a == a0 && ktotal == nenda)
  {
    hide Pow2, Ok, Narrow, InRange, Looked, Grew, NextEnd, Snug, Widens, SeenWhere, Joined, TooFar;
    a, b, kinc, ktotal, nendb, adda, looks, kincL := a0, a0, kinc0, nenda, nenda, false, [], kinc0;
    GrewNothing(ic, m, lminpk, nenda, a0, kinc0);
    var anew := true;
    ghost var from: nat := ktotal;
    while true
      invariant nenda <= ktotal < |ic| && kinc >= 1 && Ok(ic, m, a, kstart, ktotal) && a.bits == a0.bits
      invariant !anew ==> Ok(ic, m, b, from, nendb) && from <= ktotal && b.bits <= 30
      invariant !adda ==> a == a0 && ktotal == nenda
      invariant adda == (looks != []) && anew == !Behind(looks, ktotal)
      invariant looks != [] ==> b == looks[|looks| - 1].b && nendb == looks[|looks| - 1].end
      invariant Grew(ic, m, lminpk, nenda, a0, kinc0, looks, ktotal, a, kinc)
      decreases |ic| - ktotal
    {
      ghost var before := looks;
      ok, b, nendb := GroupB(ic, m, ktotal, lminpk, anew, b, nendb, from);
      from := ktotal;
      if !ok { return; }
      ghost var l := Look(ktotal, a, kinc, b, nendb);
      IsLooked(ic, m, lminpk, before, l);
      looks, kincL := before + [l], kinc;
      assert looks[..|looks| - 1] == before;
      if b.bits < a.bits { return; }
      if |ic| - (ktotal + kinc) <= lminpk / 2 {
        kinc := |ic| - ktotal;
      }
      var added, c, nount := AddToA(ic, m, a, kstart, ktotal, kinc);
      if !added { return; }
      a, ktotal, adda := c, ktotal + nount, true;
      GrewMore(ic, m, lminpk, nenda, a0, kinc0, before, l, ktotal, a, kinc);
      if ktotal >= |ic| { return; }
      anew := !(b.e.minAt > ktotal && b.e.maxAt > ktotal);
    }
  }

  /** Grows, shrinks and closes one group A (from label 133 to label 200).  On return group A
      is `ic[kstart..ktotal]`, and group B follows it unless the data are used up.  A group A
      without points comes only with a narrower group B, and never as the first group. */
  method CloseGroup(ic: seq<int>, m: Marks, kstart: nat, nenda: nat, a0: Window, lminpk: nat, kinc0: nat)
    returns (ok: bool, a: Window, ktotal: nat, kounta: nat, b: Window, nendb: nat, kinc: nat, ghost looks: seq<Look>)
    requires m.Valid() && InRange(ic, m) && lminpk >= 2 && kinc0 >= 1
    requires kstart < nenda <= |ic| && Ok(ic, m, a0, kstart, nenda) && a0.bits <= 30
    requires kstart == 0 ==> Tight(ic, m, a0, kstart, nenda)
    ensures kinc >= 1 && (Narrow(ic, m) ==> ok)
    ensures ok ==> ktotal == kstart + kounta <= |ic| && Ok(ic, m, a, kstart, ktotal) && a.bits <= 30
    ensures ok && ktotal < |ic| ==> ktotal < nendb <= |ic| && Ok(ic, m, b, ktotal, nendb) && b.bits <= 30
    ensures ok && kounta == 0 ==> 0 < kstart && ktotal < |ic| && b.bits < a0.bits
    ensures nenda == |ic| ==> ok && ktotal == nenda && kinc == kinc0
    ensures ok ==> ClosedAs(ic, m, lminpk, Closing(kstart, nenda, a0, kinc0, looks, a, ktotal, b, nendb, kinc))
  {
    hide Pow2, Ok, Narrow, InRange, Tight, Looked, Grew, TooFar, Misfit, MovedInto, Shrunk;
    a, b, kinc, ktotal, kounta, nendb, looks := a0, a0, kinc0, nenda, nenda - kstart, nenda, [];
    GrewNothing(ic, m, lminpk, nenda, a0, kinc0);
    if ktotal >= |ic| { return true, a, ktotal, kounta, b, nendb, kinc, looks; }
    var adda;
    ghost var kincL;
    ok, a, ktotal, b, nendb, kinc, adda, looks, kincL := GrowA(ic, m, kstart, nenda, a0, lminpk, kinc0);
    kounta := ktotal - kstart;
    if !ok || ktotal >= |ic| || b.bits >= a.bits || adda { return; }
    var kounts := kounta;
    b, kounta := LookBack(ic, m, b, kstart, ktotal, nendb);
    if kounta != kounts {
      if kstart == 0 && kounta == 0 {
        TightStays(ic, m, a, b, kstart, ktotal, nendb);
      }
      var nouta := kounts - kounta;
      ktotal := ktotal - nouta;
      ok, a := ShrinkA(ic, m, a, kstart, nenda, nouta);
    }
  }

  lemma GrewNothing(ic: seq<int>, m: Marks, lminpk: nat, start: nat, a0: Window, kinc0: nat)
    ensures Grew(ic, m, lminpk, start, a0, kinc0, [], start, a0, kinc0)
  {
  }

  lemma GrewMore(ic: seq<int>, m: Marks, lminpk: nat, start: nat, a0: Window, kinc0: nat, front: seq<Look>, l: Look,
                 at: nat, a: Window, kinc: nat)
    requires Grew(ic, m, lminpk, start, a0, kinc0, front, l.at, l.a, l.kinc) && Looked(ic, m, lminpk, front, l)
    requires l.b.bits >= l.a.bits && kinc == Taken(|ic|, lminpk, l.at, l.kinc)
    requires at == l.at + Min(kinc, |ic| - l.at) && Joined(ic, m, l.a, a, l.at, at)
    ensures Grew(ic, m, lminpk, start, a0, kinc0, front + [l], at, a, kinc)
  {
    hide Looked, Joined;
    assert (front + [l])[..|front|] == front;
  }

  lemma IsLooked(ic: seq<int>, m: Marks, lminpk: nat, before: seq<Look>, l: Look)
    requires if Behind(before, l.at) then
        && NextEnd(ic, m, lminpk, l.at, l.end, false)
        && Widens(ic, m, before[|before| - 1].b, l.b, before[|before| - 1].end, l.end)
        && (!l.b.missing ==> SeenWhere(ic, m, l.b.e, before[|before| - 1].end, l.end, true))
      else
        && NextEnd(ic, m, lminpk, l.at, l.end, m.option == 0) && Snug(ic, m, l.b, l.at, l.end)
        && (!l.b.missing ==> SeenWhere(ic, m, l.b.e, l.at, l.end, true))
    ensures Looked(ic, m, lminpk, before, l)
  {
    hide NextEnd, Widens, Snug, SeenWhere;
  }

  datatype Status = Done | TooManyGroups | TooWide

  /** The invariant of the table of closed groups. */
  ghost predicate Closed(ic: seq<int>, m: Marks, t: Table, lx: nat, kstart: int)
    requires t.Valid() && lx <= |t.jmin|
  {
    && Covers(ic, m, t.Groups(0, lx, 0, 0), 0, kstart)
    && forall l :: 0 <= l < lx ==>
      && -1073741824 <= t.jmin[l] < 1073741824 && 0 <= t.lbit[l] <= 30 && 0 <= t.nov[l] <= |ic|
      && (Narrow(ic, m) ==> 0 <= t.jmin[l])
  }

  lemma ClosedNone(ic: seq<int>, m: Marks, t: Table)
    requires t.Valid()
    ensures Closed(ic, m, t, 0, 0)
  {
  }

  lemma CloseOne(ic: seq<int>, m: Marks, t: Table, lx: nat, a: Window, kstart: nat, ktotal: nat)
    requires t.Valid() && lx < |t.jmin| && Closed(ic, m, t, lx, kstart)
    requires kstart <= ktotal <= |ic| && Ok(ic, m, a, kstart, ktotal) && a.bits <= 30
    ensures var u := Table(t.jmin[lx := a.e.min], t.jmax[lx := a.e.max], t.lbit[lx := a.bits],
      t.nov[lx := ktotal - kstart]);
      Closed(ic, m, u, lx + 1, ktotal)
  {
    var u := Table(t.jmin[lx := a.e.min], t.jmax[lx := a.e.max], t.lbit[lx := a.bits], t.nov[lx := ktotal - kstart]);
    var g := Group(a.e.min, a.e.max, a.bits, ktotal - kstart);
    CoversOne(ic, m, g, kstart);
    CoversConcat(ic, m, t.Groups(0, lx, 0, 0), [g], 0, kstart, ktotal);
    assert u.Groups(0, lx + 1, 0, 0) == t.Groups(0, lx, 0, 0) + [g];
  }

  // ---- one run ----

  /** Group A starts as the first group, or as group B of the closing before. */
  ghost predicate Linked(ic: seq<int>, m: Marks, lminpk: nat, front: seq<Closing>, c: Closing)
    requires lminpk >= 2 && |ic| >= 1
  {
    if front == [] then
      && FirstEnd(ic, m, lminpk, c.start) && Snug(ic, m, c.a0, 0, c.start)
      && (!c.a0.missing ==> SeenWhere(ic, m, c.a0.e, 0, c.start, false))
    else c.a0 == front[|front| - 1].b && c.start == front[|front| - 1].end
  }

  /** The groups that are closed one after the other, up to place `to`. */
  ghost predicate Traced(ic: seq<int>, m: Marks, lminpk: nat, kinc0: nat, trace: seq<Closing>, to: nat, kinc: nat)
    requires lminpk >= 2 && |ic| >= 1
    decreases |trace|
  {
    if trace == [] then to == 0 && kinc == kinc0
    else
      var front, c := trace[..|trace| - 1], trace[|trace| - 1];
      && Traced(ic, m, lminpk, kinc0, front, c.from, c.kinc0) && c.from < |ic|
      && Linked(ic, m, lminpk, front, c) && ClosedAs(ic, m, lminpk, c) && to == c.to && kinc == c.kinc
  }

  lemma TracedMore(ic: seq<int>, m: Marks, lminpk: nat, kinc0: nat, trace: seq<Closing>, c: Closing)
    requires lminpk >= 2 && |ic| >= 1
    requires Traced(ic, m, lminpk, kinc0, trace, c.from, c.kinc0) && c.from < |ic|
    requires Linked(ic, m, lminpk, trace, c) && ClosedAs(ic, m, lminpk, c)
    ensures Traced(ic, m, lminpk, kinc0, trace + [c], c.to, c.kinc)
  {
    hide Linked, ClosedAs;
    assert (trace + [c])[..|trace|] == trace;
  }

  /** The missing value that is noted for a group without values. */
  function MissOf(ic: seq<int>, c: Closing): int {
    if c.a.missing && 0 < c.to <= |ic| then ic[c.to - 1] else MALLOW
  }

  /** The table holds the closed groups. */
  ghost predicate Recorded(ic: seq<int>, trace: seq<Closing>, t: Table, misslx: seq<int>)
    requires t.Valid()
  {
    && |trace| <= |t.jmin| && |misslx| == |trace|
    && forall l :: 0 <= l < |trace| ==>
      && t.jmin[l] == trace[l].a.e.min && t.jmax[l] == trace[l].a.e.max && t.lbit[l] == trace[l].a.bits
      && t.nov[l] == trace[l].to - trace[l].from && misslx[l] == MissOf(ic, trace[l])
  }

  lemma RecordedMore(ic: seq<int>, trace: seq<Closing>, t: Table, misslx: seq<int>, c: Closing, miss: int)
    requires t.Valid() && Recorded(ic, trace, t, misslx) && |trace| < |t.jmin| && miss == MissOf(ic, c)
    ensures var lx, a := |trace|, c.a;
      var u := Table(t.jmin[lx := a.e.min], t.jmax[lx := a.e.max], t.lbit[lx := a.bits], t.nov[lx := c.to - c.from]);
      Recorded(ic, trace + [c], u, misslx + [miss])
  {
  }

  /** One run of the algorithm for a given least group size (from label 105 to label 209). */
  method Partition(ic: seq<int>, m: Marks, lminpk: nat, ndg: nat, kinc0: nat,
                   jmin: array<int>, jmax: array<int>, lbit: array<int>, nov: array<int>)
    returns (status: Status, lx: nat, misslx: seq<int>, kinc: nat, ghost trace: seq<Closing>)
    requires m.Valid() && InRange(ic, m) && |ic| >= 1 && lminpk >= 2 && kinc0 >= 1
    requires Separate(jmin, jmax, lbit, nov) && 1 <= ndg <= jmin.Length
    modifies jmin, jmax, lbit, nov
    ensures kinc >= 1 && (Narrow(ic, m) ==> status != TooWide)
    ensures status == TooManyGroups ==> lminpk < |ic|
    ensures status == Done ==> 1 <= lx <= ndg && |misslx| == lx && Closed(ic, m, Now(jmin, jmax, lbit, nov), lx, |ic|)
    ensures status == Done ==> 0 < nov[lx - 1]
    // the groups of the table are those that were closed one after the other
    ensures status == Done ==> |trace| == lx && Recorded(ic, trace, Now(jmin, jmax, lbit, nov), misslx)
    ensures status == Done ==> Traced(ic, m, lminpk, kinc0, trace, |ic|, kinc)
    ensures status == TooManyGroups ==>
      |trace| == ndg + 1 && exists to: nat :: Traced(ic, m, lminpk, kinc0, trace, to, kinc)
  {
    hide Pow2, Ok, Narrow, InRange, Tight, Covers, Closed, Traced, ClosedAs, Snug, SeenWhere, FirstEnd, Recorded,
      MissOf;
    lx, misslx, kinc, trace := 0, [], kinc0, [];
    NothingTraced(ic, m, lminpk, kinc0, Now(jmin, jmax, lbit, nov));
    var kstart: nat := 0;
    ClosedNone(ic, m, Now(jmin, jmax, lbit, nov));
    var ok, a, nenda := FirstGroup(ic, m, lminpk);
    if !ok { status := TooWide; return; }
    while true
      invariant 0 <= lx <= ndg && |misslx| == lx && kinc >= 1 && (lx == 0 <==> kstart == 0)
      invariant kstart < nenda <= |ic| && Ok(ic, m, a, kstart, nenda) && a.bits <= 30
      invariant kstart == 0 ==> Tight(ic, m, a, kstart, nenda)
      invariant lminpk >= |ic| ==> nenda == |ic| && lx == 0
      invariant Closed(ic, m, Now(jmin, jmax, lbit, nov), lx, kstart)
      invariant |trace| == lx && Recorded(ic, trace, Now(jmin, jmax, lbit, nov), misslx)
      invariant Traced(ic, m, lminpk, kinc0, trace, kstart, kinc)
      invariant if lx == 0 then
          FirstEnd(ic, m, lminpk, nenda) && Snug(ic, m, a, 0, nenda)
          && (!a.missing ==> SeenWhere(ic, m, a.e, 0, nenda, false))
        else a == trace[lx - 1].b && nenda == trace[lx - 1].end
      decreases |ic| - kstart, a.bits
    {
      ghost var a0, start, kincA := a, nenda, kinc;
      var ktotal, kounta, b, nendb;
      ghost var looks;
      ok, a, ktotal, kounta, b, nendb, kinc, looks := CloseGroup(ic, m, kstart, nenda, a, lminpk, kinc);
      if !ok { status := TooWide; return; }
      ghost var c := Closing(kstart, start, a0, kincA, looks, a, ktotal, b, nendb, kinc);
      TracedMore(ic, m, lminpk, kinc0, trace, c);
      trace := trace + [c];
      if lx + 1 > ndg { status := TooManyGroups; return; }
      CloseOne(ic, m, Now(jmin, jmax, lbit, nov), lx, a, kstart, ktotal);
      MissIs(ic, c);
      RecordedMore(ic, trace[..lx], Now(jmin, jmax, lbit, nov), misslx, c, MissOf(ic, c));
      SetEntry(jmin, jmax, lbit, nov, lx, Group(a.e.min, a.e.max, a.bits, kounta));
      misslx := misslx + [if a.missing then ic[ktotal - 1] else MALLOW];
      lx := lx + 1;
      kstart := ktotal;
      if ktotal >= |ic| { status := Done; return; }
      a, nenda := b, nendb;
    }
  }

  lemma NothingTraced(ic: seq<int>, m: Marks, lminpk: nat, kinc0: nat, t: Table)
    requires lminpk >= 2 && |ic| >= 1 && t.Valid()
    ensures Traced(ic, m, lminpk, kinc0, [], 0, kinc0) && Recorded(ic, [], t, [])
  {
  }

  lemma MissIs(ic: seq<int>, c: Closing)
    requires 0 < c.to <= |ic|
    ensures MissOf(ic, c) == if c.a.missing then ic[c.to - 1] else MALLOW
  {
  }

  /** The least entry and the width that holds what remains above it (lines 1293-1395). */
  method RemoveReference(a: array<int>, lx: nat, most: int) returns (ref: int, width: nat)
    requires 1 <= lx <= a.Length && 0 <= most < Pow2(30)
    requires forall k :: 0 <= k < lx ==> 0 <= a[k] <= most
    modifies a
    ensures 0 <= ref && width <= 30
    ensures forall k :: 0 <= k < a.Length ==> a[k] == if k < lx then old(a[k]) - ref else old(a[k])
    ensures forall k :: 0 <= k < lx ==> 0 <= a[k] < Pow2(width)
    ensures exists k :: 0 <= k < lx && a[k] == 0
    ensures width > 0 ==> exists k :: 0 <= k < lx && a[k] >= Pow2(width - 1)
  {
    hide Pow2;
    ref := a[0];
    ghost var at := 0;
    for k := 0 to lx
      invariant 0 <= at < lx && ref == a[at] && forall i :: 0 <= i < k ==> ref <= a[i]
    {
      if a[k] < ref {
        ref, at := a[k], k;
      }
    }
    for k := 0 to lx
      invariant forall i :: 0 <= i < a.Length ==> a[i] == if i < k then old(a[i]) - ref else old(a[i])
    {
      a[k] := a[k] - ref;
    }
    assert a[at] == 0;
    width := WidthOf(a, lx, most);
  }

  /** The least width that holds the first `lx` entries. */
  method WidthOf(a: array<int>, lx: nat, most: int) returns (width: nat)
    requires lx <= a.Length && most < Pow2(30)
    requires forall k :: 0 <= k < lx ==> a[k] <= most
    ensures width <= 30 && forall k :: 0 <= k < lx ==> a[k] < Pow2(width)
    ensures width > 0 ==> exists k :: 0 <= k < lx && a[k] >= Pow2(width - 1)
  {
    hide Pow2;
    width := 0;
    for l := 0 to lx
      invariant width <= 30 && forall k :: 0 <= k < l ==> a[k] < Pow2(width)
      invariant width > 0 ==> exists k :: 0 <= k < l && a[k] >= Pow2(width - 1)
    {
      assert a[l] <= most;
      while a[l] >= Pow2(width)
        invariant width <= 30 && forall k :: 0 <= k < l ==> a[k] < Pow2(width)
        invariant width > 0 ==> exists k :: 0 <= k <= l && a[k] >= Pow2(width - 1)
        decreases 30 - width
      {
        Pow2Mono(width, width + 1);
        width := width + 1;
      }
    }
  }

  /** Puts the missing value indicator in the reference of groups without values
      (lines 1260-1276). */
  method MarkMissing(ghost ic: seq<int>, m: Marks, lx: nat, misslx: seq<int>, ibit: nat,
                     jmin: array<int>, jmax: array<int>, lbit: array<int>, nov: array<int>)
    requires Separate(jmin, jmax, lbit, nov) && lx == |misslx| <= jmin.Length
    requires Closed(ic, m, Now(jmin, jmax, lbit, nov), lx, |ic|) && ibit <= 30
    requires forall l :: 0 <= l < lx ==> jmin[l] < Pow2(ibit)
    modifies jmin
    ensures Closed(ic, m, Now(jmin, jmax, lbit, nov), lx, |ic|)
    ensures forall l :: 0 <= l < lx ==> jmin[l] < Pow2(ibit)
    ensures forall l :: 0 <= l < lx ==>
      jmin[l] == if m.option == 1 && lbit[l] == 0 && misslx[l] == m.primary then Pow2(ibit) - 1 else old(jmin[l])
  {
    hide Pow2, Closed;
    Pow2Mono(ibit, 30);
    Pow2Of30();
    if m.option == 1 {
      for l := 0 to lx
        invariant Closed(ic, m, Now(jmin, jmax, lbit, nov), lx, |ic|)
        invariant forall i :: 0 <= i < lx ==> jmin[i] < Pow2(ibit)
        invariant forall i :: 0 <= i < lx ==>
          jmin[i] == if i < l && lbit[i] == 0 && misslx[i] == m.primary then Pow2(ibit) - 1 else old(jmin[i])
      {
        if lbit[l] == 0 && misslx[l] == m.primary {
          AnyReference(ic, m, Now(jmin, jmax, lbit, nov), lx, l, Pow2(ibit) - 1);
          jmin[l] := Pow2(ibit) - 1;
        }
      }
    }
  }

  /** A group of width 0 next to a reserved code holds no value, so any reference will do. */
  lemma AnyReference(ic: seq<int>, m: Marks, t: Table, lx: nat, l: nat, ref: int)
    requires t.Valid() && l < lx <= |t.jmin| && Closed(ic, m, t, lx, |ic|)
    requires m.option == 1 && t.lbit[l] == 0 && 0 <= ref < 1073741824
    ensures Closed(ic, m, t.(jmin := t.jmin[l := ref]), lx, |ic|)
  {
    var gs, g := t.Groups(0, lx, 0, 0), t.Groups(0, lx, 0, 0)[l];
    EmptyWidth(ic, m, gs, l, 0, |ic|, g.(min := ref));
    assert t.(jmin := t.jmin[l := ref]).Groups(0, lx, 0, 0) == gs[l := g.(min := ref)];
  }

  lemma {:induction false} EmptyWidth(ic: seq<int>, m: Marks, gs: seq<Group>, l: nat, from: int, to: int, g: Group)
    requires l < |gs| && Covers(ic, m, gs, from, to) && m.option == 1 && gs[l].bits == 0
    requires g.max == gs[l].max && g.bits == 0 && g.size == gs[l].size
    ensures Covers(ic, m, gs[l := g], from, to)
    decreases |gs|
  {
    var hs := gs[l := g];
    if l > 0 {
      EmptyWidth(ic, m, gs[1..], l - 1, from + gs[0].size, to, g);
      assert hs[1..] == gs[1..][l - 1 := g];
    } else {
      assert Pow2(0) == 1;
      assert hs[1..] == gs[1..];
    }
  }

  /** What the caller gets: groups that cut the data, of which the last is not empty, and
      references, widths and sizes that fit. */
  ghost predicate Packed(ic: seq<int>, m: Marks, t: Table, lx: nat, ibit: nat, jbit: nat, kbit: nat, novref: int,
                         lbitref: int)
    requires t.Valid() && lx <= |t.jmin|
  {
    && Covers(ic, m, t.Groups(0, lx, lbitref, novref), 0, |ic|)
    && 0 <= novref && 0 <= lbitref && 0 < lx && 0 < t.nov[lx - 1] + novref
    && forall l :: 0 <= l < lx ==>
      t.jmin[l] < Pow2(ibit) && 0 <= t.lbit[l] < Pow2(jbit) && 0 <= t.nov[l] < Pow2(kbit)
  }

  lemma ReduceKeeps(ic: seq<int>, m: Marks, t: Table, u: Table, lx: nat, lxn: nat, counts: seq<nat>,
                    ibit: nat, jbit: nat, kbit: nat, kbit': nat, novref: int, lbitref: int)
    requires t.Valid() && u.Valid() && lx <= |t.jmin| && lxn <= |u.jmin| && |counts| == lx
    requires Packed(ic, m, t, lx, ibit, jbit, kbit, novref, lbitref)
    requires SplitOf(t.Groups(0, lx, lbitref, novref), u.Groups(0, lxn, lbitref, novref), counts)
    requires forall l :: 0 <= l < lxn ==> 0 <= u.nov[l] < Pow2(kbit')
    ensures Packed(ic, m, u, lxn, ibit, jbit, kbit', novref, lbitref)
  {
    hide Pow2, Covers, SplitOf;
    var gs, hs := t.Groups(0, lx, lbitref, novref), u.Groups(0, lxn, lbitref, novref);
    SplitCovers(ic, m, gs, hs, counts, 0, |ic|);
    SplitKeepsLast(gs, hs, counts);
    forall l | 0 <= l < lxn ensures u.jmin[l] < Pow2(ibit) && 0 <= u.lbit[l] < Pow2(jbit) {
      var p := PieceHasParent(gs, hs, counts, l);
      assert hs[l].min == u.jmin[l] && hs[l].bits == u.lbit[l] + lbitref;
      assert gs[p].min == t.jmin[p] && gs[p].bits == t.lbit[p] + lbitref;
    }
  }

  lemma {:induction false} PieceHasParent(gs: seq<Group>, hs: seq<Group>, counts: seq<nat>, l: nat) returns (p: nat)
    requires |counts| == |gs| && SplitOf(gs, hs, counts) && l < |hs|
    ensures p < |gs| && hs[l].min == gs[p].min && hs[l].max == gs[p].max && hs[l].bits == gs[p].bits
    decreases |gs|
  {
    if l < counts[0] {
      p := 0;
      assert hs[..counts[0]][l] == hs[l];
    } else {
      var q := PieceHasParent(gs[1..], hs[counts[0]..], counts[1..], l - counts[0]);
      p := q + 1;
    }
  }

  lemma AddReferences(ic: seq<int>, m: Marks, t: Table, u: Table, lx: nat, lbitref: int, novref: int)
    requires t.Valid() && u.Valid() && lx <= |t.jmin| == |u.jmin| && Closed(ic, m, t, lx, |ic|)
    requires u.jmin == t.jmin && u.jmax == t.jmax
    requires forall l :: 0 <= l < lx ==> u.lbit[l] == t.lbit[l] - lbitref && u.nov[l] == t.nov[l] - novref
    ensures Covers(ic, m, u.Groups(0, lx, lbitref, novref), 0, |ic|)
  {
    assert u.Groups(0, lx, lbitref, novref) == t.Groups(0, lx, 0, 0);
  }

  /** A run that closed more groups than the table holds. */
  datatype Attempt = Attempt(size: nat, kinc0: nat, trace: seq<Closing>, to: nat, kinc: nat)

  /** The least size has grown from `minpk` to `size`, by half at each run that failed. */
  ghost predicate Restarted(ic: seq<int>, m: Marks, minpk: nat, inc: int, ndg: nat, fails: seq<Attempt>, size: nat,
                            kinc: nat)
    requires |ic| >= 1
    decreases |fails|
  {
    if fails == [] then size == minpk && kinc == if inc > 1 then inc else 1
    else
      var front, r := fails[..|fails| - 1], fails[|fails| - 1];
      && Restarted(ic, m, minpk, inc, ndg, front, r.size, r.kinc0)
      && r.size >= 2 && |r.trace| == ndg + 1 && Traced(ic, m, r.size, r.kinc0, r.trace, r.to, r.kinc)
      && size == r.size + r.size / 2 && kinc == r.kinc
  }

  lemma RestartedMore(ic: seq<int>, m: Marks, minpk: nat, inc: int, ndg: nat, fails: seq<Attempt>, r: Attempt)
    requires |ic| >= 1 && Restarted(ic, m, minpk, inc, ndg, fails, r.size, r.kinc0)
    requires r.size >= 2 && |r.trace| == ndg + 1 && Traced(ic, m, r.size, r.kinc0, r.trace, r.to, r.kinc)
    ensures Restarted(ic, m, minpk, inc, ndg, fails + [r], r.size + r.size / 2, r.kinc)
  {
    hide Traced;
    assert (fails + [r])[..|fails|] == fails;
  }

  /** The groups of a table come from one run, behind failed ones with smaller least sizes. */
  ghost predicate FromRuns(ic: seq<int>, m: Marks, minpk: nat, inc: int, ndg: nat, fails: seq<Attempt>,
                           trace: seq<Closing>)
    requires |ic| >= 1
  {
    exists size: nat, kinc0: nat, kinc: nat ::
      && size >= 2 && Restarted(ic, m, minpk, inc, ndg, fails, size, kinc0)
      && Traced(ic, m, size, kinc0, trace, |ic|, kinc)
  }

  /** The runs for growing least group sizes, until the groups fit in the table (labels 102-105). */
  method PartitionToFit(ic: seq<int>, m: Marks, minpk: nat, inc: int, ndg: nat, iersav0: int,
                        jmin: array<int>, jmax: array<int>, lbit: array<int>, nov: array<int>)
    returns (ok: bool, lx: nat, misslx: seq<int>, iersav: int, ghost trace: seq<Closing>, ghost fails: seq<Attempt>)
    requires m.Valid() && InRange(ic, m) && |ic| >= 1 && minpk >= 2
    requires Separate(jmin, jmax, lbit, nov) && 1 <= ndg <= jmin.Length
    modifies jmin, jmax, lbit, nov
    ensures iersav == if fails == [] then iersav0 else 716
    ensures Narrow(ic, m) ==> ok
    ensures ok ==> |trace| == lx && Recorded(ic, trace, Now(jmin, jmax, lbit, nov), misslx)
    ensures ok ==> FromRuns(ic, m, minpk, inc, ndg, fails, trace)
    ensures ok ==> 1 <= lx <= ndg && |misslx| == lx && Closed(ic, m, Now(jmin, jmax, lbit, nov), lx, |ic|)
    ensures ok ==> 0 < nov[lx - 1]
  {
    hide Narrow, Closed, InRange, Traced, Recorded, Restarted;
    var lminpk, kinc := minpk, Max(inc, 1);
    iersav, fails := iersav0, [];
    var status;
    ghost var kinc0: nat := kinc;
    assert Restarted(ic, m, minpk, inc, ndg, [], lminpk, kinc0) by { hide *; NoRestart(ic, m, minpk, inc, ndg); }
    status, lx, misslx, kinc, trace := Partition(ic, m, lminpk, ndg, kinc, jmin, jmax, lbit, nov);
    while status == TooManyGroups
      invariant lminpk >= 2 && kinc >= 1
      invariant iersav == if fails == [] then iersav0 else 716
      invariant Restarted(ic, m, minpk, inc, ndg, fails, lminpk, kinc0)
      invariant status == TooManyGroups ==>
        |trace| == ndg + 1 && exists to: nat :: Traced(ic, m, lminpk, kinc0, trace, to, kinc)
      invariant status == Done ==> |trace| == lx && Recorded(ic, trace, Now(jmin, jmax, lbit, nov), misslx)
      invariant status == Done ==> Traced(ic, m, lminpk, kinc0, trace, |ic|, kinc)
      invariant status == TooManyGroups ==> lminpk < |ic|
      invariant Narrow(ic, m) ==> status != TooWide
      invariant status == Done ==>
        1 <= lx <= ndg && |misslx| == lx && Closed(ic, m, Now(jmin, jmax, lbit, nov), lx, |ic|)
      invariant status == Done ==> 0 < nov[lx - 1]
      decreases |ic| - lminpk
    {
      ghost var to: nat :| Traced(ic, m, lminpk, kinc0, trace, to, kinc);
      RestartedMore(ic, m, minpk, inc, ndg, fails, Attempt(lminpk, kinc0, trace, to, kinc));
      fails, kinc0 := fails + [Attempt(lminpk, kinc0, trace, to, kinc)], kinc;
      lminpk := lminpk + lminpk / 2;
      iersav := 716;
      status, lx, misslx, kinc, trace := Partition(ic, m, lminpk, ndg, kinc, jmin, jmax, lbit, nov);
    }
    ok := status == Done;
  }

  lemma NoRestart(ic: seq<int>, m: Marks, minpk: nat, inc: int, ndg: nat)
    requires |ic| >= 1
    ensures Restarted(ic, m, minpk, inc, ndg, [], minpk, Max(inc, 1))
  {
  }

  /** What the entries are for the groups of a run: their widths and sizes above the least
      one, and their references, but for groups without values the mark for missing ones; all
      in as few bits as will do. */
  ghost predicate DescribedAs(ic: seq<int>, m: Marks, trace: seq<Closing>, t: Table, ibit: nat, jbit: nat, kbit: nat,
                              novref: int, lbitref: int)
    requires t.Valid()
  {
    && |trace| <= |t.jmin|
    && (forall l :: 0 <= l < |trace| ==> Entry(ic, m, trace[l], t, l, ibit, novref, lbitref))
    && (exists l :: 0 <= l < |trace| && t.lbit[l] == 0) && (exists l :: 0 <= l < |trace| && t.nov[l] == 0)
    && (ibit > 0 ==> exists l :: 0 <= l < |trace| && trace[l].a.e.min >= Pow2(ibit - 1))
    && (jbit > 0 ==> exists l :: 0 <= l < |trace| && t.lbit[l] >= Pow2(jbit - 1))
    && (kbit > 0 ==> exists l :: 0 <= l < |trace| && t.nov[l] >= Pow2(kbit - 1))
  }

  ghost predicate Entry(ic: seq<int>, m: Marks, c: Closing, t: Table, l: nat, ibit: nat, novref: int, lbitref: int)
    requires t.Valid() && l < |t.jmin|
  {
    && t.jmax[l] == c.a.e.max && t.lbit[l] + lbitref == c.a.bits && t.nov[l] + novref == c.to - c.from
    && t.jmin[l] == if m.option == 1 && c.a.bits == 0 && MissOf(ic, c) == m.primary then Pow2(ibit) - 1 else c.a.e.min
  }

  /** Widths and references for a finished table (lines 1241-1395). */
  method Describe(ghost ic: seq<int>, m: Marks, lx: nat, misslx: seq<int>, nxy: nat,
                  jmin: array<int>, jmax: array<int>, lbit: array<int>, nov: array<int>, ghost trace: seq<Closing>)
    returns (ibit: nat, jbit: nat, kbit: nat, novref: int, lbitref: int)
    requires Separate(jmin, jmax, lbit, nov) && 1 <= lx == |misslx| <= jmin.Length && nxy == |ic| < 1073741824
    requires Closed(ic, m, Now(jmin, jmax, lbit, nov), lx, |ic|) && 0 < nov[lx - 1]
    requires |trace| == lx && Recorded(ic, trace, Now(jmin, jmax, lbit, nov), misslx)
    modifies jmin, lbit, nov
    ensures Packed(ic, m, Now(jmin, jmax, lbit, nov), lx, ibit, jbit, kbit, novref, lbitref) && kbit <= 30
    ensures DescribedAs(ic, m, trace, Now(jmin, jmax, lbit, nov), ibit, jbit, kbit, novref, lbitref)
  {
    Pow2Of30();
    hide Pow2, Closed, Packed, MissOf, DescribedAs, Recorded;
    ghost var t0 := Now(jmin, jmax, lbit, nov);
    EntryBounds(ic, m, t0, lx);
    ibit := WidthOf(jmin, lx, 1073741823);
    MarkMissing(ic, m, lx, misslx, ibit, jmin, jmax, lbit, nov);
    ghost var t := Now(jmin, jmax, lbit, nov);
    lbitref, jbit := RemoveReference(lbit, lx, 30);
    novref, kbit := RemoveReference(nov, lx, nxy);
    ghost var u := Now(jmin, jmax, lbit, nov);
    ArePacked(ic, m, t, u, lx, ibit, jbit, kbit, novref, lbitref);
    AreDescribed(ic, m, trace, t0, misslx, u, ibit, jbit, kbit, novref, lbitref);
  }

  lemma EntryBounds(ic: seq<int>, m: Marks, t: Table, lx: nat)
    requires t.Valid() && lx <= |t.jmin| && Closed(ic, m, t, lx, |ic|)
    ensures forall l :: 0 <= l < lx ==>
      t.jmin[l] <= 1073741823 && 0 <= t.lbit[l] <= 30 && 0 <= t.nov[l] <= |ic|
  {
    hide Covers;
  }

  lemma ArePacked(ic: seq<int>, m: Marks, t: Table, u: Table, lx: nat, ibit: nat, jbit: nat, kbit: nat, novref: int,
                  lbitref: int)
    requires t.Valid() && u.Valid() && 1 <= lx <= |t.jmin| == |u.jmin| && Closed(ic, m, t, lx, |ic|)
    requires u.jmin == t.jmin && u.jmax == t.jmax && 0 <= lbitref && 0 <= novref && 0 < t.nov[lx - 1]
    requires forall l :: 0 <= l < lx ==> u.lbit[l] == t.lbit[l] - lbitref && u.nov[l] == t.nov[l] - novref
    requires forall l :: 0 <= l < lx ==>
      u.jmin[l] < Pow2(ibit) && 0 <= u.lbit[l] < Pow2(jbit) && 0 <= u.nov[l] < Pow2(kbit)
    ensures Packed(ic, m, u, lx, ibit, jbit, kbit, novref, lbitref)
  {
    hide Closed, Covers, Pow2;
    AddReferences(ic, m, t, u, lx, lbitref, novref);
  }

  lemma AreDescribed(ic: seq<int>, m: Marks, trace: seq<Closing>, t: Table, misslx: seq<int>, u: Table, ibit: nat,
                     jbit: nat, kbit: nat, novref: int, lbitref: int)
    requires t.Valid() && u.Valid() && |t.jmin| == |u.jmin| && Recorded(ic, trace, t, misslx) && t.jmax == u.jmax
    requires |misslx| == |trace| <= |t.jmin|
    requires forall l :: 0 <= l < |trace| ==>
      && u.lbit[l] == t.lbit[l] - lbitref && u.nov[l] == t.nov[l] - novref
      && u.jmin[l] == if m.option == 1 && t.lbit[l] == 0 && misslx[l] == m.primary then Pow2(ibit) - 1 else t.jmin[l]
    requires (exists l :: 0 <= l < |trace| && u.lbit[l] == 0) && exists l :: 0 <= l < |trace| && u.nov[l] == 0
    requires ibit > 0 ==> exists l :: 0 <= l < |trace| && t.jmin[l] >= Pow2(ibit - 1)
    requires jbit > 0 ==> exists l :: 0 <= l < |trace| && u.lbit[l] >= Pow2(jbit - 1)
    requires kbit > 0 ==> exists l :: 0 <= l < |trace| && u.nov[l] >= Pow2(kbit - 1)
    ensures DescribedAs(ic, m, trace, u, ibit, jbit, kbit, novref, lbitref)
  {
    hide Pow2, MissOf;
  }

  // ---- the whole ----

  /** Where the groups come from: the last run, the failed ones before it, the table of that
      run with its references and widths, how it was split, and the code with which a first
      attempt to split was given up, or 0. */
  datatype Origin = Origin(trace: seq<Closing>, fails: seq<Attempt>, t: Table, kbit: nat, counts: seq<nat>, gaveUp: int)

  /** The table describes the groups of the last run. */
  ghost predicate Described(ic: seq<int>, m: Marks, minpk: nat, inc: int, ndg: nat, o: Origin, ibit: nat, jbit: nat,
                            novref: int, lbitref: int)
    requires |ic| >= 1
  {
    && o.t.Valid() && 0 < |o.trace| <= |o.t.jmin| && FromRuns(ic, m, minpk, inc, ndg, o.fails, o.trace)
    && DescribedAs(ic, m, o.trace, o.t, ibit, jbit, o.kbit, novref, lbitref)
    && (forall l :: 0 <= l < |o.trace| ==> o.t.nov[l] >= 0)
  }

  ghost function Lengths(o: Origin): (ns: seq<int>)
    requires |o.trace| <= |o.t.nov|
  {
    o.t.nov[..|o.trace|]
  }

  /** g2_reduce gave the split up with this code. */
  ghost predicate Rejected(ic: seq<int>, m: Marks, minpk: nat, inc: int, ndg: nat, code: int)
    requires |ic| >= 1
  {
    exists o, ibit: nat, jbit: nat, novref, lbitref ::
      && Described(ic, m, minpk, inc, ndg, o, ibit, jbit, novref, lbitref)
      && GivenUp(Lengths(o), ibit + jbit, o.kbit, ndg, novref, code)
  }

  /** The final groups are those of the run, or their split where g2_reduce wants one. */
  ghost predicate Final(ic: seq<int>, m: Marks, minpk: nat, inc: int, ndg: nat, o: Origin, u: Table, lx: nat, ibit: nat,
                        jbit: nat, kbit: nat, novref: int, lbitref: int)
    requires |ic| >= 1
  {
    && Described(ic, m, minpk, inc, ndg, o, ibit, jbit, novref, lbitref) && u.Valid() && lx <= |u.jmin|
    && if o.gaveUp != 0 then
         Rejected(ic, m, minpk, inc, ndg, o.gaveUp) && u == o.t && lx == |o.trace| && kbit == o.kbit
       else if kbit == o.kbit then
         Kept(Lengths(o), ibit + jbit, kbit) && u == o.t && lx == |o.trace|
       else
         && |o.counts| == |o.trace| && SplitAt(Lengths(o), ibit + jbit, o.kbit, kbit, lx, o.counts)
         && SplitOf(o.t.Groups(0, |o.trace|, lbitref, novref), u.Groups(0, lx, lbitref, novref), o.counts)
         && SizesOf(o.t.Groups(0, |o.trace|, lbitref, novref), u.Groups(0, lx, lbitref, novref), o.counts,
                    Pow2(kbit) - 1, novref)
  }

  /** g2_pack_gp.  Unless a value does not fit in 30 bits (706), the groups cut the data and
      every value fits its group; they are the groups that were closed one after the other in
      the first run that fits the table, split where that pays; the other codes tell how they
      were found. */
  method G2PackGp(ic: seq<int>, m: Marks, minpk: nat, inc: int, ndg: nat,
                  jmin: array<int>, jmax: array<int>, lbit: array<int>, nov: array<int>)
    returns (lx: nat, ibit: nat, jbit: nat, kbit: nat, novref: int, lbitref: int, ier: int, ghost o: Origin)
    requires m.Valid() && InRange(ic, m) && 1 <= |ic| < 1073741824 && minpk >= 2
    requires Separate(jmin, jmax, lbit, nov) && 1 <= ndg <= jmin.Length
    modifies jmin, jmax, lbit, nov
    ensures ier in {0, 706, 714, 715, 716, 717}
    ensures Narrow(ic, m) ==> ier != 706
    ensures ier != 706 ==> 1 <= lx <= ndg
    ensures ier != 706 ==> Packed(ic, m, Now(jmin, jmax, lbit, nov), lx, ibit, jbit, kbit, novref, lbitref)
    ensures ier != 706 ==>
      Final(ic, m, minpk, inc, ndg, o, Now(jmin, jmax, lbit, nov), lx, ibit, jbit, kbit, novref, lbitref)
    ensures ier != 706 ==>
      ier == if o.fails != [] then 716 else if o.gaveUp != 0 then o.gaveUp else if inc <= 0 then 717 else 0
  {
    hide Narrow, Closed, InRange, Packed, Described, Recorded, FromRuns, DescribedAs, Final, Rejected, SplitOf, SizesOf,
      Kept, SplitAt, GivenUp;
    var iersav := if inc <= 0 then 717 else 0;
    var ired := 0;
    ghost var gaveUp := 0;
    lx, ibit, jbit, kbit, novref, lbitref, ier := 0, 0, 0, 0, 0, 0, 0;
    o := Origin([], [], Now(jmin, jmax, lbit, nov), 0, [], 0);
    while true
      invariant (ired == 0 || ired == 1) && ier == 0
      invariant ired == 0 <==> gaveUp == 0
      invariant iersav == if gaveUp != 0 then gaveUp else if inc <= 0 then 717 else 0
      invariant gaveUp in {0, 714, 715} && (gaveUp != 0 ==> Rejected(ic, m, minpk, inc, ndg, gaveUp))
      decreases 1 - ired
    {
      var ok, misslx;
      ghost var trace, fails;
      ok, lx, misslx, iersav, trace, fails := PartitionToFit(ic, m, minpk, inc, ndg, iersav, jmin, jmax, lbit, nov);
      if !ok {
        ier := 706;
        return;
      }
      ibit, jbit, kbit, novref, lbitref := Describe(ic, m, lx, misslx, |ic|, jmin, jmax, lbit, nov, trace);
      ghost var t, counts := Now(jmin, jmax, lbit, nov), [];
      PackedNov(ic, m, t, lx, ibit, jbit, kbit, novref, lbitref);
      o := Origin(trace, fails, t, kbit, counts, gaveUp);
      RunDescribed(ic, m, minpk, inc, ndg, o, lx, ibit, jbit, novref, lbitref);
      if ired == 1 {
        NotSplit(ic, m, minpk, inc, ndg, o, ibit, jbit, novref, lbitref);
        break;
      }
      var lxn, kbitn;
      ier, lxn, kbitn, counts := G2Reduce(jmin, jmax, lbit, nov, lx, ndg, ibit, jbit, kbit, novref, lbitref);
      if ier == 0 {
        ReduceKeeps(ic, m, t, Now(jmin, jmax, lbit, nov), lx, lxn, counts, ibit, jbit, kbit, kbitn, novref, lbitref);
        o := o.(counts := counts);
        RunDescribed(ic, m, minpk, inc, ndg, o, lx, ibit, jbit, novref, lbitref);
        lx, kbit := lxn, kbitn;
        WasReduced(ic, m, minpk, inc, ndg, o, Now(jmin, jmax, lbit, nov), lx, ibit, jbit, kbit, novref, lbitref);
        break;
      }
      WasRejected(ic, m, minpk, inc, ndg, o, ibit, jbit, novref, lbitref, ier);
      iersav, ired, gaveUp, ier := ier, 1, ier, 0;
    }
    ier := iersav;
  }

  lemma RunDescribed(ic: seq<int>, m: Marks, minpk: nat, inc: int, ndg: nat, o: Origin, lx: nat, ibit: nat, jbit: nat,
                     novref: int, lbitref: int)
    requires |ic| >= 1 && o.t.Valid() && 0 < |o.trace| == lx <= |o.t.jmin|
    requires FromRuns(ic, m, minpk, inc, ndg, o.fails, o.trace)
    requires DescribedAs(ic, m, o.trace, o.t, ibit, jbit, o.kbit, novref, lbitref)
    requires forall l :: 0 <= l < lx ==> o.t.nov[l] >= 0
    ensures Described(ic, m, minpk, inc, ndg, o, ibit, jbit, novref, lbitref) && Lengths(o) == o.t.nov[..lx]
  {
    hide FromRuns, DescribedAs;
  }

  lemma NotSplit(ic: seq<int>, m: Marks, minpk: nat, inc: int, ndg: nat, o: Origin, ibit: nat, jbit: nat, novref: int,
                 lbitref: int)
    requires |ic| >= 1 && Described(ic, m, minpk, inc, ndg, o, ibit, jbit, novref, lbitref)
    requires o.gaveUp != 0 && Rejected(ic, m, minpk, inc, ndg, o.gaveUp)
    ensures Final(ic, m, minpk, inc, ndg, o, o.t, |o.trace|, ibit, jbit, o.kbit, novref, lbitref)
  {
    hide Rejected, FromRuns, DescribedAs;
  }

  lemma WasRejected(ic: seq<int>, m: Marks, minpk: nat, inc: int, ndg: nat, o: Origin, ibit: nat, jbit: nat,
                    novref: int, lbitref: int, code: int)
    requires |ic| >= 1 && Described(ic, m, minpk, inc, ndg, o, ibit, jbit, novref, lbitref)
    requires GivenUp(Lengths(o), ibit + jbit, o.kbit, ndg, novref, code)
    ensures Rejected(ic, m, minpk, inc, ndg, code)
  {
    hide GivenUp;
  }

  lemma WasReduced(ic: seq<int>, m: Marks, minpk: nat, inc: int, ndg: nat, o: Origin, u: Table, lx: nat, ibit: nat,
                   jbit: nat, kbit: nat, novref: int, lbitref: int)
    requires |ic| >= 1 && Described(ic, m, minpk, inc, ndg, o, ibit, jbit, novref, lbitref)
    requires u.Valid() && lx <= |u.jmin| && o.gaveUp == 0 && |o.counts| == |o.trace|
    requires kbit == o.kbit ==> Kept(Lengths(o), ibit + jbit, kbit) && u == o.t && lx == |o.trace|
    requires kbit != o.kbit ==> SplitAt(Lengths(o), ibit + jbit, o.kbit, kbit, lx, o.counts)
    requires SplitOf(o.t.Groups(0, |o.trace|, lbitref, novref), u.Groups(0, lx, lbitref, novref), o.counts)
    requires kbit != o.kbit ==>
      SizesOf(o.t.Groups(0, |o.trace|, lbitref, novref), u.Groups(0, lx, lbitref, novref), o.counts, Pow2(kbit) - 1,
              novref)
    ensures Final(ic, m, minpk, inc, ndg, o, u, lx, ibit, jbit, kbit, novref, lbitref)
  {
    hide Kept, SplitAt, SplitOf, SizesOf, FromRuns, DescribedAs, Table.Groups;
  }

  lemma PackedNov(ic: seq<int>, m: Marks, t: Table, lx: nat, ibit: nat, jbit: nat, kbit: nat, novref: int, lbitref: int)
    requires t.Valid() && lx <= |t.jmin| && Packed(ic, m, t, lx, ibit, jbit, kbit, novref, lbitref)
    ensures novref >= 0 && forall l :: 0 <= l < lx ==> 0 <= t.nov[l] < Pow2(kbit)
    ensures 0 < lx && 0 < t.nov[lx - 1] + novref
  {
  }
}
