/** Splitting large groups so that the group lengths need fewer bits (g2/g2_reduce.c). */
module Reduce {
  import opened Binary
  import opened Groups

  /** C division: truncates toward zero. */
  function CDiv(a: int, b: int): int
    requires b > 0
  {
    if a >= 0 then a / b else -((-a) / b)
  }

  /** A group and `boxes` boxes more hold `nov` values when each holds 2^j - 1. */
  ghost predicate Boxed(nov: int, boxes: nat, j: nat) {
    nov <= (boxes + 1) * (Pow2(j) - 1)
  }

  /** No fewer boxes would hold them. */
  ghost predicate Fewest(nov: int, boxes: nat, j: nat) {
    Boxed(nov, boxes, j) && (boxes > 0 ==> !Boxed(nov, boxes - 1, j))
  }

  /** The least number of boxes that have to be added to a group. */
  ghost function Boxes(nov: int, j: nat): (boxes: nat)
    requires nov >= 0 && j >= 1
    ensures Fewest(nov, boxes, j)
  {
    Pow2Mono(1, j);
    assert Pow2(1) == 2;
    var d := Pow2(j) - 1;
    if nov <= d then
      assert 1 * d == d;
      0
    else
      var q := (nov - 1) / d;
      QuotientNonNegative(nov - 1, d);
      assert nov - 1 == q * d + (nov - 1) % d;
      assert (q + 1) * d == q * d + d;
      q
  }

  lemma FewestIsBoxes(nov: int, boxes: nat, j: nat)
    requires nov >= 0 && j >= 1 && Fewest(nov, boxes, j)
    ensures boxes == Boxes(nov, j)
  {
    hide Pow2;
    Pow2Mono(1, j);
    var b, d := Boxes(nov, j), Pow2(j) - 1;
    if boxes < b {
      MulMono(boxes + 1, b, d);
    } else if b < boxes {
      MulMono(b + 1, boxes, d);
    }
  }

  /** How many boxes a group of `nov` values takes, less one. */
  method NewBoxes(nov: int, j: nat) returns (boxes: nat)
    requires nov >= 0 && j >= 2
    ensures Fewest(nov, boxes, j)
  {
    if nov < Pow2(j) {
      boxes := 0;
    } else {
      var m := (nov - 1) / (Pow2(j) - 1) + 1;
      QuotientNonNegative(nov - 1, Pow2(j) - 1);
      assert nov - 1 == (m - 1) * (Pow2(j) - 1) + (nov - 1) % (Pow2(j) - 1);
      var novl := (nov + m - 1) / m;
      while novl >= Pow2(j)
        invariant m >= 1 && novl == (nov + m - 1) / m && (m - 1) * (Pow2(j) - 1) < nov
        decreases nov - m
      {
        if m >= nov {
          QuotientSmall(nov + m - 1, m);
        }
        BoxesTooFew(nov, m, Pow2(j));
        m := m + 1;
        novl := (nov + m - 1) / m;
      }
      BoxesSuffice(nov, m, Pow2(j));
      boxes := m - 1;
    }
  }

  lemma QuotientNonNegative(a: int, d: int)
    requires a >= 0 && d > 0
    ensures a / d >= 0
  {
  }

  lemma QuotientSmall(a: int, d: int)
    requires 0 <= a < 2 * d
    ensures a / d < 2
  {
    assert a == (a / d) * d + a % d;
    if a / d >= 2 {
      MulMono(2, a / d, d);
    }
  }

  lemma BoxesTooFew(n: int, m: int, p: int)
    requires m >= 1 && (n + m - 1) / m >= p
    ensures m * (p - 1) < n
  {
    var q := (n + m - 1) / m;
    assert n + m - 1 == q * m + (n + m - 1) % m;
    MulMono(p, q, m);
    assert m * (p - 1) == p * m - m;
  }

  lemma BoxesSuffice(n: int, m: int, p: int)
    requires m >= 1 && (n + m - 1) / m < p
    ensures n <= m * (p - 1)
  {
    var q := (n + m - 1) / m;
    assert n + m - 1 == q * m + (n + m - 1) % m;
    MulMono(q, p - 1, m);
  }

  // ---- which width pays ----

  /** The boxes added to each group for lengths of `j` bits. */
  ghost function AllBoxes(nov: seq<int>, j: nat): (boxes: seq<nat>)
    requires j >= 1 && forall l :: 0 <= l < |nov| ==> nov[l] >= 0
    ensures |boxes| == |nov| && forall l :: 0 <= l < |nov| ==> boxes[l] == Boxes(nov[l], j)
  {
    seq(|nov|, l requires 0 <= l < |nov| => Boxes(nov[l], j))
  }

  /** The bits of all group descriptions when each group is cut into the fewest pieces of at
      most 2^j - 1 values; `a` bits a group are needed besides the length. */
  ghost function TotalFor(nov: seq<int>, a: nat, j: nat): int
    requires j >= 1 && forall l :: 0 <= l < |nov| ==> nov[l] >= 0
  {
    (a + j) * (|nov| + Sum(AllBoxes(nov, j)))
  }

  /** On the way down from `kbit` to `j` every bit less makes the total smaller. */
  ghost predicate Falls(nov: seq<int>, a: nat, j: nat, kbit: nat)
    requires j >= 1 && forall l :: 0 <= l < |nov| ==> nov[l] >= 0
  {
    forall i: nat :: j <= i < kbit ==> TotalFor(nov, a, i) < TotalFor(nov, a, i + 1)
  }

  /** On the way down from `kbit` to 2 the total rises for the first time below `jj`. */
  ghost predicate FirstRise(nov: seq<int>, a: nat, jj: nat, kbit: nat)
    requires forall l :: 0 <= l < |nov| ==> nov[l] >= 0
  {
    3 <= jj <= kbit && Falls(nov, a, jj, kbit) && TotalFor(nov, a, jj - 1) >= TotalFor(nov, a, jj)
  }

  /** The total shrinks by at least two percent. */
  predicate Pays(before: int, after: int) {
    before > 0 && 100 * (before - after) >= 2 * before
  }

  lemma FirstRiseUnique(nov: seq<int>, a: nat, j1: nat, j2: nat, kbit: nat)
    requires forall l :: 0 <= l < |nov| ==> nov[l] >= 0
    requires FirstRise(nov, a, j1, kbit)
    ensures FirstRise(nov, a, j2, kbit) ==> j1 == j2
    ensures !Falls(nov, a, 2, kbit)
  {
    hide TotalFor;
    var i: nat := j1 - 1;
    assert TotalFor(nov, a, i) >= TotalFor(nov, a, i + 1);
  }

  /** With as many bits as the lengths need, no group is cut. */
  lemma NothingCut(nov: seq<int>, a: nat, kbit: nat)
    requires kbit >= 1 && forall l :: 0 <= l < |nov| ==> 0 <= nov[l] < Pow2(kbit)
    ensures TotalFor(nov, a, kbit) == (a + kbit) * |nov|
  {
    hide Boxes, Pow2;
    forall l | 0 <= l < |nov| ensures AllBoxes(nov, kbit)[l] == 0 {
      assert Fewest(nov[l], 0, kbit) by { assert 1 * (Pow2(kbit) - 1) == Pow2(kbit) - 1; }
      FewestIsBoxes(nov[l], 0, kbit);
    }
    SumZeros(AllBoxes(nov, kbit));
  }

  lemma {:induction false} SumZeros(s: seq<nat>)
    requires forall i :: 0 <= i < |s| ==> s[i] == 0
    ensures Sum(s) == 0
    decreases |s|
  {
    if |s| > 0 {
      SumZeros(s[..|s| - 1]);
    }
  }

  /** The boxes for lengths of `j` bits, and how many there are. */
  method CountBoxes(nov: seq<int>, j: nat) returns (newbox: seq<nat>, newboxt: nat)
    requires j >= 2 && forall l :: 0 <= l < |nov| ==> nov[l] >= 0
    ensures newbox == AllBoxes(nov, j) && newboxt == Sum(newbox)
  {
    hide Fewest, Boxes;
    newbox, newboxt := [], 0;
    for l := 0 to |nov|
      invariant |newbox| == l && newboxt == Sum(newbox)
      invariant forall i :: 0 <= i < l ==> newbox[i] == Boxes(nov[i], j)
    {
      var b := NewBoxes(nov[l], j);
      FewestIsBoxes(nov[l], b, j);
      assert (newbox + [b])[..l] == newbox;
      newbox := newbox + [b];
      newboxt := newboxt + b;
    }
  }

  /** The width `jj` after which fewer bits per length stop paying (lines 156-257).  The loop
      leaves `jj` at 0, with no defined total, when no width makes the total grow. */
  method ChooseWidth(nov: seq<int>, ibit: nat, jbit: nat, kbit: nat)
    returns (jj: nat, newboxp: seq<nat>, newboxtp: nat, total: int)
    requires |nov| >= 1 && kbit <= 30
    requires forall l :: 0 <= l < |nov| ==> 0 <= nov[l] < Pow2(kbit)
    ensures jj == 0 ==> Falls(nov, ibit + jbit, 2, kbit)
    ensures jj != 0 ==> FirstRise(nov, ibit + jbit, jj, kbit) && total == TotalFor(nov, ibit + jbit, jj)
    ensures 0 < jj < kbit ==> newboxp == AllBoxes(nov, jj) && newboxtp == Sum(newboxp)
  {
    hide Pow2, Sum;
    jj, newboxp, newboxtp, total := 0, [], 0, 0;
    if kbit == 0 { return; }
    ghost var a := ibit + jbit;
    NothingCut(nov, a, kbit);
    var ntotbt := seq(31, i => 999999999);
    ntotbt := ntotbt[kbit - 1 := (ibit + jbit + kbit) * |nov|];
    var j := if 30 < kbit - 1 then 30 else kbit - 1;
    while j >= 2
      invariant (kbit == 1 && j == 0) || 1 <= j <= kbit - 1
      invariant |ntotbt| == 31 && ntotbt[j] == TotalFor(nov, a, j + 1)
      invariant j >= 1 ==> Falls(nov, a, j + 1, kbit)
      invariant 1 <= j < kbit - 1 ==> newboxp == AllBoxes(nov, j + 1) && newboxtp == Sum(newboxp)
    {
      var newbox, newboxt := CountBoxes(nov, j);
      var ntotpr := ntotbt[j];
      BitsOfAll(ibit + jbit, j, |nov| + newboxt);
      ntotbt := ntotbt[j - 1 := (ibit + jbit) * (|nov| + newboxt) + j * (|nov| + newboxt)];
      if ntotbt[j - 1] >= ntotpr {
        return j + 1, newboxp, newboxtp, ntotpr;
      }
      newboxtp, newboxp := newboxt, newbox;
      j := j - 1;
    }
  }

  /** One entry of the parallel arrays. */
  method SetEntry(jmin: array<int>, jmax: array<int>, lbit: array<int>, nov: array<int>, i: nat, g: Group)
    requires Separate(jmin, jmax, lbit, nov) && i < jmin.Length
    modifies jmin, jmax, lbit, nov
    ensures jmin[..] == old(jmin[..])[i := g.min] && jmax[..] == old(jmax[..])[i := g.max]
    ensures lbit[..] == old(lbit[..])[i := g.bits] && nov[..] == old(nov[..])[i := g.size]
  {
    jmin[i], jmax[i], lbit[i], nov[i] := g.min, g.max, g.bits, g.size;
  }

  predicate Separate(jmin: array<int>, jmax: array<int>, lbit: array<int>, nov: array<int>) {
    && jmin != jmax && jmin != lbit && jmin != nov && jmax != lbit && jmax != nov && lbit != nov
    && jmin.Length == jmax.Length == lbit.Length == nov.Length
  }

  function Now(jmin: array<int>, jmax: array<int>, lbit: array<int>, nov: array<int>): Table
    reads jmin, jmax, lbit, nov
  {
    Table(jmin[..], jmax[..], lbit[..], nov[..])
  }

  /** Cuts one group of `left + novref` values, entry `l`, into `boxes + 1` pieces that end at
      entry `end`, filling the arrays from right to left (lines 345-359). */
  method SplitGroup(jmin: array<int>, jmax: array<int>, lbit: array<int>, nov: array<int>,
                    l: nat, end: nat, boxes: nat, movmin: int, novref: int, most: int, ghost lbitref: int)
    requires Separate(jmin, jmax, lbit, nov) && l + boxes + 1 <= end <= jmin.Length
    requires 0 <= movmin <= most && novref >= 0 && nov[l] >= 0
    requires (movmin + novref) * boxes <= nov[l] <= (movmin + novref) * boxes + movmin
    requires nov[l] + novref > 0 ==> Least(movmin, nov[l]) + novref > 0
    modifies jmin, jmax, lbit, nov
    ensures SameTable(old(Now(jmin, jmax, lbit, nov)), Now(jmin, jmax, lbit, nov), end - boxes - 1, end)
    ensures PiecesOf(old(Now(jmin, jmax, lbit, nov).Groups(l, l + 1, lbitref, novref)[0]),
                     Now(jmin, jmax, lbit, nov).Groups(end - boxes - 1, end, lbitref, novref))
    ensures Bounded(nov[..], end - boxes - 1, end, most)
    ensures nov[end - boxes - 1] == old(nov[l]) - (movmin + novref) * boxes
    ensures forall i :: end - boxes <= i < end ==> nov[i] == movmin
  {
    hide Pow2, PiecesOf, FilledTable, SameTable, Bounded, Moves, Least;
    ghost var before, moved := Now(jmin, jmax, lbit, nov), [];
    var left, lxn := nov[l], end;
    FilledNone(before, end, l);
    MovesNone(boxes, nov[l], movmin, novref, most);
    for j := 0 to boxes + 1
      invariant lxn == end - j
      invariant FilledTable(before, Now(jmin, jmax, lbit, nov), lxn, end, l, moved)
      invariant |moved| == j && Moves(moved, boxes, before.nov[l], movmin, novref, most, left)
    {
      MovesMore(moved, boxes, before.nov[l], movmin, novref, most, left);
      var move := Least(movmin, left);
      lxn := lxn - 1;
      FilledMore(before, Now(jmin, jmax, lbit, nov), lxn, end, l, moved, move);
      SetEntry(jmin, jmax, lbit, nov, lxn, Group(jmin[l], jmax[l], lbit[l], move));
      left := left - (move + novref);
      moved := [move] + moved;
    }
    PiecesDone(before, Now(jmin, jmax, lbit, nov), l, lxn, end, moved, boxes, movmin, novref, most, left, lbitref);
  }

  lemma PiecesDone(t: Table, u: Table, l: nat, from: nat, end: nat, moved: seq<int>, boxes: nat, movmin: int,
                   novref: int, most: int, left: int, lbitref: int)
    requires t.Valid() && u.Valid() && l < |t.jmin| == |u.jmin| && from < end <= |u.jmin| && novref >= 0
    requires FilledTable(t, u, from, end, l, moved)
    requires Moves(moved, boxes, t.nov[l], movmin, novref, most, left) && |moved| == boxes + 1
    requires t.nov[l] + novref > 0 ==> Least(movmin, t.nov[l]) + novref > 0
    ensures SameTable(t, u, from, end) && Bounded(u.nov, from, end, most)
    ensures u.nov[from] == t.nov[l] - (movmin + novref) * boxes
    ensures forall i :: from < i < end ==> u.nov[i] == movmin
    ensures PiecesOf(t.Groups(l, l + 1, lbitref, novref)[0], u.Groups(from, end, lbitref, novref))
  {
    hide PiecesOf, TotalMoved;
    assert forall i :: from <= i < end ==> u.nov[i] == moved[i - from];
    PiecesFromArrays(t.Groups(l, l + 1, lbitref, novref)[0], u.jmin, u.jmax, u.lbit, u.nov, from, end, lbitref, novref);
  }

  /** The sizes given to the boxes so far, the last box first, and what is left. */
  ghost predicate Moves(moved: seq<int>, boxes: nat, size: int, movmin: int, novref: int, most: int, left: int) {
    && |moved| <= boxes + 1
    && (forall i :: 0 <= i < |moved| ==> 0 <= moved[i] <= most)
    && (|moved| > 0 ==> moved[|moved| - 1] == Least(movmin, size))
    && (forall i :: 0 <= i < |moved| && |moved| - i <= boxes ==> moved[i] == movmin)
    && (|moved| == boxes + 1 ==> moved[0] == size - (movmin + novref) * boxes)
    && (|moved| <= boxes ==> left == size - (movmin + novref) * |moved|)
    && TotalMoved(moved, novref) == if |moved| <= boxes then (movmin + novref) * |moved| else size + novref
  }

  lemma MovesNone(boxes: nat, size: int, movmin: int, novref: int, most: int)
    ensures Moves([], boxes, size, movmin, novref, most, size)
  {
  }

  lemma MovesMore(moved: seq<int>, boxes: nat, size: int, movmin: int, novref: int, most: int, left: int)
    requires Moves(moved, boxes, size, movmin, novref, most, left) && |moved| <= boxes
    requires 0 <= movmin <= most && novref >= 0
    requires (movmin + novref) * boxes <= size <= (movmin + novref) * boxes + movmin
    ensures var move := Least(movmin, left);
      Moves([move] + moved, boxes, size, movmin, novref, most, left - (move + novref))
  {
    StepsLeft(movmin + novref, |moved|, boxes, size, movmin, novref);
    MovedMore(Least(movmin, left), moved, novref);
  }

  function Least(a: int, b: int): int { if a < b then a else b }

  /** Entries `from` to `end` of `u` repeat entry `l` of `t`, with sizes `moved`. */
  ghost predicate FilledTable(t: Table, u: Table, from: nat, end: nat, l: nat, moved: seq<int>) {
    && t.Valid() && u.Valid() && l < |t.jmin| == |u.jmin| && from <= end <= |u.jmin|
    && Filled(t.jmin, u.jmin, from, end, l) && Filled(t.jmax, u.jmax, from, end, l)
    && Filled(t.lbit, u.lbit, from, end, l) && SameOutside(t.nov, u.nov, from, end) && u.nov[from..end] == moved
  }

  lemma FilledNone(t: Table, end: nat, l: nat)
    requires t.Valid() && l < |t.jmin| && end <= |t.jmin|
    ensures FilledTable(t, t, end, end, l, [])
  {
  }

  lemma FilledMore(t: Table, u: Table, i: nat, end: nat, l: nat, moved: seq<int>, move: int)
    requires FilledTable(t, u, i + 1, end, l, moved) && l <= i < end
    ensures var v := Table(u.jmin[i := u.jmin[l]], u.jmax[i := u.jmax[l]], u.lbit[i := u.lbit[l]], u.nov[i := move]);
      FilledTable(t, v, i, end, l, [move] + moved)
  {
    assert u.nov[i := move][i..end] == [move] + u.nov[i + 1..end];
  }

  ghost predicate SameOutside(a: seq<int>, b: seq<int>, from: int, to: int) {
    |a| == |b| && forall i :: 0 <= i < |a| && !(from <= i < to) ==> a[i] == b[i]
  }

  ghost predicate SameTable(t: Table, u: Table, from: int, to: int) {
    && SameOutside(t.jmin, u.jmin, from, to) && SameOutside(t.jmax, u.jmax, from, to)
    && SameOutside(t.lbit, u.lbit, from, to) && SameOutside(t.nov, u.nov, from, to)
  }

  /** `b` is `a` with entries `from` to `to` set to entry `l` of `a`. */
  ghost predicate Filled(a: seq<int>, b: seq<int>, from: int, to: int, l: int) {
    && 0 <= l < |a| && SameOutside(a, b, from, to)
    && forall i :: 0 <= i < |b| && from <= i < to ==> b[i] == a[l]
  }

  function TotalMoved(moved: seq<int>, novref: int): int {
    if |moved| == 0 then 0 else moved[0] + novref + TotalMoved(moved[1..], novref)
  }

  lemma MovedMore(move: int, moved: seq<int>, novref: int)
    ensures TotalMoved([move] + moved, novref) == move + novref + TotalMoved(moved, novref)
  {
    assert ([move] + moved)[1..] == moved;
  }

  lemma {:induction false} TotalOfPieces(gs: seq<Group>, moved: seq<int>, novref: int)
    requires |gs| == |moved| && forall i :: 0 <= i < |gs| ==> gs[i].size == moved[i] + novref
    ensures TotalSize(gs) == TotalMoved(moved, novref)
    decreases |gs|
  {
    if |gs| > 0 {
      TotalOfPieces(gs[1..], moved[1..], novref);
    }
  }

  lemma PiecesFromArrays(g: Group, jmin: seq<int>, jmax: seq<int>, lbit: seq<int>, nov: seq<int>,
                         from: nat, to: nat, lbitref: int, novref: int)
    requires from < to <= |jmin| && |jmin| == |jmax| == |lbit| == |nov| && novref >= 0
    requires forall i :: from <= i < to ==>
      jmin[i] == g.min && jmax[i] == g.max && lbit[i] + lbitref == g.bits && nov[i] >= 0
    requires TotalMoved(nov[from..to], novref) == g.size && (g.size > 0 ==> nov[to - 1] + novref > 0)
    ensures PiecesOf(g, Table(jmin, jmax, lbit, nov).Groups(from, to, lbitref, novref))
  {
    TotalOfPieces(Table(jmin, jmax, lbit, nov).Groups(from, to, lbitref, novref), nov[from..to], novref);
  }

  lemma StepsLeft(step: int, j: nat, boxes: nat, size: int, movmin: int, novref: int)
    requires step == movmin + novref && movmin >= 0 && novref >= 0 && j <= boxes
    requires step * boxes <= size <= step * boxes + movmin
    ensures j < boxes ==> movmin <= size - step * j && step * (j + 1) == step * j + step
    ensures j == boxes ==> 0 <= size - step * j <= movmin
  {
    if j < boxes {
      MulMono(j + 1, boxes, step);
    }
  }

  /** The largest number of values to move to each new box (lines 308-323). */
  function MoveMin(nov: int, boxes: nat, most: int, novref: int): int {
    if boxes * (most + novref) + novref > nov + novref && boxes > 0
    then CDiv(nov - boxes * novref, boxes)
    else most
  }

  /** The test that guards the split (lines 326-328). */
  predicate MoveOk(nov: int, boxes: nat, movmin: int, novref: int) {
    && (movmin + novref) * boxes + novref <= nov + novref
    && (movmin + novref) * (boxes + 1) >= nov + novref
  }

  /** A group whose shares do not add up to its size, which makes the split be given up. */
  predicate Unsplittable(nov: int, boxes: nat, most: int, novref: int) {
    boxes > 0 && !MoveOk(nov, boxes, MoveMin(nov, boxes, most, novref), novref)
  }

  lemma MoveMinBounds(nov: int, boxes: nat, most: int, novref: int)
    requires 0 <= nov && 0 <= novref && 0 <= most
    requires boxes > 0 ==> MoveOk(nov, boxes, MoveMin(nov, boxes, most, novref), novref)
    requires boxes == 0 ==> nov <= most
    ensures var movmin := MoveMin(nov, boxes, most, novref);
      && 0 <= movmin <= most
      && (movmin + novref) * boxes <= nov <= (movmin + novref) * boxes + movmin
  {
    var movmin := MoveMin(nov, boxes, most, novref);
    if boxes == 0 {
      assert boxes * (most + novref) == 0;
    } else {
      var s := movmin + novref;
      assert s * (boxes + 1) == s * boxes + s;
      if boxes * (most + novref) > nov {
        assert boxes * (most + novref) == boxes * most + boxes * novref;
        CDivBound(nov - boxes * novref, boxes, most);
      }
    }
  }

  lemma CDivBound(a: int, b: int, m: int)
    requires b > 0 && m >= 0 && a < b * m
    ensures CDiv(a, b) <= m
  {
    if a >= 0 {
      QuotientBound(a, m, b);
    } else {
      QuotientNonNegative(-a, b);
    }
  }

  // ---- the sizes of the pieces ----

  /** What every piece but the first gets of a group of `size` values with `b` boxes more: as
      much as a length can say, or an even share when that would be too much. */
  function PieceSize(size: int, b: nat, most: int, novref: int): int {
    if b == 0 || b * (most + novref) <= size - novref then most + novref
    else CDiv(size - novref - b * novref, b) + novref
  }

  ghost predicate SizedAs(g: Group, pieces: seq<Group>, most: int, novref: int) {
    |pieces| >= 1 && var b := |pieces| - 1; var s := PieceSize(g.size, b, most, novref);
    pieces[0].size == g.size - b * s && forall i :: 1 <= i <= b ==> pieces[i].size == s
  }

  ghost predicate SizesOf(parents: seq<Group>, pieces: seq<Group>, counts: seq<nat>, most: int, novref: int)
    requires |counts| == |parents|
    decreases |parents|
  {
    if |parents| == 0 then |pieces| == 0
    else
      && counts[0] <= |pieces|
      && SizedAs(parents[0], pieces[..counts[0]], most, novref)
      && SizesOf(parents[1..], pieces[counts[0]..], counts[1..], most, novref)
  }

  lemma SizesNone(gs: seq<Group>, t: Table, lx: nat, all: nat, boxes: seq<nat>, lbitref: int, most: int, novref: int)
    requires t.Valid() && |gs| == |boxes| == lx && all <= |t.jmin|
    ensures SizesOf(gs[lx..], t.Groups(all, all, lbitref, novref), Counts(boxes)[lx..], most, novref)
  {
  }

  lemma PrependSizes(gs: seq<Group>, l: nat, before: Table, after: Table, from: nat, mid: nat, to: nat,
                     lbitref: int, most: int, novref: int, counts: seq<nat>)
    requires before.Valid() && after.Valid() && from <= mid <= to <= |before.jmin|
    requires SameTable(before, after, from, mid)
    requires l < |gs| == |counts| && mid - from == counts[l]
    requires SizedAs(gs[l], after.Groups(from, mid, lbitref, novref), most, novref)
    requires SizesOf(gs[l + 1..], before.Groups(mid, to, lbitref, novref), counts[l + 1..], most, novref)
    ensures SizesOf(gs[l..], after.Groups(from, to, lbitref, novref), counts[l..], most, novref)
  {
    hide SizedAs;
    var both := after.Groups(from, to, lbitref, novref);
    assert gs[l..][1..] == gs[l + 1..] && counts[l..][1..] == counts[l + 1..];
    assert both[..counts[l]] == after.Groups(from, mid, lbitref, novref);
    assert both[counts[l]..] == before.Groups(mid, to, lbitref, novref);
  }

  lemma SizesFilled(g: Group, u: Table, from: nat, end: nat, boxes: nat, size: int, most: int, lbitref: int,
                    novref: int)
    requires u.Valid() && from + boxes + 1 == end <= |u.jmin| && g.size == size + novref
    requires var movmin := MoveMin(size, boxes, most, novref);
      && u.nov[from] == size - (movmin + novref) * boxes
      && forall i :: from < i < end ==> u.nov[i] == movmin
    ensures SizedAs(g, u.Groups(from, end, lbitref, novref), most, novref)
  {
    hide CDiv;
    var movmin := MoveMin(size, boxes, most, novref);
    assert boxes > 0 ==> movmin + novref == PieceSize(g.size, boxes, most, novref);
    assert boxes == 0 ==> (movmin + novref) * boxes == 0 && boxes * PieceSize(g.size, boxes, most, novref) == 0;
  }

  ghost function Counts(boxes: seq<nat>): (counts: seq<nat>)
    ensures |counts| == |boxes|
  {
    seq(|boxes|, i requires 0 <= i < |boxes| => boxes[i] + 1)
  }

  /** Replaces each group by its pieces, from the last group to the first, in place
      (lines 295-369).  Reports 714 when the guard fails. */
  method SplitAll(jmin: array<int>, jmax: array<int>, lbit: array<int>, nov: array<int>,
                  lx: nat, lxnkp: nat, boxes: seq<nat>, jj: nat, novref: int, ghost lbitref: int)
    returns (ier: int)
    requires Separate(jmin, jmax, lbit, nov) && |boxes| == lx
    requires lxnkp == lx + Sum(boxes) <= jmin.Length && novref >= 0
    requires forall l :: 0 <= l < lx ==> 0 <= nov[l] && Boxed(nov[l], boxes[l], jj)
    modifies jmin, jmax, lbit, nov
    ensures ier == 0 || ier == 714
    ensures ier == 0 ==> SplitOf(
      old(Now(jmin, jmax, lbit, nov).Groups(0, lx, lbitref, novref)),
      Now(jmin, jmax, lbit, nov).Groups(0, lxnkp, lbitref, novref), Counts(boxes))
    ensures ier == 0 ==> SizesOf(
      old(Now(jmin, jmax, lbit, nov).Groups(0, lx, lbitref, novref)),
      Now(jmin, jmax, lbit, nov).Groups(0, lxnkp, lbitref, novref), Counts(boxes), Pow2(jj) - 1, novref)
    ensures ier == 0 ==> forall i :: 0 <= i < lxnkp ==> 0 <= nov[i] < Pow2(jj)
    ensures ier == 714 <==> exists l :: 0 <= l < lx && Unsplittable(old(nov[l]), boxes[l], Pow2(jj) - 1, novref)
  {
    hide Pow2, SplitOf, PiecesOf, SizesOf, SizedAs, MoveMin, MoveOk, Sum, SameOutside, SameTable, Least, Table.Groups;
    ghost var start := Now(jmin, jmax, lbit, nov);
    ghost var gs := start.Groups(0, lx, lbitref, novref);
    var ibxx2m1 := Pow2(jj) - 1;
    var lxn := lxnkp;
    var l := lx;
    SplitNone(gs, start, lx, lxnkp, boxes, lbitref, novref);
    SizesNone(gs, start, lx, lxnkp, boxes, lbitref, ibxx2m1, novref);
    SameReflexive(start, lx, lxnkp);
    while l > 0
      invariant 0 <= l <= lx && lxn == l + Sum(boxes[..l]) && lxn <= lxnkp
      invariant SplitFrom(gs, l, start, Now(jmin, jmax, lbit, nov), lxn, lxnkp, boxes, ibxx2m1, lbitref, novref)
      invariant forall i :: l <= i < lx ==> !Unsplittable(start.nov[i], boxes[i], ibxx2m1, novref)
    {
      l := l - 1;
      SumStep(boxes, l);
      Untouched(start, Now(jmin, jmax, lbit, nov), l, lx, lxnkp, lbitref, novref);
      var movmin := MoveMin(nov[l], boxes[l], ibxx2m1, novref);
      if boxes[l] > 0 && !MoveOk(nov[l], boxes[l], movmin, novref) {
        return 714;
      }
      MoveMinBounds(nov[l], boxes[l], ibxx2m1, novref);
      ghost var before := Now(jmin, jmax, lbit, nov);
      LastPieceFilled(nov[l], boxes[l], movmin, ibxx2m1, novref);
      SplitGroup(jmin, jmax, lbit, nov, l, lxn, boxes[l], movmin, novref, ibxx2m1, lbitref);
      OneSplit(gs, l, start, before, Now(jmin, jmax, lbit, nov), lxn - (boxes[l] + 1), lxn, lxnkp, boxes, ibxx2m1,
        lbitref, novref);
      lxn := lxn - (boxes[l] + 1);
    }
    ier := 0;
  }

  /** What the pieces of one group more make of the table `u`, which was `t` at the start. */
  ghost predicate SplitFrom(gs: seq<Group>, l: nat, t: Table, u: Table, lxn: nat, end: nat, boxes: seq<nat>,
                            most: int, lbitref: int, novref: int)
    requires t.Valid() && u.Valid() && l <= |gs| == |boxes| && lxn <= end <= |u.jmin|
  {
    && SameTable(t, u, l, end) && Bounded(u.nov, lxn, end, most)
    && SplitOf(gs[l..], u.Groups(lxn, end, lbitref, novref), Counts(boxes)[l..])
    && SizesOf(gs[l..], u.Groups(lxn, end, lbitref, novref), Counts(boxes)[l..], most, novref)
  }

  lemma OneSplit(gs: seq<Group>, l: nat, t: Table, u: Table, v: Table, from: nat, lxn: nat, end: nat,
                 boxes: seq<nat>, most: int, lbitref: int, novref: int)
    requires t.Valid() && u.Valid() && v.Valid() && l < |gs| == |boxes| && l <= from && lxn <= end
    requires |t.jmin| == |u.jmin| == |v.jmin| && end <= |u.jmin| && lxn == from + boxes[l] + 1
    requires SplitFrom(gs, l + 1, t, u, lxn, end, boxes, most, lbitref, novref)
    requires SameTable(u, v, from, lxn) && Bounded(v.nov, from, lxn, most) && gs[l].size == u.nov[l] + novref
    requires PiecesOf(gs[l], v.Groups(from, lxn, lbitref, novref))
    requires var movmin := MoveMin(u.nov[l], boxes[l], most, novref);
      && v.nov[from] == u.nov[l] - (movmin + novref) * boxes[l]
      && forall i :: from < i < lxn ==> v.nov[i] == movmin
    ensures SplitFrom(gs, l, t, v, from, end, boxes, most, lbitref, novref)
  {
    hide SplitOf, SizesOf, SizedAs, PiecesOf, MoveMin, SameTable, Bounded, Table.Groups;
    SizesFilled(gs[l], v, from, lxn, boxes[l], u.nov[l], most, lbitref, novref);
    PrependSizes(gs, l, u, v, from, lxn, end, lbitref, most, novref, Counts(boxes));
    SameWider(t, u, v, l, from, lxn, end);
    PrependSplit(gs, l, u, v, from, lxn, end, lbitref, novref, Counts(boxes));
    BoundedWider(u, v, from, lxn, end, most);
  }

  lemma LastPieceFilled(nov: int, boxes: nat, movmin: int, most: int, novref: int)
    requires if boxes > 0 then MoveOk(nov, boxes, movmin, novref)
      else nov <= most && movmin == MoveMin(nov, 0, most, novref)
    requires movmin >= 0 && novref >= 0
    ensures nov + novref > 0 ==> Least(movmin, nov) + novref > 0
  {
    if boxes > 0 && movmin + novref == 0 {
      assert (movmin + novref) * (boxes + 1) == 0;
    }
  }

  ghost predicate Bounded(nov: seq<int>, from: int, to: int, most: int) {
    0 <= from && forall i :: from <= i < to && i < |nov| ==> 0 <= nov[i] <= most
  }

  lemma BoundedWider(t: Table, u: Table, from: nat, mid: nat, to: nat, most: int)
    requires Bounded(t.nov, mid, to, most) && Bounded(u.nov, from, mid, most) && SameTable(t, u, from, mid)
    ensures Bounded(u.nov, from, to, most)
  {
  }

  lemma SameReflexive(t: Table, from: int, to: int)
    ensures SameTable(t, t, from, to)
  {
  }

  lemma SameWider(t: Table, u: Table, v: Table, l: int, from: int, to: int, end: int)
    requires SameTable(t, u, l + 1, end) && SameTable(u, v, from, to) && l <= from && to <= end
    ensures SameTable(t, v, l, end)
  {
  }

  lemma Untouched(t: Table, u: Table, l: nat, lx: nat, end: nat, lbitref: int, novref: int)
    requires t.Valid() && u.Valid() && l < lx <= |t.jmin| && SameTable(t, u, l + 1, end)
    ensures u.Groups(l, l + 1, lbitref, novref)[0] == t.Groups(0, lx, lbitref, novref)[l]
    ensures u.nov[l] == t.nov[l] && t.Groups(0, lx, lbitref, novref)[l].size == u.nov[l] + novref
  {
  }

  lemma SplitNone(gs: seq<Group>, t: Table, lx: nat, all: nat, boxes: seq<nat>, lbitref: int, novref: int)
    requires t.Valid() && |gs| == |boxes| == lx && all <= |t.jmin|
    ensures SplitOf(gs[lx..], t.Groups(all, all, lbitref, novref), Counts(boxes)[lx..])
    ensures boxes[..lx] == boxes && boxes[..0] == [] && Sum([]) == 0
  {
  }

  lemma PrependSplit(gs: seq<Group>, l: nat, before: Table, after: Table, from: nat, mid: nat, to: nat,
                     lbitref: int, novref: int, counts: seq<nat>)
    requires before.Valid() && after.Valid() && from <= mid <= to <= |before.jmin|
    requires SameTable(before, after, from, mid)
    requires l < |gs| == |counts| && mid - from == counts[l]
    requires PiecesOf(gs[l], after.Groups(from, mid, lbitref, novref))
    requires SplitOf(gs[l + 1..], before.Groups(mid, to, lbitref, novref), counts[l + 1..])
    ensures SplitOf(gs[l..], after.Groups(from, to, lbitref, novref), counts[l..])
  {
    var both := after.Groups(from, to, lbitref, novref);
    assert gs[l..][1..] == gs[l + 1..] && counts[l..][1..] == counts[l + 1..];
    assert both[..counts[l]] == after.Groups(from, mid, lbitref, novref);
    assert both[counts[l]..] == before.Groups(mid, to, lbitref, novref);
  }

  /** g2_reduce.  `ier` is 0, or 714 or 715 when the split is given up; `counts` tells how
      many pieces replace each group.

      When no width makes the total bit count grow, the C code compares against an array
      element before the first one; here such a run leaves the groups as they are. */
  method G2Reduce(jmin: array<int>, jmax: array<int>, lbit: array<int>, nov: array<int>,
                  lx: nat, ndg: nat, ibit: nat, jbit: nat, kbit: nat, novref: int, ghost lbitref: int)
    returns (ier: int, lxOut: nat, kbitOut: nat, ghost counts: seq<nat>)
    requires Separate(jmin, jmax, lbit, nov) && 1 <= lx <= ndg <= jmin.Length
    requires kbit <= 30 && novref >= 0
    requires forall l :: 0 <= l < lx ==> 0 <= nov[l] < Pow2(kbit)
    modifies jmin, jmax, lbit, nov
    ensures ier == 0 || ier == 714 || ier == 715
    ensures ier == 0 ==> lx <= lxOut <= ndg && kbitOut <= kbit && |counts| == lx
    ensures ier == 0 ==> SplitOf(
      old(Now(jmin, jmax, lbit, nov).Groups(0, lx, lbitref, novref)),
      Now(jmin, jmax, lbit, nov).Groups(0, lxOut, lbitref, novref), counts)
    ensures ier == 0 ==> forall l :: 0 <= l < lxOut ==> 0 <= nov[l] < Pow2(kbitOut)
    // without a split nothing changes, and that is so exactly when no split pays
    ensures ier == 0 && kbitOut == kbit ==> lxOut == lx && unchanged(jmin, jmax, lbit, nov)
    ensures ier == 0 && kbitOut == kbit <==> Kept(old(nov[..lx]), ibit + jbit, kbit)
    // a split is the one at the first rise, into the fewest pieces, of given sizes
    ensures ier == 0 && kbitOut != kbit ==> SplitAt(old(nov[..lx]), ibit + jbit, kbit, kbitOut, lxOut, counts)
    ensures ier == 0 && kbitOut != kbit ==> SizesOf(
      old(Now(jmin, jmax, lbit, nov).Groups(0, lx, lbitref, novref)),
      Now(jmin, jmax, lbit, nov).Groups(0, lxOut, lbitref, novref), counts, Pow2(kbitOut) - 1, novref)
    ensures ier == 0 && kbitOut != kbit ==>
      100 * ((ibit + jbit + kbitOut) * lxOut) <= 98 * ((ibit + jbit + kbit) * lx)
    // it is given up when there is no room for the pieces, or a group cannot be cut evenly
    ensures ier != 0 ==> GivenUp(old(nov[..lx]), ibit + jbit, kbit, ndg, novref, ier)
  {
    hide Pow2, SplitOf, PiecesOf, SizesOf, Kept, Wanted, SplitAt, GivenUp, FirstRise, Falls, TotalFor, AllBoxes, Sum,
      Table.Groups;
    counts := seq(lx, i => 1);
    ier, lxOut, kbitOut := 0, lx, kbit;
    ghost var ns, a := nov[..lx], ibit + jbit;
    OwnPieces(Now(jmin, jmax, lbit, nov), lx, counts, lbitref, novref);
    if lx == 1 {
      OneIsKept(ns, a, kbit);
      return;
    }
    var iorigb := (ibit + jbit + kbit) * lx;
    var jj, newboxp, newboxtp, total := ChooseWidth(nov[..lx], ibit, jbit, kbit);
    WhatPays(ns, a, kbit, jj);
    if jj != 0 && iorigb > 0 && 100 * (iorigb - total) >= 2 * iorigb {
      var lxnkp := lx + newboxtp;
      if lxnkp > ndg {
        NoRoom(ns, a, kbit, jj, ndg, novref);
        ier := 715;
        return;
      }
      BoxesHold(ns, newboxp, jj);
      ier := SplitAll(jmin, jmax, lbit, nov, lx, lxnkp, newboxp, jj, novref, lbitref);
      if ier != 0 {
        Uneven(ns, a, kbit, jj, ndg, novref, newboxp);
        return;
      }
      SplitSaves(ns, a, kbit, jj, lxnkp, newboxp);
      lxOut, kbitOut, counts := lxnkp, jj, Counts(newboxp);
    }
  }

  lemma OwnPieces(t: Table, lx: nat, counts: seq<nat>, lbitref: int, novref: int)
    requires t.Valid() && lx <= |t.jmin| && |counts| == lx && novref >= 0
    requires forall l :: 0 <= l < lx ==> counts[l] == 1 && t.nov[l] >= 0
    ensures SplitOf(t.Groups(0, lx, lbitref, novref), t.Groups(0, lx, lbitref, novref), counts)
  {
    EachIsItsOwnPiece(t.Groups(0, lx, lbitref, novref), counts, t.nov[..lx], novref);
  }

  lemma OneIsKept(nov: seq<int>, a: nat, kbit: nat)
    requires |nov| == 1 && nov[0] >= 0
    ensures Kept(nov, a, kbit)
  {
  }

  lemma NoRoom(nov: seq<int>, a: nat, kbit: nat, jj: nat, ndg: nat, novref: int)
    requires forall l :: 0 <= l < |nov| ==> nov[l] >= 0
    requires Wanted(nov, a, kbit, jj) && jj >= 1 && |nov| + Sum(AllBoxes(nov, jj)) > ndg
    ensures GivenUp(nov, a, kbit, ndg, novref, 715)
  {
    hide Wanted, Sum, AllBoxes;
  }

  lemma BoxesHold(nov: seq<int>, boxes: seq<nat>, j: nat)
    requires j >= 1 && forall l :: 0 <= l < |nov| ==> nov[l] >= 0
    requires boxes == AllBoxes(nov, j)
    ensures |boxes| == |nov| && forall l :: 0 <= l < |nov| ==> Boxed(nov[l], boxes[l], j)
  {
    hide Boxed;
  }

  lemma Uneven(nov: seq<int>, a: nat, kbit: nat, jj: nat, ndg: nat, novref: int, boxes: seq<nat>)
    requires forall l :: 0 <= l < |nov| ==> nov[l] >= 0
    requires Wanted(nov, a, kbit, jj) && jj >= 1 && boxes == AllBoxes(nov, jj) && |nov| + Sum(boxes) <= ndg
    requires exists l :: 0 <= l < |nov| && Unsplittable(nov[l], boxes[l], Pow2(jj) - 1, novref)
    ensures GivenUp(nov, a, kbit, ndg, novref, 714)
  {
    hide Wanted, Sum, Unsplittable, Boxes;
  }

  lemma SplitSaves(nov: seq<int>, a: nat, kbit: nat, jj: nat, lxn: nat, boxes: seq<nat>)
    requires forall l :: 0 <= l < |nov| ==> 0 <= nov[l] < Pow2(kbit)
    requires Wanted(nov, a, kbit, jj) && boxes == AllBoxes(nov, jj) && lxn == |nov| + Sum(boxes)
    ensures SplitAt(nov, a, kbit, jj, lxn, Counts(boxes))
    ensures 100 * ((a + jj) * lxn) <= 98 * ((a + kbit) * |nov|)
  {
    hide Falls, Pow2, AllBoxes, Sum;
    NothingCut(nov, a, kbit);
  }

  /** The groups are kept as they are: there is one only, or the total never rises, or where it
      first rises less than two percent are saved. */
  ghost predicate Kept(nov: seq<int>, a: nat, kbit: nat)
    requires forall l :: 0 <= l < |nov| ==> nov[l] >= 0
  {
    || |nov| == 1 || Falls(nov, a, 2, kbit)
    || exists jj: nat :: FirstRise(nov, a, jj, kbit) && !Pays(TotalFor(nov, a, kbit), TotalFor(nov, a, jj))
  }

  ghost predicate Wanted(nov: seq<int>, a: nat, kbit: nat, jj: nat)
    requires forall l :: 0 <= l < |nov| ==> nov[l] >= 0
  {
    |nov| != 1 && FirstRise(nov, a, jj, kbit) && Pays(TotalFor(nov, a, kbit), TotalFor(nov, a, jj))
  }

  ghost predicate SplitAt(nov: seq<int>, a: nat, kbit: nat, jj: nat, lxn: nat, counts: seq<nat>)
    requires forall l :: 0 <= l < |nov| ==> nov[l] >= 0
  {
    && Wanted(nov, a, kbit, jj) && jj >= 1
    && lxn == |nov| + Sum(AllBoxes(nov, jj)) && counts == Counts(AllBoxes(nov, jj))
  }

  ghost predicate GivenUp(nov: seq<int>, a: nat, kbit: nat, ndg: nat, novref: int, ier: int)
    requires forall l :: 0 <= l < |nov| ==> nov[l] >= 0
  {
    exists jj: nat ::
      && Wanted(nov, a, kbit, jj) && jj >= 1
      && (ier == 715 <==> |nov| + Sum(AllBoxes(nov, jj)) > ndg)
      && (ier == 714 ==> exists l :: 0 <= l < |nov| && Unsplittable(nov[l], Boxes(nov[l], jj), Pow2(jj) - 1, novref))
  }

  /** What the choice of a width means. */
  lemma WhatPays(nov: seq<int>, a: nat, kbit: nat, jj: nat)
    requires forall l :: 0 <= l < |nov| ==> 0 <= nov[l] < Pow2(kbit)
    requires if jj == 0 then Falls(nov, a, 2, kbit) else FirstRise(nov, a, jj, kbit)
    ensures jj == 0 ==> Kept(nov, a, kbit)
    ensures jj != 0 ==> jj <= kbit && TotalFor(nov, a, kbit) == (a + kbit) * |nov|
    ensures jj != 0 && |nov| != 1 ==>
      if Pays(TotalFor(nov, a, kbit), TotalFor(nov, a, jj)) then
        Wanted(nov, a, kbit, jj) && !Kept(nov, a, kbit) && jj < kbit
      else Kept(nov, a, kbit)
  {
    hide TotalFor, Falls, Pow2;
    if jj != 0 {
      NothingCut(nov, a, kbit);
      forall j2: nat ensures FirstRise(nov, a, j2, kbit) ==> jj == j2 {
        FirstRiseUnique(nov, a, jj, j2, kbit);
      }
      FirstRiseUnique(nov, a, jj, jj, kbit);
    }
  }

  lemma BitsOfAll(a: int, b: int, n: int)
    ensures a * n + b * n == (a + b) * n
  {
  }

  lemma {:induction false} EachIsItsOwnPiece(gs: seq<Group>, counts: seq<nat>, nov: seq<int>, novref: int)
    requires |gs| == |counts| == |nov| && novref >= 0
    requires forall i :: 0 <= i < |gs| ==> counts[i] == 1 && nov[i] >= 0 && gs[i].size == nov[i] + novref
    ensures SplitOf(gs, gs, counts)
    decreases |gs|
  {
    if |gs| > 0 {
      EachIsItsOwnPiece(gs[1..], counts[1..], nov[1..], novref);
      assert gs[..1][1..] == [];
    }
  }
}
