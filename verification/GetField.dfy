/** The scan for the k-th field of a message (g2_getfld.c).  It unpacks every grid and, when it
    unpacks data, every bitmap that it passes on the way to the field, and stops when all that
    belongs to the field has been seen. */
module GetField {
  import opened Binary
  import opened BitFields
  import opened Packing
  import opened Templates
  import opened Message
  import opened Builder
  import opened Info
  import opened Calls
  import opened Unpack

  // ---- what the scan makes of the calls that built a message ----

  /** After some calls: the grid call in force, the local data, and the bitmap in force, with
      the bitmap indicator seen last; -1 stands for none.  Or the error that ends the scan. */
  datatype Scan = Going(grid: int, local: seq<byte>, ibmap: int, bmap: seq<int>) | Fails(code: int)

  /** A grid call that announces a list of points but gives none. */
  predicate ListMissing(c: Call) {
    c.GridCall? && |c.igds| == 5 && c.igds[2] != 0 && c.ideflist == []
  }

  function PointsOf(calls: seq<Call>, grid: int): int {
    if 0 <= grid < |calls| && calls[grid].GridCall? && |calls[grid].igds| == 5 then calls[grid].igds[1] else 0
  }

  /** A bitmap section: 13 for a bitmap over a grid without points, 17 for a bitmap to be used
      again when none is in force. */
  function PassBitmap(s: Scan, f: Field, ngpts: int, unpack: bool): Scan
    requires s.Going?
  {
    if !unpack then s.(ibmap := f.ibmap)
    else if f.ibmap == 0 then if ngpts <= 0 then Fails(13) else s.(ibmap := 0, bmap := f.bmap)
    else if f.ibmap == 254 then if s.bmap == [] then Fails(17) else s.(ibmap := 254)
    else s.(ibmap := f.ibmap, bmap := [])
  }

  function Pass(s: Scan, calls: seq<Call>, c: nat, unpack: bool): Scan
    requires c < |calls|
  {
    if s.Fails? then s
    else match calls[c]
      case LocalCall(data) => s.(local := data)
      case GridCall(_, _, _, _) => if ListMissing(calls[c]) then Fails(10) else s.(grid := c)
      case FieldCall(f) => PassBitmap(s, f, PointsOf(calls, s.grid), unpack)
  }

  function Scanned(calls: seq<Call>, n: nat, unpack: bool): Scan
    requires n <= |calls|
  {
    if n == 0 then Going(-1, [], -1, []) else Pass(Scanned(calls, n - 1, unpack), calls, n - 1, unpack)
  }

  /** The place of the `k`-th field call. */
  ghost function NthField(calls: seq<Call>, k: nat): (c: nat)
    requires 1 <= k <= FieldCalls(calls)
    ensures c < |calls| && calls[c].FieldCall? && FieldCalls(calls[..c]) == k - 1
  {
    var n := |calls| - 1;
    if k == FieldCalls(calls) && calls[n].FieldCall? then n
    else
      var c := NthField(calls[..n], k);
      assert calls[..n][..c] == calls[..c];
      c
  }

  /** The place of the last grid call among the first `c`, or -1. */
  ghost function LastGrid(calls: seq<Call>, c: nat): (g: int)
    requires c <= |calls|
    ensures -1 <= g < c && (g >= 0 ==> calls[g].GridCall?) && forall i :: g < i < c ==> !calls[i].GridCall?
  {
    if c == 0 then -1 else if calls[c - 1].GridCall? then c - 1 else LastGrid(calls, c - 1)
  }

  lemma CompletePrefix(calls: seq<Call>, c: nat)
    requires AllComplete(calls) && c <= |calls|
    ensures AllComplete(calls[..c])
  {
    hide Call.Complete;
  }

  /** Where the sections of a call stand. */
  lemma {:induction false} SectionsOfCall(first: Section, calls: seq<Call>, c: nat)
    requires AllComplete(calls) && c < |calls|
    ensures AllComplete(calls[..c]) && calls[c].Complete()
    ensures Built(first, calls[..c]) + Appends(calls[c]) <= Built(first, calls)
    decreases |calls|
  {
    hide Call.Complete, Appends;
    CompletePrefix(calls, c);
    var n := |calls| - 1;
    if c < n {
      CompletePrefix(calls, n);
      SectionsOfCall(first, calls[..n], c);
      assert calls[..n][..c] == calls[..c];
    }
  }

  /** The section of the last grid call is the last section 3. */
  lemma {:induction false} GridOfCalls(first: Section, calls: seq<Call>, c: nat)
    requires AllComplete(calls) && c <= |calls| && first.num != 3
    ensures AllComplete(calls[..c])
    ensures var secs, g := Built(first, calls[..c]), LastGrid(calls, c);
      if g < 0 then forall i :: 0 <= i < |secs| ==> secs[i].num != 3
      else
        && AllComplete(calls[..g]) && calls[g].Complete()
        && var r := |Built(first, calls[..g])|;
        r < |secs| && secs[r] == Appends(calls[g])[0] && forall i :: r < i < |secs| ==> secs[i].num != 3
    decreases c
  {
    hide Call.Complete, Appends, Built;
    CompletePrefix(calls, c);
    if c == 0 {
      NothingBuilt(first, calls);
    } else {
      var b := c - 1;
      GridOfCalls(first, calls, b);
      assert calls[..c][..b] == calls[..b];
      OneMoreCall(first, calls, b);
      NumbersOfCall(calls[b]);
    }
  }

  lemma NothingBuilt(first: Section, calls: seq<Call>)
    ensures AllComplete(calls[..0]) && Built(first, calls[..0]) == [first]
  {
  }

  lemma OneMoreCall(first: Section, calls: seq<Call>, b: nat)
    requires b < |calls| && AllComplete(calls[..b + 1])
    ensures AllComplete(calls[..b]) && calls[b].Complete()
    ensures Built(first, calls[..b + 1]) == Built(first, calls[..b]) + Appends(calls[b])
  {
    hide Call.Complete, Appends;
    assert calls[..b + 1][..b] == calls[..b];
    assert calls[..b + 1][b] == calls[b];
    CompletePrefix(calls[..b + 1], b);
  }

  lemma NumbersOfCall(c: Call)
    requires c.Complete()
    ensures var ss := Appends(c);
      if c.GridCall? then ss[0].num == 3 else forall i :: 0 <= i < |ss| ==> ss[i].num != 3
    ensures c.FieldCall? ==> Appends(c)[0].num == 4
  {
    hide BitsOf, ProductBody, RepresentationBody, BitmapBody, GridBody;
  }

  /** How many calls the scan for field `k` takes in: all up to the field and with it, or
      without unpacking and behind an earlier field, all before it; all when there is no
      such field. */
  ghost function ScanEnd(calls: seq<Call>, k: nat, unpack: bool): (n: nat)
    requires k >= 1
    ensures n <= |calls|
  {
    if k > FieldCalls(calls) then |calls|
    else if unpack || k == 1 then NthField(calls, k) + 1 else NthField(calls, k)
  }

  ghost function Answer(calls: seq<Call>, k: nat, unpack: bool): Scan
    requires k >= 1
  {
    Scanned(calls, ScanEnd(calls, k, unpack), unpack)
  }

  // ---- facts about scans ----

  lemma {:induction false} FailureStays(calls: seq<Call>, m: nat, n: nat, unpack: bool)
    requires m <= n <= |calls|
    ensures Scanned(calls, m, unpack).Fails? ==> Scanned(calls, n, unpack) == Scanned(calls, m, unpack)
    decreases n
  {
    if m < n {
      FailureStays(calls, m, n - 1, unpack);
    }
  }

  /** Only grids fail without unpacking. */
  lemma {:induction false} ScannedFacts(calls: seq<Call>, n: nat, unpack: bool)
    requires AllComplete(calls) && n <= |calls|
    requires forall i :: 0 <= i < |calls| && calls[i].FieldCall? ==> calls[i].f.ibmap >= 0
    ensures Scanned(calls, n, unpack).Going? ==>
      && Scanned(calls, n, unpack).grid == LastGrid(calls, n)
      && (Scanned(calls, n, unpack).ibmap >= 0 <==> FieldCalls(calls[..n]) > 0)
    ensures !unpack ==> Scanned(calls, n, unpack) == Fails(10) || Scanned(calls, n, unpack).Going?
    decreases n
  {
    hide Call.Complete;
    if n > 0 {
      ScannedFacts(calls, n - 1, unpack);
      assert calls[..n][..n - 1] == calls[..n - 1];
    } else {
      assert calls[..0] == [];
    }
  }

  /** The scan gives 10 exactly when it comes to a grid call whose list is missing before
      anything else fails; without unpacking nothing else can fail. */
  lemma {:induction false} TenExactly(calls: seq<Call>, n: nat, unpack: bool)
    requires n <= |calls|
    ensures Scanned(calls, n, unpack) == Fails(10) <==>
      exists g :: 0 <= g < n && ListMissing(calls[g]) && Scanned(calls, g, unpack).Going?
    ensures !unpack ==>
      && (Scanned(calls, n, unpack).Going? || Scanned(calls, n, unpack) == Fails(10))
      && (Scanned(calls, n, unpack) == Fails(10) <==> exists g :: 0 <= g < n && ListMissing(calls[g]))
    decreases n
  {
    hide ListMissing;
    if n > 0 {
      TenExactly(calls, n - 1, unpack);
      if ListMissing(calls[n - 1]) && Scanned(calls, n - 1, unpack).Going? {
        IsGrid(calls[n - 1]);
        assert Scanned(calls, n, unpack) == Fails(10);
      }
    }
  }

  lemma IsGrid(c: Call)
    requires ListMissing(c)
    ensures c.GridCall?
  {
  }

  /** A grid call that g2_addgrid accepts: it announces a list of one octet each and gives none. */
  function EmptyListGrid(ngrdpts: int): Call {
    GridCall([0, ngrdpts, 1, 1, 30], Known(Template(30, [], false)), [], [])
  }

  /** Behind that call, whatever follows, no field can be read, not even on a later grid. */
  lemma EmptyListStopsScan(ngrdpts: int, rest: seq<Call>, k: nat, unpack: bool)
    requires 0 <= ngrdpts < SEVENS && k >= 1
    ensures EmptyListGrid(ngrdpts).Complete() && FitsOctets(EmptyListGrid(ngrdpts))
    ensures Answer([EmptyListGrid(ngrdpts)] + rest, k, unpack) == Fails(10)
  {
    hide FieldCalls;
    var calls := [EmptyListGrid(ngrdpts)] + rest;
    assert calls[0] == EmptyListGrid(ngrdpts);
    var n := ScanEnd(calls, k, unpack);
    assert n >= 1;
    assert Scanned(calls, 1, unpack) == Pass(Scanned(calls, 0, unpack), calls, 0, unpack) == Fails(10);
    FailureStays(calls, 1, n, unpack);
  }

  lemma {:induction false} FieldCallsGrow(calls: seq<Call>, a: nat, b: nat)
    requires a <= b <= |calls|
    ensures FieldCalls(calls[..a]) <= FieldCalls(calls[..b])
    decreases b
  {
    if a < b {
      FieldCallsGrow(calls, a, b - 1);
      assert calls[..b][..b - 1] == calls[..b - 1];
    }
  }

  lemma FieldCallsNext(calls: seq<Call>, c: nat)
    requires c < |calls|
    ensures FieldCalls(calls[..c + 1]) == FieldCalls(calls[..c]) + if calls[c].FieldCall? then 1 else 0
  {
    assert calls[..c + 1][..c] == calls[..c];
  }

  /** The k-th field call is not among calls with fewer than k fields. */
  lemma NthFieldBehind(calls: seq<Call>, k: nat, c: nat)
    requires 1 <= k <= FieldCalls(calls) && c <= |calls| && FieldCalls(calls[..c]) < k
    ensures c <= NthField(calls, k)
    ensures c < |calls| && calls[c].FieldCall? && FieldCalls(calls[..c]) == k - 1 ==> NthField(calls, k) == c
  {
    hide FieldCalls, NthField;
    var d := NthField(calls, k);
    FieldCallsNext(calls, d);
    if d < c {
      FieldCallsGrow(calls, d + 1, c);
    }
    if c < |calls| && calls[c].FieldCall? && c < d {
      FieldCallsNext(calls, c);
      FieldCallsGrow(calls, c + 1, d);
    }
  }

  lemma {:induction false} IndicatorSeen(calls: seq<Call>, n: nat)
    requires n <= |calls| && Scanned(calls, n, false).Going?
    ensures FieldCalls(calls[..n]) <= FieldCalls(calls)
    ensures FieldCalls(calls[..n]) > 0 ==>
      Scanned(calls, n, false).ibmap == calls[NthField(calls, FieldCalls(calls[..n]))].f.ibmap
    decreases n
  {
    hide FieldCalls, NthField, ListMissing;
    FieldCallsGrow(calls, n, |calls|);
    assert calls[..|calls|] == calls;
    if n > 0 {
      IndicatorSeen(calls, n - 1);
      FieldCallsNext(calls, n - 1);
      if calls[n - 1].FieldCall? {
        NthFieldBehind(calls, FieldCalls(calls[..n]), n - 1);
      }
    } else {
      assert FieldCalls(calls[..0]) == 0 by { hide *; NoFields(calls); }
    }
  }

  lemma NoFields(calls: seq<Call>)
    ensures FieldCalls(calls[..0]) == 0
  {
  }

  /** Without unpacking, the bitmap indicator that comes back is that of the field only when
      it is the first one, and otherwise that of the field before it. */
  lemma BitmapOfEarlierField(calls: seq<Call>, k: nat)
    requires 1 <= k <= FieldCalls(calls) && Answer(calls, k, false).Going?
    ensures Answer(calls, k, false).ibmap == calls[NthField(calls, if k == 1 then 1 else k - 1)].f.ibmap
  {
    hide FieldCalls, NthField, Scanned;
    FieldCallsNext(calls, NthField(calls, k));
    IndicatorSeen(calls, ScanEnd(calls, k, false));
  }

  /** A grid precedes every field. */
  lemma GridBeforeField(first: Section, calls: seq<Call>, c: nat)
    requires AllComplete(calls) && first.num == 1 && Grammatical(Built(first, calls)) && c < |calls|
    requires calls[c].FieldCall?
    ensures LastGrid(calls, c) >= 0
  {
    hide Call.Complete, Appends, Built;
    SectionsOfCall(first, calls, c);
    GridOfCalls(first, calls, c);
    NumbersOfCall(calls[c]);
    BuiltFirst(first, calls[..c]);
    var pre, secs := Built(first, calls[..c]), Built(first, calls);
    var ss := Appends(calls[c]);
    assert secs[|pre|] == (pre + ss)[|pre|] == ss[0];
    assert secs[|pre| - 1] == (pre + ss)[|pre| - 1] == pre[|pre| - 1];
    assert Follows(secs[|pre| - 1].num, secs[|pre|].num);
    PrefixGrammatical(secs, |pre|);
    assert secs[..|pre|] == (pre + ss)[..|pre|] == pre;
    GridComesFirst(pre);
  }

  lemma PrefixGrammatical(secs: seq<Section>, n: nat)
    requires Grammatical(secs) && n <= |secs|
    ensures Grammatical(secs[..n])
  {
  }

  /** The tables that g2_addgrid and g2_addfield looked the templates up in. */
  datatype Tables = Tables(grid: int -> Lookup, pds: int -> Lookup, drs: int -> Lookup)

  ghost predicate SameTables(tables: Tables, calls: seq<Call>) {
    forall i :: 0 <= i < |calls| ==> LooksUp(tables, calls[i])
  }

  ghost predicate LooksUp(tables: Tables, c: Call) {
    match c
    case LocalCall(_) => true
    case GridCall(igds, mapgrid, _, _) => |igds| == 5 && tables.grid(igds[4]) == mapgrid
    case FieldCall(f) => tables.pds(f.ipdsnum) == f.mappds && tables.drs(f.idrsnum) == f.mapdrs
  }

  /** Every argument fits its octets, and no template of a field is empty. */
  ghost predicate FitsOctets(c: Call)
    requires c.Complete()
  {
    match c
    case LocalCall(_) => true
    case GridCall(igds, mapgrid, vals, list) =>
      GoodHead(igds) && AllFit(vals, FullMap(Grid, mapgrid.t, vals)) && AllBelow(list, 8 * igds[2])
    case FieldCall(f) =>
      && 0 <= f.ipdsnum < 65536 && |f.coords| < 65536 && AllBelow(f.coords, 32)
      && AllFit(f.ipdstmpl, FullMap(Pds, f.mappds.t, f.ipdstmpl))
      && 0 <= f.Points() < SEVENS && 0 <= f.idrsnum < 65536 && AllFit(f.idrstmpl, f.mapdrs.t.omap)
      && 0 <= f.ibmap < 256 && AllBelow(f.bmap, 1) && f.mappds.t.omap != [] && f.mapdrs.t.omap != []
  }

  /** A bitmap has a bit for every point of the grid in force. */
  ghost predicate FieldOnGrid(calls: seq<Call>, c: nat)
    requires c < |calls|
  {
    calls[c].FieldCall? && calls[c].f.ibmap == 0 ==> |calls[c].f.bmap| == PointsOf(calls, LastGrid(calls, c))
  }

  ghost predicate Readable(tables: Tables, calls: seq<Call>) {
    && AllComplete(calls) && SameTables(tables, calls)
    && (forall i :: 0 <= i < |calls| ==> FitsOctets(calls[i]))
    && (forall i :: 0 <= i < |calls| ==> FieldOnGrid(calls, i))
  }

  // ---- the scan ----

  /** What g2_getfld gives; of the data, the octets that are handed on for unpacking. */
  datatype GribField = GribField(igds: seq<int>, igdtmpl: seq<int>, list_opt: seq<int>, local: seq<byte>,
                                 ipdtnum: int, ipdtmpl: seq<int>, coordieee: seq<int>,
                                 ndpts: int, idrtnum: int, idrtmpl: seq<int>, ibmap: int, bmap: seq<int>,
                                 data: seq<byte>)

  const NO_FIELD := GribField([], [], [], [], 0, [], [], 0, 0, [], -1, [], [])

  /** The field of call `c`, with the grid, local data and bitmap of a scan. */
  ghost function FieldOf(calls: seq<Call>, s: Scan, c: nat, unpack: bool): GribField
    requires s.Going? && 0 <= s.grid < |calls| && calls[s.grid].GridCall?
    requires c < |calls| && calls[c].FieldCall? && calls[c].f.packing.Packed?
  {
    var grid, f := calls[s.grid], calls[c].f;
    GribField(grid.igds, grid.igdstmpl, grid.ideflist, s.local, f.ipdsnum, f.ipdstmpl, f.coords,
              f.Points(), f.idrsnum, f.idrstmpl, s.ibmap, s.bmap, if unpack then f.packing.octets else [])
  }

  /** The variables of the loop. */
  datatype Reading = Reading(g: GribField, numfld: nat, have3: bool, have4: bool, have5: bool, have6: bool, have7: bool)

  predicate Complete(r: Reading, unpack: bool) {
    r.have3 && r.have4 && r.have5 && r.have6 && (unpack ==> r.have7)
  }

  ghost predicate HasGrid(g: GribField, calls: seq<Call>, grid: int) {
    0 <= grid < |calls| && calls[grid].GridCall?
    && g.igds == calls[grid].igds && g.igdtmpl == calls[grid].igdstmpl && g.list_opt == calls[grid].ideflist
  }

  ghost predicate HasProduct(g: GribField, f: Field) {
    g.ipdtnum == f.ipdsnum && g.ipdtmpl == f.ipdstmpl && g.coordieee == f.coords
  }

  ghost predicate HasRepresentation(g: GribField, f: Field) {
    g.ndpts == f.Points() && g.idrtnum == f.idrsnum && g.idrtmpl == f.idrstmpl
  }

  /** The grid, local data and bitmap read so far are those of a scan. */
  ghost predicate Carries(r: Reading, calls: seq<Call>, t: Scan) {
    && t.Going? && t.grid >= -1
    && r.have3 == (t.grid >= 0) && (r.have3 ==> HasGrid(r.g, calls, t.grid))
    && r.g.local == t.local && r.have6 == (t.ibmap >= 0) && r.g.ibmap == t.ibmap && r.g.bmap == t.bmap
  }

  /** What has been read of field `f`, after `n` of its sections, when it is the one wanted. */
  ghost predicate FieldRead(r: Reading, f: Field, n: nat, mine: bool, unpack: bool) {
    && r.have4 == (mine && n >= 1) && (r.have4 ==> HasProduct(r.g, f))
    && r.have5 == (mine && n >= 2) && (r.have5 ==> HasRepresentation(r.g, f))
    && r.have7 == (mine && n >= 4 && unpack)
    && r.g.data == if r.have7 && f.packing.Packed? then f.packing.octets else []
  }

  ghost predicate NothingRead(r: Reading) {
    !r.have4 && !r.have5 && !r.have7 && r.g.data == []
  }

  /** After `c` calls and `n` sections of the next one. */
  ghost predicate InScan(r: Reading, calls: seq<Call>, c: nat, n: nat, k: nat, unpack: bool)
    requires c <= |calls|
  {
    var s := Scanned(calls, c, unpack);
    && FieldCalls(calls[..c]) < k && s.Going?
    && if c == |calls| || n == 0 then
        n == 0 && Carries(r, calls, s) && r.numfld == FieldCalls(calls[..c]) && NothingRead(r)
      else if calls[c].FieldCall? then
        && n <= 4 && Carries(r, calls, if n >= 3 then Pass(s, calls, c, unpack) else s)
        && r.numfld == FieldCalls(calls[..c]) + 1 && FieldRead(r, calls[c].f, n, r.numfld == k, unpack)
      else
        n == 1 && Carries(r, calls, Pass(s, calls, c, unpack)) && r.numfld == FieldCalls(calls[..c]) && NothingRead(r)
  }

  /** Section 3: the grid replaces the one before. */
  method ReadGrid(cgrib: array<byte>, ipos: nat, tables: Tables, r: Reading, ghost calls: seq<Call>, ghost c: nat,
                  ghost s: Scan)
    returns (ierr: int, r': Reading)
    requires Readable(tables, calls) && c < |calls| && calls[c].GridCall? && calls[c].Complete()
    requires SectionStands(cgrib, ipos, Appends(calls[c])[0]) && Carries(r, calls, s)
    ensures ierr == if ListMissing(calls[c]) then 10 else 0
    ensures ierr == 0 ==> Carries(r', calls, s.(grid := c))
    ensures r'.(g := r.g, have3 := r.have3) == r
    ensures r'.g == r.g.(igds := r'.g.igds, igdtmpl := r'.g.igdtmpl, list_opt := r'.g.list_opt)
  {
    hide SectionStands, BitsOf, FullMap, AllFit, AllBelow, GridBody;
    assert LooksUp(tables, calls[c]) && FitsOctets(calls[c]);
    ghost var grid := calls[c];
    r' := r;
    var igds, igdtmpl, list;
    ierr, igds, igdtmpl, list := Unpack3(cgrib, ipos, tables.grid, Appends(grid)[0], grid.igds, grid.mapgrid.t,
      grid.igdstmpl, grid.ideflist);
    if ierr != 0 { ierr := 10; return; }
    r' := r.(g := r.g.(igds := igds, igdtmpl := igdtmpl, list_opt := list), have3 := true);
  }

  /** Section 4 of the field that is wanted. */
  method ReadProduct(cgrib: array<byte>, ipos: nat, tables: Tables, r: Reading, ghost calls: seq<Call>, ghost c: nat)
    returns (ierr: int, r': Reading)
    requires Readable(tables, calls) && c < |calls| && calls[c].FieldCall? && calls[c].Complete()
    requires SectionStands(cgrib, ipos, Appends(calls[c])[0])
    ensures ierr == 0 && HasProduct(r'.g, calls[c].f) && r'.have4
    ensures r'.(g := r.g, have4 := r.have4) == r
    ensures r'.g == r.g.(ipdtnum := r'.g.ipdtnum, ipdtmpl := r'.g.ipdtmpl, coordieee := r'.g.coordieee)
  {
    hide SectionStands, BitsOf, FullMap, AllFit, AllBelow, ProductBody;
    assert LooksUp(tables, calls[c]) && FitsOctets(calls[c]);
    ghost var f := calls[c].f;
    r' := r.(have4 := true);
    var ipdsnum, ipdstmpl, coords;
    ierr, ipdsnum, ipdstmpl, coords := Unpack4(cgrib, ipos, tables.pds, Appends(calls[c])[0], f.ipdsnum, f.mappds.t,
      f.ipdstmpl, f.coords);
    if ierr != 0 { ierr := 11; return; }
    r' := r.(g := r.g.(ipdtnum := ipdsnum, ipdtmpl := ipdstmpl, coordieee := coords), have4 := true);
  }

  /** Section 5 of the field that is wanted. */
  method ReadRepresentation(cgrib: array<byte>, ipos: nat, tables: Tables, r: Reading, ghost calls: seq<Call>,
                            ghost c: nat)
    returns (ierr: int, r': Reading)
    requires Readable(tables, calls) && c < |calls| && calls[c].FieldCall? && calls[c].Complete()
    requires SectionStands(cgrib, ipos, Appends(calls[c])[1])
    ensures ierr == 0 && HasRepresentation(r'.g, calls[c].f) && r'.have5
    ensures r'.(g := r.g, have5 := r.have5) == r
    ensures r'.g == r.g.(ndpts := r'.g.ndpts, idrtnum := r'.g.idrtnum, idrtmpl := r'.g.idrtmpl)
  {
    hide SectionStands, BitsOf, FullMap, AllFit, AllBelow, RepresentationBody, Field.Points;
    assert LooksUp(tables, calls[c]) && FitsOctets(calls[c]);
    ghost var f := calls[c].f;
    r' := r.(have5 := true);
    var ndpts, idrsnum, idrstmpl;
    ierr, ndpts, idrsnum, idrstmpl := Unpack5(cgrib, ipos, tables.drs, Appends(calls[c])[1], f.Points(), f.idrsnum,
      f.mapdrs.t, f.idrstmpl);
    if ierr != 0 { ierr := 12; return; }
    r' := r.(g := r.g.(ndpts := ndpts, idrtnum := idrsnum, idrtmpl := idrstmpl), have5 := true);
  }

  /** Section 6 of any field: with unpacking the bitmap replaces the one before, or is the one
      before when the indicator is 254; without, only the indicator is read. */
  method ReadBitmap(cgrib: array<byte>, ipos: nat, tables: Tables, unpack: bool, r: Reading, ghost calls: seq<Call>,
                    ghost c: nat, ghost s: Scan)
    returns (ierr: int, r': Reading)
    requires Readable(tables, calls) && c < |calls| && calls[c].FieldCall? && calls[c].Complete()
    requires SectionStands(cgrib, ipos, Appends(calls[c])[2]) && Carries(r, calls, s)
    requires s.grid == LastGrid(calls, c) >= 0
    ensures var t := PassBitmap(s, calls[c].f, PointsOf(calls, s.grid), unpack);
      if t.Fails? then ierr == t.code && ierr != 0 else ierr == 0 && Carries(r', calls, t)
    ensures r'.(g := r.g, have6 := r.have6) == r && r'.g == r.g.(ibmap := r'.g.ibmap, bmap := r'.g.bmap)
  {
    hide SectionStands, BitsOf, AllBelow, BitmapBody;
    assert FitsOctets(calls[c]) && FitsOctets(calls[s.grid]) && FieldOnGrid(calls, c);
    ghost var f := calls[c].f;
    r' := r;
    if !unpack {
      var ibmap := GetIndicator(cgrib, ipos, Appends(calls[c])[2], f.ibmap, f.bmap);
      r' := r.(g := r.g.(ibmap := ibmap), have6 := true);
      return 0, r';
    }
    var bmpsave := r.g.bmap;
    var ibmap, bmap;
    ierr, ibmap, bmap := Unpack6(cgrib, ipos, r.g.igds[1], Appends(calls[c])[2], f.ibmap, f.bmap);
    if ierr != 0 { ierr := 13; return; }
    if ibmap == 254 {
      if |bmpsave| == 0 { ierr := 17; return; }
      bmap := bmpsave;
    }
    r' := r.(g := r.g.(ibmap := ibmap, bmap := bmap), have6 := true);
  }

  /** One section of field call `c`. */
  method ReadFieldSection(cgrib: array<byte>, ipos: nat, isecnum: int, k: nat, unpack: bool, tables: Tables, r: Reading,
                          ghost calls: seq<Call>, ghost c: nat, ghost n: nat)
    returns (ierr: int, r': Reading)
    requires Readable(tables, calls) && c < |calls| && calls[c].Complete() && calls[c].FieldCall? && n < 4
    requires SectionStands(cgrib, ipos, Appends(calls[c])[n]) && isecnum == n + 4
    requires InScan(r, calls, c, n, k, unpack) && LastGrid(calls, c) >= 0
    ensures ierr != 0 ==> Scanned(calls, c + 1, unpack) == Fails(ierr) && unpack
    ensures ierr == 0 ==> InScan(r', calls, c, n + 1, k, unpack)
  {
    hide SectionStands, BitsOf, Carries, HasProduct, HasRepresentation, PassBitmap, Readable, ListMissing, FieldCalls;
    ghost var s, f := Scanned(calls, c, unpack), calls[c].f;
    ScannedGrid(tables, calls, c, unpack);
    ierr, r' := 0, r;
    if isecnum == 4 {
      r' := r.(numfld := r.numfld + 1);
      if r'.numfld == k {
        ierr, r' := ReadProduct(cgrib, ipos, tables, r', calls, c);
      }
      CarriesSame(r, r', calls, s);
    } else if isecnum == 5 {
      if r.numfld == k {
        ierr, r' := ReadRepresentation(cgrib, ipos, tables, r, calls, c);
      }
      CarriesSame(r, r', calls, s);
      ProductSame(r.g, r'.g, f);
    } else if isecnum == 6 {
      ierr, r' := ReadBitmap(cgrib, ipos, tables, unpack, r, calls, c, s);
      BitmapFails(s, f, PointsOf(calls, s.grid), unpack);
      ProductSame(r.g, r'.g, f);
      RepresentationSame(r.g, r'.g, f);
    } else {
      if r.numfld == k && unpack {
        SectionNumbersOf(calls[c]);
        var data := GetOctets(cgrib, ipos, Appends(calls[c])[3], f.packing.octets);
        r' := r.(g := r.g.(data := data), have7 := true);
      }
      CarriesSame(r, r', calls, Pass(s, calls, c, unpack));
      ProductSame(r.g, r'.g, f);
      RepresentationSame(r.g, r'.g, f);
    }
  }

  /** One section of call `c`, the n-th of the call. */
  method ReadSection(cgrib: array<byte>, ipos: nat, isecnum: int, k: nat, unpack: bool, tables: Tables, r: Reading,
                     ghost calls: seq<Call>, ghost c: nat, ghost n: nat)
    returns (ierr: int, r': Reading)
    requires Readable(tables, calls) && c < |calls| && calls[c].Complete() && n < |Appends(calls[c])|
    requires SectionStands(cgrib, ipos, Appends(calls[c])[n]) && isecnum == Appends(calls[c])[n].num
    requires InScan(r, calls, c, n, k, unpack) && (calls[c].FieldCall? ==> LastGrid(calls, c) >= 0)
    ensures ierr != 0 ==> Scanned(calls, c + 1, unpack) == Fails(ierr) && (k > 1 && !unpack ==> !calls[c].FieldCall?)
    ensures ierr == 0 ==> InScan(r', calls, c, n + 1, k, unpack)
  {
    hide SectionStands, BitsOf, Carries, FieldRead, PassBitmap, Readable, ListMissing, FieldCalls;
    ghost var s := Scanned(calls, c, unpack);
    SectionNumbersOf(calls[c]);
    ierr, r' := 0, r;
    if isecnum == 2 {
      var local := GetOctets(cgrib, ipos, Appends(calls[c])[0], calls[c].data);
      r' := r.(g := r.g.(local := local));
      CarriesLocal(r, r', calls, s, local);
    } else if isecnum == 3 {
      ierr, r' := ReadGrid(cgrib, ipos, tables, r, calls, c, s);
    } else {
      ierr, r' := ReadFieldSection(cgrib, ipos, isecnum, k, unpack, tables, r, calls, c, n);
    }
  }

  lemma ScannedGrid(tables: Tables, calls: seq<Call>, c: nat, unpack: bool)
    requires Readable(tables, calls) && c <= |calls|
    ensures Scanned(calls, c, unpack).Going? ==> Scanned(calls, c, unpack).grid == LastGrid(calls, c)
    ensures Scanned(calls, c, unpack).Going? ==> (Scanned(calls, c, unpack).ibmap >= 0 <==> FieldCalls(calls[..c]) > 0)
  {
    hide FitsOctets, LooksUp, FieldOnGrid, FieldCalls;
    forall i | 0 <= i < |calls| && calls[i].FieldCall? ensures calls[i].f.ibmap >= 0 {
      assert FitsOctets(calls[i]) by { hide *; Fitting(tables, calls, i); }
      IndicatorFits(calls[i]);
    }
    ScannedFacts(calls, c, unpack);
  }

  lemma Fitting(tables: Tables, calls: seq<Call>, i: nat)
    requires Readable(tables, calls) && i < |calls|
    ensures calls[i].Complete() && FitsOctets(calls[i])
  {
  }

  lemma IndicatorFits(c: Call)
    requires c.Complete() && c.FieldCall? && FitsOctets(c)
    ensures c.f.ibmap >= 0
  {
  }

  lemma SectionNumbersOf(c: Call)
    requires c.Complete()
    ensures var ss := Appends(c);
      match c
      case LocalCall(data) => ss[0].num == 2 && ss[0].body == BitsOf(data)
      case GridCall(_, _, _, _) => ss[0].num == 3
      case FieldCall(f) =>
        ss[0].num == 4 && ss[1].num == 5 && ss[2].num == 6 && ss[3].num == 7 && ss[3].body == BitsOf(f.packing.octets)
  {
    hide BitsOf, ProductBody, RepresentationBody, BitmapBody, GridBody;
  }

  lemma CarriesSame(r: Reading, r': Reading, calls: seq<Call>, t: Scan)
    requires Carries(r, calls, t) && r'.have3 == r.have3 && r'.have6 == r.have6
    requires r'.g.igds == r.g.igds && r'.g.igdtmpl == r.g.igdtmpl && r'.g.list_opt == r.g.list_opt
    requires r'.g.local == r.g.local && r'.g.ibmap == r.g.ibmap && r'.g.bmap == r.g.bmap
    ensures Carries(r', calls, t)
  {
  }

  lemma CarriesLocal(r: Reading, r': Reading, calls: seq<Call>, t: Scan, local: seq<byte>)
    requires Carries(r, calls, t) && r' == r.(g := r.g.(local := local))
    ensures Carries(r', calls, t.(local := local))
  {
  }

  lemma ProductSame(g: GribField, g': GribField, f: Field)
    requires g'.ipdtnum == g.ipdtnum && g'.ipdtmpl == g.ipdtmpl && g'.coordieee == g.coordieee
    ensures HasProduct(g, f) ==> HasProduct(g', f)
  {
  }

  lemma RepresentationSame(g: GribField, g': GribField, f: Field)
    requires g'.ndpts == g.ndpts && g'.idrtnum == g.idrtnum && g'.idrtmpl == g.idrtmpl
    ensures HasRepresentation(g, f) ==> HasRepresentation(g', f)
  {
  }

  lemma BitmapFails(s: Scan, f: Field, ngpts: int, unpack: bool)
    requires s.Going?
    ensures PassBitmap(s, f, ngpts, unpack).Fails? ==> unpack
  {
  }

  lemma CarriesHas(r: Reading, calls: seq<Call>, t: Scan)
    requires Carries(r, calls, t)
    ensures t.Going? && r.have3 == (t.grid >= 0) && r.have6 == (t.ibmap >= 0)
  {
  }

  /** After the last section of a call, unless it completes what is wanted. */
  lemma NextCall(r: Reading, calls: seq<Call>, c: nat, n: nat, k: nat, unpack: bool, tables: Tables)
    requires Readable(tables, calls) && c < |calls| && calls[c].Complete() && n == |Appends(calls[c])|
    requires calls[c].FieldCall? ==> LastGrid(calls, c) >= 0
    requires InScan(r, calls, c, n, k, unpack) && !Complete(r, unpack)
    ensures InScan(r, calls, c + 1, 0, k, unpack)
  {
    hide HasProduct, HasRepresentation, Carries, ListMissing, FieldCalls, Readable, PassBitmap;
    FieldCallsNext(calls, c);
    ScannedGrid(tables, calls, c + 1, unpack);
    CarriesHas(r, calls, Scanned(calls, c + 1, unpack));
  }

  lemma ReadIsField(r: Reading, calls: seq<Call>, t: Scan, c: nat, unpack: bool)
    requires Carries(r, calls, t) && r.have3 && c < |calls| && calls[c].FieldCall? && calls[c].f.packing.Packed?
    requires HasProduct(r.g, calls[c].f) && HasRepresentation(r.g, calls[c].f)
    requires r.g.data == if unpack then calls[c].f.packing.octets else []
    ensures HasGrid(r.g, calls, t.grid) && 0 <= t.grid < |calls| && calls[t.grid].GridCall?
    ensures r.g == FieldOf(calls, t, c, unpack)
  {
    hide Field.Points;
  }

  /** What is complete is the answer. */
  lemma CompleteIsAnswer(r: Reading, calls: seq<Call>, c: nat, n: nat, k: nat, unpack: bool, tables: Tables)
    requires Readable(tables, calls) && c < |calls| && calls[c].Complete() && 1 <= n <= |Appends(calls[c])|
    requires InScan(r, calls, c, n, k, unpack) && Complete(r, unpack) && k >= 1
    requires !unpack && n >= 3 ==> FieldCalls(calls[..c]) == 0 || FieldCalls(calls[..c]) + 1 != k
    ensures 1 <= k <= FieldCalls(calls) && calls[c].FieldCall? && NthField(calls, k) == c
    ensures Answer(calls, k, unpack).Going? && HasGrid(r.g, calls, Answer(calls, k, unpack).grid)
    ensures r.g == FieldOf(calls, Answer(calls, k, unpack), c, unpack)
  {
    hide ListMissing, FieldCalls, Readable, NthField, Field.Points, PassBitmap, Carries, HasGrid, HasProduct,
      HasRepresentation, FieldOf, InScan, Complete, Scanned;
    var t := if n >= 3 then Scanned(calls, c + 1, unpack) else Scanned(calls, c, unpack);
    CompleteHas(r, calls, c, n, k, unpack, tables);
    CarriesHas(r, calls, t);
    ReadIsField(r, calls, t, c, unpack);
    FieldCallsNext(calls, c);
    FieldCallsGrow(calls, c + 1, |calls|);
    assert calls[..|calls|] == calls;
    NthFieldBehind(calls, k, c);
    ScannedGrid(tables, calls, c, unpack);
  }

  lemma CompleteHas(r: Reading, calls: seq<Call>, c: nat, n: nat, k: nat, unpack: bool, tables: Tables)
    requires Readable(tables, calls) && c < |calls| && calls[c].Complete() && 1 <= n <= |Appends(calls[c])|
    requires InScan(r, calls, c, n, k, unpack) && Complete(r, unpack)
    ensures calls[c].FieldCall? && calls[c].f.packing.Packed? && FieldCalls(calls[..c]) + 1 == k && r.have3
    ensures HasProduct(r.g, calls[c].f) && HasRepresentation(r.g, calls[c].f) && (unpack ==> n >= 4)
    ensures r.g.data == if unpack then calls[c].f.packing.octets else []
    ensures Carries(r, calls, if n >= 3 then Scanned(calls, c + 1, unpack) else Scanned(calls, c, unpack)) && r.have6
  {
    hide ListMissing, FieldCalls, Readable, Carries, HasProduct, HasRepresentation, PassBitmap;
  }

  /** A scan that fails at call `c`, before the field is complete, gives the error. */
  lemma FailureIsAnswer(calls: seq<Call>, c: nat, k: nat, unpack: bool, code: int)
    requires c < |calls| && Scanned(calls, c + 1, unpack) == Fails(code) && FieldCalls(calls[..c]) < k
    requires k > 1 && !unpack ==> !calls[c].FieldCall?
    ensures k >= 1 && Answer(calls, k, unpack) == Fails(code)
  {
    hide FieldCalls, NthField, Scanned;
    FailureStays(calls, c + 1, |calls|, unpack);
    if k <= FieldCalls(calls) {
      NthFieldBehind(calls, k, c);
      var d := NthField(calls, k);
      FailureStays(calls, c + 1, d + 1, unpack);
      if k > 1 && !unpack {
        FailureStays(calls, c + 1, d, unpack);
      }
    }
  }

  /** Without unpacking, field `k` is complete behind its section 5 unless it is the first. */
  lemma CompleteEarlier(r: Reading, calls: seq<Call>, c: nat, n: nat, k: nat, unpack: bool, tables: Tables)
    requires Readable(tables, calls) && c < |calls| && calls[c].FieldCall? && LastGrid(calls, c) >= 0 && n >= 2
    requires InScan(r, calls, c, n, k, unpack) && !Complete(r, unpack) && !unpack
    ensures FieldCalls(calls[..c]) == 0 || FieldCalls(calls[..c]) + 1 != k
  {
    hide HasProduct, HasRepresentation, Carries, ListMissing, FieldCalls, Readable, PassBitmap;
    FieldCallsNext(calls, c);
    ScannedGrid(tables, calls, c, unpack);
    ScannedGrid(tables, calls, c + 1, unpack);
    CarriesHas(r, calls, if n >= 3 then Scanned(calls, c + 1, unpack) else Scanned(calls, c, unpack));
  }

  // ---- what comes back, said without the scan ----

  /** The bitmap of field call `b` is the one that a field behind the first `n` calls uses
      again: every field call between them uses it again. */
  ghost predicate InForce(calls: seq<Call>, n: nat, b: nat, bmap: seq<int>)
    requires n <= |calls|
  {
    && b < n && calls[b].FieldCall? && calls[b].f.ibmap == 0 && bmap == calls[b].f.bmap
    && forall i :: b < i < n && calls[i].FieldCall? ==> calls[i].f.ibmap == 254
  }

  lemma {:induction false} BitmapOfScan(calls: seq<Call>, n: nat)
    requires n <= |calls| && Scanned(calls, n, true).Going? && Scanned(calls, n, true).bmap != []
    ensures exists b: nat :: InForce(calls, n, b, Scanned(calls, n, true).bmap)
    decreases n
  {
    hide ListMissing;
    var s, last := Scanned(calls, n, true), calls[n - 1];
    if last.FieldCall? && last.f.ibmap == 0 {
      assert InForce(calls, n, n - 1, s.bmap);
    } else {
      BitmapOfScan(calls, n - 1);
      var b: nat :| InForce(calls, n - 1, b, s.bmap);
      assert InForce(calls, n, b, s.bmap);
    }
  }

  /** Field call `c` brings a bitmap for a grid without points. */
  ghost predicate BitmapOfNothing(calls: seq<Call>, c: nat)
    requires c < |calls|
  {
    calls[c].FieldCall? && calls[c].f.ibmap == 0 && PointsOf(calls, LastGrid(calls, c)) <= 0
  }

  /** The scan gives 13 exactly when, with unpacking, it comes to a bitmap for a grid without
      points before anything else fails. */
  lemma {:induction false} ThirteenExactly(tables: Tables, calls: seq<Call>, n: nat, unpack: bool)
    requires Readable(tables, calls) && n <= |calls|
    ensures Scanned(calls, n, unpack) == Fails(13) <==>
      unpack && exists c: nat :: c < n && BitmapOfNothing(calls, c) && Scanned(calls, c, unpack).Going?
    decreases n
  {
    hide ListMissing, Readable, PointsOf;
    if n > 0 {
      ThirteenExactly(tables, calls, n - 1, unpack);
      ScannedGrid(tables, calls, n - 1, unpack);
      if BitmapOfNothing(calls, n - 1) && Scanned(calls, n - 1, unpack).Going? && unpack {
        assert Scanned(calls, n, unpack) == Fails(13);
      }
    }
  }

  /** The place of the last local call among the first `c`, or -1. */
  ghost function LastLocal(calls: seq<Call>, c: nat): (l: int)
    requires c <= |calls|
    ensures -1 <= l < c && (l >= 0 ==> calls[l].LocalCall?) && forall i :: l < i < c ==> !calls[i].LocalCall?
  {
    if c == 0 then -1 else if calls[c - 1].LocalCall? then c - 1 else LastLocal(calls, c - 1)
  }

  lemma {:induction false} LocalOfScan(calls: seq<Call>, n: nat, unpack: bool)
    requires n <= |calls| && Scanned(calls, n, unpack).Going?
    ensures Scanned(calls, n, unpack).local == if LastLocal(calls, n) < 0 then [] else calls[LastLocal(calls, n)].data
    decreases n
  {
    hide ListMissing;
    if n > 0 {
      LocalOfScan(calls, n - 1, unpack);
    }
  }

  lemma {:induction false} BitmapStays(tables: Tables, calls: seq<Call>, n: nat, b: nat)
    requires Readable(tables, calls) && b < n <= |calls| && calls[b].FieldCall? && InForce(calls, n, b, calls[b].f.bmap)
    requires Scanned(calls, n, true).Going?
    ensures Scanned(calls, n, true).bmap == calls[b].f.bmap != []
    decreases n
  {
    hide ListMissing, Readable;
    if n == b + 1 {
      ScannedGrid(tables, calls, b, true);
      assert FieldOnGrid(calls, b) by { hide *; OnGrid(tables, calls, b); }
    } else {
      BitmapStays(tables, calls, n - 1, b);
    }
  }

  lemma OnGrid(tables: Tables, calls: seq<Call>, c: nat)
    requires Readable(tables, calls) && c < |calls|
    ensures FieldOnGrid(calls, c)
  {
  }

  /** A field that uses a bitmap again gives 17 exactly when none is in force: an earlier one
      is lost as soon as a field without a bitmap comes in between. */
  lemma SeventeenExactly(tables: Tables, calls: seq<Call>, c: nat)
    requires Readable(tables, calls) && c < |calls| && calls[c].FieldCall? && calls[c].f.ibmap == 254
    requires Scanned(calls, c, true).Going?
    ensures Scanned(calls, c + 1, true) == Fails(17) <==>
      !exists b: nat :: b < c && calls[b].FieldCall? && InForce(calls, c, b, calls[b].f.bmap)
  {
    hide ListMissing, Readable;
    var s := Scanned(calls, c, true);
    if s.bmap != [] {
      BitmapOfScan(calls, c);
      var b: nat :| InForce(calls, c, b, s.bmap);
      assert InForce(calls, c, b, calls[b].f.bmap);
    } else if b: nat :| b < c && calls[b].FieldCall? && InForce(calls, c, b, calls[b].f.bmap) {
      BitmapStays(tables, calls, c, b);
    }
  }

  /** With unpacking, field `k` comes back with the last grid and the last local data before it
      and with its own bitmap, with the one in force, or with none, as its indicator says. */
  lemma GridAndBitmap(tables: Tables, calls: seq<Call>, k: nat)
    requires Readable(tables, calls) && 1 <= k <= FieldCalls(calls) && Answer(calls, k, true).Going?
    ensures var s, c := Answer(calls, k, true), NthField(calls, k);
      var f := calls[c].f;
      && s.grid == LastGrid(calls, c) && s.ibmap == f.ibmap
      && (f.ibmap == 0 ==> s.bmap == f.bmap) && (f.ibmap != 0 && f.ibmap != 254 ==> s.bmap == [])
      && (f.ibmap == 254 ==> exists b: nat :: InForce(calls, c, b, s.bmap))
      && s.local == if LastLocal(calls, c) < 0 then [] else calls[LastLocal(calls, c)].data
  {
    hide ListMissing, Readable, FieldCalls, NthField, InForce;
    var c := NthField(calls, k);
    ScannedGrid(tables, calls, c, true);
    LocalOfScan(calls, c, true);
    if calls[c].f.ibmap == 254 {
      BitmapOfScan(calls, c);
    }
  }

  // ---- the loop ----

  /** Section `j` of the message is section `n` of call `c`; section 0 belongs to no call. */
  ghost predicate Place(first: Section, calls: seq<Call>, j: nat, c: nat, n: nat)
    requires AllComplete(calls)
  {
    && c <= |calls| && AllComplete(calls[..c])
    && (j == 0 ==> c == 0 && n == 0)
    && (j > 0 ==> j == |Built(first, calls[..c])| + n && if c < |calls| then n < |Appends(calls[c])| else n == 0)
  }

  lemma SectionAtPlace(first: Section, calls: seq<Call>, j: nat, c: nat, n: nat)
    requires AllComplete(calls) && Place(first, calls, j, c, n) && 0 < j < |Built(first, calls)|
    ensures c < |calls| && calls[c].Complete() && n < |Appends(calls[c])|
    ensures Built(first, calls)[j] == Appends(calls[c])[n]
  {
    hide Call.Complete, Appends;
    assert calls[..|calls|] == calls;
    SectionsOfCall(first, calls, c);
    var pre, ss := Built(first, calls[..c]), Appends(calls[c]);
    assert Built(first, calls)[j] == (pre + ss)[j];
  }

  lemma NextPlace(first: Section, calls: seq<Call>, j: nat, c: nat, n: nat)
    requires AllComplete(calls) && Place(first, calls, j, c, n)
    ensures j == 0 ==> c == 0 && n == 0 && Place(first, calls, 1, 0, 0)
    ensures j > 0 && c < |calls| && n + 1 < |Appends(calls[c])| ==> Place(first, calls, j + 1, c, n + 1)
    ensures j > 0 && c < |calls| && n + 1 == |Appends(calls[c])| ==> Place(first, calls, j + 1, c + 1, 0)
  {
    hide Call.Complete, Appends, Built;
    NothingBuilt(first, calls);
    if c < |calls| {
      CompletePrefix(calls, c + 1);
      OneMoreCall(first, calls, c);
    }
  }

  lemma LastPlace(first: Section, calls: seq<Call>, j: nat, c: nat, n: nat)
    requires AllComplete(calls) && Place(first, calls, j, c, n) && j == |Built(first, calls)|
    ensures c == |calls| && n == 0
  {
    hide Call.Complete, Appends, Built;
    BuiltFirst(first, calls);
    if c < |calls| {
      SectionsOfCall(first, calls, c);
    }
  }

  /** What g2_getfld is to return: the error of the scan, 6 for a field that is not there, or
      the field. */
  ghost predicate Returned(ierr: int, gfld: GribField, calls: seq<Call>, k: nat, unpack: bool)
    requires k >= 1
  {
    var s := Answer(calls, k, unpack);
    if s.Fails? then ierr == s.code
    else if k > FieldCalls(calls) then ierr == 6
    else
      var c := NthField(calls, k);
      && ierr == 0 && HasGrid(gfld, calls, s.grid) && calls[c].f.packing.Packed?
      && gfld == FieldOf(calls, s, c, unpack)
  }

  /** The scan returns 10 exactly when it comes to a grid call whose list is missing before
      anything else fails. */
  lemma TenReturned(ierr: int, gfld: GribField, calls: seq<Call>, k: nat, unpack: bool)
    requires k >= 1 && Returned(ierr, gfld, calls, k, unpack)
    ensures ierr == 10 <==>
      exists g :: 0 <= g < ScanEnd(calls, k, unpack) && ListMissing(calls[g]) && Scanned(calls, g, unpack).Going?
  {
    hide Scanned, ListMissing, ScanEnd;
    TenExactly(calls, ScanEnd(calls, k, unpack), unpack);
  }

  ghost predicate MessageOf(m: Grib, first: Section, calls: seq<Call>) {
    AllComplete(calls) && m.Valid() && m.Last() == 7 && m.secs == Built(first, calls)
  }

  /** g2_getfld on the finished message of some calls. */
  method GetFld(cgrib: array<byte>, k: int, unpack: bool, tables: Tables, ghost at: nat, ghost m: Grib,
                ghost first: Section, ghost calls: seq<Call>)
    returns (ierr: int, gfld: GribField)
    requires Readable(tables, calls) && MessageOf(m, first, calls) && FirstMessage(cgrib[..], at, m)
    ensures k <= 0 ==> ierr == 3
    ensures k > 0 && NoGrib(cgrib[..]) ==> ierr == 1
    ensures k > 0 && !NoGrib(cgrib[..]) ==> Returned(ierr, gfld, calls, k, unpack)
  {
    hide HoldsAt, NoGrib, GribAt, Returned, Readable, Grib.Valid, Built, MessageOf;
    gfld := NO_FIELD;
    if k <= 0 { return 3, gfld; }
    var istart := FindGrib(cgrib);
    if istart == -1 { return 1, gfld; }
    assert istart == at;
    var disc, ver, lengrib := ReadIndicator(cgrib, istart, m);
    if ver != 2 { return 2, gfld; }
    ierr, gfld := ScanSections(cgrib, istart, lengrib, k, unpack, tables, m, first, calls);
  }

  lemma ScanStarts(m: Grib, first: Section, calls: seq<Call>, r: Reading, k: nat, unpack: bool)
    requires MessageOf(m, first, calls) && k > 0 && r == Reading(NO_FIELD, 0, false, false, false, false, false)
    ensures AllComplete(calls) && Place(first, calls, 0, 0, 0) && Total(m.secs[..0]) == 0
    ensures InScan(r, calls, 0, 0, k, unpack) && !Complete(r, unpack)
  {
    hide Call.Complete, Appends, Built, Grib.Valid;
    assert calls[..0] == [];
  }

  /** What the scan reads at section `j`. */
  lemma ScanReads(cgrib: array<byte>, at: nat, m: Grib, first: Section, calls: seq<Call>, j: nat)
    requires MessageOf(m, first, calls) && HoldsAt(cgrib[..], at, m) && j <= |m.secs|
    ensures var ipos, s := at + 16 + Total(m.secs[..j]), cgrib[..];
      if j == |m.secs| then ipos == at + m.Length() && EndsWithSevens(s, ipos + 4)
      else
        && ipos + 5 <= |s| && !EndsWithSevens(s, ipos + 4) && SectionStands(cgrib, ipos, m.secs[j])
        && Val(Cut(BitsOf(s), 8 * ipos, 32)) == m.secs[j].Len()
        && Val(Cut(BitsOf(s), 8 * ipos + 32, 8)) == m.secs[j].num
        && ipos + m.secs[j].Len() == at + 16 + Total(m.secs[..j + 1]) <= at + m.Length()
        && 1 <= m.secs[j].num <= 7 && (m.secs[j].num == 1 <==> j == 0)
    ensures at + 16 + Total(m.secs[..j]) + 4 <= cgrib.Length
  {
    hide BitsOf, At, HoldsAt, EndsWithSevens, Section.Bits, Total, Val, Cut, Section.Valid, SectionStands, Built,
      Grammatical;
    var ipos := at + 16 + Total(m.secs[..j]);
    AtMessage(cgrib[..], at, m);
    if j == |m.secs| {
      assert m.secs[..j] == m.secs;
      EndSeen(cgrib[..], at, m);
      WholeTotal(cgrib[..], at, m);
    } else {
      SectionWhere(cgrib[..], at, m, j);
      SectionSeen(cgrib[..], ipos, m.secs[j]);
      StandsInMessage(cgrib, at, m, j);
      NumberAtPlace(m, j);
      WholeTotal(cgrib[..], at, m);
    }
  }

  lemma WholeTotal(s: seq<byte>, at: nat, m: Grib)
    requires HoldsAt(s, at, m)
    ensures m.Length() == 16 + Total(m.secs)
  {
    hide BitsOf, At, HoldsAt, Total, Join;
    MessagePartsAt(s, at, m);
  }

  lemma NumberAtPlace(m: Grib, j: nat)
    requires m.Valid() && j < |m.secs|
    ensures 1 <= m.secs[j].num <= 7 && (m.secs[j].num == 1 <==> j == 0)
  {
    hide Section.Valid;
    if j > 0 {
      LaterSections(m.secs, j);
    }
  }

  /** One section of the scan. */
  method TakeSection(cgrib: array<byte>, ipos: nat, isecnum: int, k: nat, unpack: bool, tables: Tables, r: Reading,
                     ghost m: Grib, ghost first: Section, ghost calls: seq<Call>, ghost j: nat, ghost c: nat,
                     ghost n: nat)
    returns (ierr: int, r': Reading, ghost c': nat, ghost n': nat)
    requires Readable(tables, calls) && MessageOf(m, first, calls) && k > 0 && j < |m.secs|
    requires SectionStands(cgrib, ipos, m.secs[j]) && isecnum == m.secs[j].num && (isecnum == 1 <==> j == 0)
    requires AllComplete(calls) && c <= |calls| && Place(first, calls, j, c, n)
    requires InScan(r, calls, c, n, k, unpack) && !Complete(r, unpack)
    ensures ierr != 0 || Complete(r', unpack) ==> Returned(ierr, r'.g, calls, k, unpack)
    ensures ierr == 0 && !Complete(r', unpack) ==>
      c' <= |calls| && Place(first, calls, j + 1, c', n') && InScan(r', calls, c', n', k, unpack)
  {
    hide *;
    ierr, r', c', n' := 0, r, c, n;
    NextPlace(first, calls, j, c, n);
    if isecnum == 1 {
      c', n' := 0, 0;
      return;
    }
    BeforeSection(m, first, calls, j, c, n, r, k, unpack);
    ierr, r' := ReadSection(cgrib, ipos, isecnum, k, unpack, tables, r, calls, c, n);
    if ierr != 0 {
      FailureIsAnswer(calls, c, k, unpack, ierr);
      ReturnsFailure(calls, c, k, unpack, ierr, r'.g);
      return;
    }
    n' := n + 1;
    if Complete(r', unpack) {
      if !unpack && n' >= 3 {
        ManySections(calls[c], n);
        CompleteEarlier(r, calls, c, n, k, unpack, tables);
      }
      CompleteIsAnswer(r', calls, c, n', k, unpack, tables);
      ReturnsField(calls, c, k, unpack, r'.g);
    } else if n' == |Appends(calls[c])| {
      NextCall(r', calls, c, n', k, unpack, tables);
      c', n' := c + 1, 0;
    }
  }

  lemma BeforeSection(m: Grib, first: Section, calls: seq<Call>, j: nat, c: nat, n: nat, r: Reading, k: nat,
                      unpack: bool)
    requires MessageOf(m, first, calls) && 0 < j < |m.secs|
    requires AllComplete(calls) && c <= |calls| && Place(first, calls, j, c, n) && InScan(r, calls, c, n, k, unpack)
    ensures c < |calls| && calls[c].Complete() && n < |Appends(calls[c])| && m.secs[j] == Appends(calls[c])[n]
    ensures calls[c].FieldCall? ==> LastGrid(calls, c) >= 0
    ensures FieldCalls(calls[..c]) < k
  {
    hide Call.Complete, Appends, Built, Place, Grammatical, Section.Valid;
    SectionAtPlace(first, calls, j, c, n);
    BuiltFirst(first, calls);
    FirstSection(m.secs);
    if calls[c].FieldCall? {
      GridBeforeField(first, calls, c);
    }
  }

  lemma ManySections(c: Call, n: nat)
    requires c.Complete() && 2 <= n < |Appends(c)|
    ensures c.FieldCall?
  {
  }

  lemma ReturnsFailure(calls: seq<Call>, c: nat, k: nat, unpack: bool, code: int, g: GribField)
    requires k >= 1 && Answer(calls, k, unpack) == Fails(code)
    ensures Returned(code, g, calls, k, unpack)
  {
  }

  lemma ReturnsField(calls: seq<Call>, c: nat, k: nat, unpack: bool, g: GribField)
    requires 1 <= k <= FieldCalls(calls) && NthField(calls, k) == c && calls[c].FieldCall? && calls[c].Complete()
    requires Answer(calls, k, unpack).Going? && HasGrid(g, calls, Answer(calls, k, unpack).grid)
    requires g == FieldOf(calls, Answer(calls, k, unpack), c, unpack)
    ensures Returned(0, g, calls, k, unpack)
  {
    hide FieldCalls, NthField, Scanned;
  }

  /** The loop over the sections (lines 317-538). */
  method ScanSections(cgrib: array<byte>, at: nat, lengrib: int, k: nat, unpack: bool, tables: Tables, ghost m: Grib,
                      ghost first: Section, ghost calls: seq<Call>)
    returns (ierr: int, gfld: GribField)
    requires Readable(tables, calls) && MessageOf(m, first, calls) && HoldsAt(cgrib[..], at, m)
    requires lengrib == m.Length() + 4 && k > 0
    ensures Returned(ierr, gfld, calls, k, unpack)
  {
    hide *;
    ghost var secs := m.secs;
    ghost var j: nat, c: nat, n: nat := 0, 0, 0;
    var r := Reading(NO_FIELD, 0, false, false, false, false, false);
    var ipos := at + 16;
    ierr := 0;
    ScanStarts(m, first, calls, r, k, unpack);
    while true
      invariant j <= |secs| && ipos == at + 16 + Total(secs[..j])
      invariant AllComplete(calls) && c <= |calls| && Place(first, calls, j, c, n)
      invariant InScan(r, calls, c, n, k, unpack) && !Complete(r, unpack)
      decreases |secs| - j
    {
      ScanReads(cgrib, at, m, first, calls, j);
      var end := IsSevens(cgrib, ipos);
      if end {
        ipos := ipos + 4;
        if ipos != at + lengrib { return 4, r.g; }
        NotThere(m, first, calls, j, c, n, r, k, unpack);
        return 6, r.g;
      }
      var lensec := LoadField(cgrib, 8 * ipos, 32);
      var isecnum := LoadField(cgrib, 8 * ipos + 32, 8);
      if isecnum < 1 || isecnum > 7 { return 8, r.g; }
      ierr, r, c, n := TakeSection(cgrib, ipos, isecnum, k, unpack, tables, r, m, first, calls, j, c, n);
      if ierr != 0 { return ierr, r.g; }
      ipos := ipos + lensec;
      if ipos > at + lengrib { return 7, r.g; }
      if Complete(r, unpack) { return 0, r.g; }
      j := j + 1;
    }
  }

  /** At the end of the message the field is not there. */
  lemma NotThere(m: Grib, first: Section, calls: seq<Call>, j: nat, c: nat, n: nat, r: Reading, k: nat, unpack: bool)
    requires MessageOf(m, first, calls) && j == |m.secs| && k > 0
    requires AllComplete(calls) && c <= |calls| && Place(first, calls, j, c, n) && InScan(r, calls, c, n, k, unpack)
    ensures Returned(6, r.g, calls, k, unpack)
  {
    hide Call.Complete, Built, Grib.Valid, Place, FieldCalls, Carries;
    LastPlace(first, calls, j, c, n);
    assert calls[..|calls|] == calls;
  }

  /** Any calls, then reading field `k` of the message that the successful ones built. */
  method BuildAndGetFld(cgrib: array<byte>, listsec0: seq<int>, listsec1: seq<int>, calls: seq<Call>, k: int,
                        unpack: bool, tables: Tables)
    returns (r: int, ierr: int, gfld: GribField)
    requires |listsec0| >= 2 && |listsec1| == 13 && AllValid(calls) && 43 + Rooms(calls) <= cgrib.Length < SEVENS
    requires Readable(tables, Accepted(listsec0[0], Identification(listsec1), calls))
    modifies cgrib
    ensures r >= 0 && k <= 0 ==> ierr == 3
    ensures r >= 0 && k > 0 ==>
      Returned(ierr, gfld, Accepted(listsec0[0], Identification(listsec1), calls), k, unpack)
  {
    hide Holds, HoldsAt, Identification, NoGrib, FirstMessage, Readable, Rooms, AllValid, Successful, Accepted, Built,
      Grib.Valid, Returned;
    ierr, gfld := 0, NO_FIELD;
    var statuses;
    r, statuses := Build(cgrib, listsec0, listsec1, calls);
    if r < 0 { return; }
    ghost var first := Identification(listsec1);
    ghost var done := Accepted(listsec0[0], first, calls);
    ghost var m := Result(listsec0[0], listsec1, done);
    StandsFirst(cgrib[..], m);
    ierr, gfld := GetFld(cgrib, k, unpack, tables, 0, m, first, done);
  }
}
