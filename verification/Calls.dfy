/** Runs of builder calls: what any sequence of calls, failing ones included, leaves in the
    octets, and what g2_info then finds. */
module Calls {
  import opened Binary
  import opened Packing
  import opened Templates
  import opened Message
  import opened Builder
  import opened Info

  /** A builder call with its arguments. */
  datatype Call =
    | LocalCall(data: seq<byte>)
    | GridCall(igds: seq<int>, mapgrid: Lookup, igdstmpl: seq<int>, ideflist: seq<int>)
    | FieldCall(f: Field)
  {
    /** What the functions demand of their arguments. */
    predicate Valid() {
      match this
      case LocalCall(_) => true
      case GridCall(igds, mapgrid, igdstmpl, ideflist) =>
        && |igds| == 5 && igds[0] == 0 && 0 <= igds[2] < 256 && (igds[2] == 0 ==> ideflist == [])
        && (mapgrid.Known? ==> |igdstmpl| >= |mapgrid.t.omap| && |FullMap(Grid, mapgrid.t, igdstmpl)| == |igdstmpl|)
      case FieldCall(f) => f.Valid()
    }

    /** Nothing about the arguments makes the call fail. */
    predicate Complete() {
      Valid() && (GridCall? ==> mapgrid.Known?) && (FieldCall? ==> f.Complete())
    }

    /** Octets that are always enough. */
    function Room(): nat
      requires Valid()
    {
      match this
      case LocalCall(data) => 9 + |data|
      case GridCall(igds, mapgrid, igdstmpl, ideflist) =>
        18 + if mapgrid.Known? then MapBits(FullMap(Grid, mapgrid.t, igdstmpl)) / 8 + igds[2] * |ideflist| else 0
      case FieldCall(f) => f.Room() + 4
    }
  }

  function Appends(c: Call): (ss: seq<Section>)
    requires c.Complete()
    ensures |ss| == if c.FieldCall? then 4 else 1
  {
    match c
    case LocalCall(data) => [Section(2, BitsOf(data))]
    case GridCall(igds, mapgrid, igdstmpl, ideflist) => [Section(3, GridBody(igds, mapgrid.t, igdstmpl, ideflist))]
    case FieldCall(f) => f.Sections()
  }

  predicate AllComplete(calls: seq<Call>) {
    forall i :: 0 <= i < |calls| ==> calls[i].Complete()
  }

  function Built(first: Section, calls: seq<Call>): seq<Section>
    requires AllComplete(calls)
  {
    if |calls| == 0 then [first] else Built(first, calls[..|calls| - 1]) + Appends(calls[|calls| - 1])
  }

  function FieldCalls(calls: seq<Call>): nat {
    if |calls| == 0 then 0
    else FieldCalls(calls[..|calls| - 1]) + if calls[|calls| - 1].FieldCall? then 1 else 0
  }

  function LocalCalls(calls: seq<Call>): nat {
    if |calls| == 0 then 0
    else LocalCalls(calls[..|calls| - 1]) + if calls[|calls| - 1].LocalCall? then 1 else 0
  }

  /** The sections that g2_info counts are the successful calls: each g2_addfield is a field
      and each g2_addlocal a local section, whatever the order of the calls. */
  lemma {:induction false} CountsAreCalls(first: Section, calls: seq<Call>)
    requires first.num == 1 && AllComplete(calls)
    ensures Count(Built(first, calls), 4) == FieldCalls(calls)
    ensures Count(Built(first, calls), 2) == LocalCalls(calls)
    decreases |calls|
  {
    if |calls| == 0 {
      assert [first][..0] == [];
    } else {
      var front, last := calls[..|calls| - 1], calls[|calls| - 1];
      CountsAreCalls(first, front);
      CountConcat(Built(first, front), Appends(last), 4);
      CountConcat(Built(first, front), Appends(last), 2);
      CountOfCall(last);
    }
  }

  lemma {:induction false} CountConcat(a: seq<Section>, b: seq<Section>, num: nat)
    ensures Count(a + b, num) == Count(a, num) + Count(b, num)
    decreases |b|
  {
    if |b| == 0 {
      assert a + b == a;
    } else {
      CountConcat(a, b[..|b| - 1], num);
      assert (a + b)[..|a + b| - 1] == a + b[..|b| - 1];
    }
  }

  lemma CountOfCall(c: Call)
    requires c.Complete()
    ensures Count(Appends(c), 4) == (if c.FieldCall? then 1 else 0)
    ensures Count(Appends(c), 2) == (if c.LocalCall? then 1 else 0)
  {
    hide BitsOf, ProductBody, RepresentationBody, BitmapBody, GridBody, FullMap;
    var ss := Appends(c);
    assert ss[..|ss|] == ss;
    NoCount(ss);
    forall k | 0 <= k < |ss|
      ensures forall num: nat :: Count(ss[..k + 1], num) == Count(ss[..k], num) + if ss[k].num == num then 1 else 0
    {
      CountNext(ss, k);
    }
    if c.FieldCall? {
      assert Count(ss[..1], 4) == 1 && Count(ss[..2], 4) == 1 && Count(ss[..3], 4) == 1 && Count(ss[..4], 4) == 1;
      assert Count(ss[..1], 2) == 0 && Count(ss[..2], 2) == 0 && Count(ss[..3], 2) == 0 && Count(ss[..4], 2) == 0;
    } else {
      assert Count(ss[..1], 2) == Count(ss, 2) && Count(ss[..1], 4) == Count(ss, 4);
    }
  }

  lemma NoCount(ss: seq<Section>)
    ensures forall num: nat :: Count(ss[..0], num) == 0
  {
  }

  // ---- runs ----

  /** The calls that did not fail. */
  function Successful(calls: seq<Call>, statuses: seq<int>): seq<Call>
    requires |statuses| == |calls|
  {
    if |calls| == 0 then []
    else
      var n := |calls| - 1;
      Successful(calls[..n], statuses[..n]) + if statuses[n] >= 0 then [calls[n]] else []
  }

  predicate AllValid(calls: seq<Call>) {
    forall i :: 0 <= i < |calls| ==> calls[i].Valid()
  }

  function Rooms(calls: seq<Call>): nat
    requires AllValid(calls)
  {
    if |calls| == 0 then 0 else Rooms(calls[..|calls| - 1]) + calls[|calls| - 1].Room()
  }

  lemma {:induction false} RoomsPrefix(calls: seq<Call>, i: nat)
    requires AllValid(calls) && i < |calls|
    ensures Rooms(calls[..i + 1]) == Rooms(calls[..i]) + calls[i].Room() <= Rooms(calls)
    decreases |calls|
  {
    hide Call.Room, Call.Valid;
    assert calls[..i + 1][..i] == calls[..i];
    if i + 1 < |calls| {
      RoomsPrefix(calls[..|calls| - 1], i);
      assert calls[..|calls| - 1][..i + 1] == calls[..i + 1] && calls[..|calls| - 1][..i] == calls[..i];
    } else {
      assert calls[..i + 1] == calls;
    }
  }

  /** A grid call needs its room and no more. */
  lemma GridRoom(c: Call)
    requires c.GridCall? && c.Complete()
    ensures Total(Appends(c)) <= c.Room()
    ensures 144 + MapBits(FullMap(Grid, c.mapgrid.t, c.igdstmpl)) + 8 * c.igds[2] * |c.ideflist| == 8 * c.Room()
  {
    hide FullMap, GridBody;
    MapOctets(FullMap(Grid, c.mapgrid.t, c.igdstmpl));
    GridBodyOctets(c.igds, c.mapgrid.t, c.igdstmpl, c.ideflist);
    JoinOne(Appends(c)[0]);
    EightOf(c.igds[2], |c.ideflist|);
  }

  lemma RoomOfGrid(c: Call)
    requires c.GridCall? && c.Valid()
    ensures c.Room() >= 18
  {
    hide FullMap;
    if c.mapgrid.Known? {
      assert c.igds[2] * |c.ideflist| >= 0;
    }
  }

  lemma EightOf(a: int, b: int)
    ensures 8 * a * b == 8 * (a * b)
  {
  }

  // ---- which calls succeed ----

  /** The octets of a message without its end that look like the end, so that the builder takes
      the message for a finished one. */
  ghost predicate LooksFinished(m: Grib) {
    At(m.Bits(), 8 * m.Length() - 32, ToBits(SEVENS, 32))
  }

  /** A call on message `m` succeeds. */
  ghost predicate Accepts(m: Grib, c: Call)
    requires m.secs != []
  {
    && c.Complete() && !LooksFinished(m)
    && match c
      case LocalCall(_) => m.Last() in {1, 7}
      case GridCall(_, _, _, _) => m.Last() in {1, 2, 7}
      case FieldCall(f) => m.Last() in {3, 7} && (f.ibmap == 254 ==> HasBitmap(m.secs, |m.secs|))
  }

  /** The calls that succeed, one after the other, on a message that starts with `first`. */
  ghost function Accepted(discipline: int, first: Section, calls: seq<Call>): (done: seq<Call>)
    ensures AllComplete(done)
  {
    if |calls| == 0 then []
    else
      var done, c := Accepted(discipline, first, calls[..|calls| - 1]), calls[|calls| - 1];
      BuiltFirst(first, done);
      if Accepts(Grib(discipline, Built(first, done)), c) then done + [c] else done
  }

  lemma EndSeenBy(s: seq<byte>, m: Grib)
    requires Holds(s, m, false)
    ensures EndsWithSevens(s, m.Length()) <==> LooksFinished(m)
  {
    hide BitsOf, ToBits, Join, Section0;
    JoinSize(m.secs);
    SevensBits();
    var b, p := BitsOf(s), 8 * m.Length() - 32;
    assert |m.Bits()| == p + 32;
    assert b[p..p + 32] == b[..p + 32][p..] == m.Bits()[p..];
    if EndsWithSevens(s, m.Length()) {
      BitsOfSlice(s, m.Length() - 4, 4);
    } else if LooksFinished(m) {
      OctetsAt(s, m.Length() - 4, [0x37, 0x37, 0x37, 0x37]);
    }
  }

  /** One call, whatever becomes of it. */
  method Perform(cgrib: array<byte>, c: Call, ghost m: Grib) returns (status: int)
    requires Holds(cgrib[..], m, false) && c.Valid()
    requires m.Length() + c.Room() + 6 <= cgrib.Length < SEVENS
    modifies cgrib
    ensures status >= 0 <==> Accepts(m, c)
    ensures status >= 0 ==> c.Complete() && Holds(cgrib[..], m.Add(Appends(c)), false)
    ensures status >= 0 ==> status == m.Add(Appends(c)).Length() <= m.Length() + c.Room()
    ensures status < 0 ==> Holds(cgrib[..], m, false) && KeepsBefore(old(cgrib[..]), cgrib[..], 8 * m.Length())
  {
    hide Holds, KeepsBefore, BitsOf, EndsWithSevens, Total, LooksFinished;
    KeepsSelf(cgrib[..], 8 * m.Length());
    HeldIsValid(cgrib[..], m, false);
    EndSeenBy(cgrib[..], m);
    match c {
      case LocalCall(data) =>
        status := AddLocal(cgrib, data, m, false);
        LocalLength(m, data);
      case GridCall(_, _, _, _) => status := PerformGrid(cgrib, c, m);
      case FieldCall(_) => status := PerformField(cgrib, c, m);
    }
  }

  method PerformGrid(cgrib: array<byte>, c: Call, ghost m: Grib) returns (status: int)
    requires Holds(cgrib[..], m, false) && c.GridCall? && c.Valid()
    requires m.Length() + c.Room() + 6 <= cgrib.Length < SEVENS
    modifies cgrib
    ensures status >= 0 <==> Accepts(m, c)
    ensures status >= 0 ==> c.Complete() && Holds(cgrib[..], m.Add(Appends(c)), false)
    ensures status >= 0 ==> status == m.Add(Appends(c)).Length() <= m.Length() + c.Room()
    ensures status < 0 ==> Holds(cgrib[..], m, false) && KeepsBefore(old(cgrib[..]), cgrib[..], 8 * m.Length())
  {
    hide Holds, KeepsBefore, FullMap, GridBody, BitsOf, EndsWithSevens, Total, MapBits, Call.Room, Grib.Valid,
      Section.Valid, LooksFinished;
    HeldIsValid(cgrib[..], m, false);
    KeepsSelf(cgrib[..], 8 * m.Length());
    EndSeenBy(cgrib[..], m);
    RoomOfGrid(c);
    if c.mapgrid.Known? {
      GridRoom(c);
      AddTotal(m, Appends(c));
    }
    status := AddGrid(cgrib, c.igds, c.mapgrid, c.igdstmpl, c.ideflist, m, false);
  }

  method PerformField(cgrib: array<byte>, c: Call, ghost m: Grib) returns (status: int)
    requires Holds(cgrib[..], m, false) && c.FieldCall? && c.Valid()
    requires m.Length() + c.Room() + 6 <= cgrib.Length < SEVENS
    modifies cgrib
    ensures status >= 0 <==> Accepts(m, c)
    ensures status >= 0 ==> c.Complete() && Holds(cgrib[..], m.Add(Appends(c)), false)
    ensures status >= 0 ==> status == m.Add(Appends(c)).Length() <= m.Length() + c.Room()
    ensures status < 0 ==> Holds(cgrib[..], m, false) && KeepsBefore(old(cgrib[..]), cgrib[..], 8 * m.Length())
  {
    hide Holds, KeepsBefore, Field.Sections, Field.Room, Field.Valid, BitsOf, EndsWithSevens, HasBitmap, FieldStatus,
      Total, LooksFinished;
    HeldIsValid(cgrib[..], m, false);
    KeepsSelf(cgrib[..], 8 * m.Length());
    EndSeenBy(cgrib[..], m);
    StatusIs(c.f, m);
    status := AddField(cgrib, c.f, m, false);
    if status >= 0 {
      RoomEnough(c.f);
      AddTotal(m, c.f.Sections());
    }
  }

  lemma StatusIs(f: Field, m: Grib)
    ensures FieldStatus(f, HasBitmap(m.secs, |m.secs|)) == 0 <==>
      && f.mappds.Known? && f.mapdrs.Known? && f.packing.Packed?
      && (f.ibmap == 254 ==> HasBitmap(m.secs, |m.secs|))
  {
    hide HasBitmap;
  }

  lemma LocalLength(m: Grib, data: seq<byte>)
    ensures m.Add([Section(2, BitsOf(data))]).Length() == m.Length() + 5 + |data|
  {
    hide BitsOf;
    AddTotal(m, [Section(2, BitsOf(data))]);
    JoinOne(Section(2, BitsOf(data)));
  }

  /** The message that a run leaves. */
  ghost function Result(discipline: int, listsec1: seq<int>, calls: seq<Call>): Grib
    requires |listsec1| == 13 && AllComplete(calls)
  {
    Grib(discipline, Built(Identification(listsec1), calls))
  }

  /** g2_create, then any calls in any order, then g2_gribend: the octets hold the message of
      the calls that succeeded, and the others have left no trace in it. */
  method Build(cgrib: array<byte>, listsec0: seq<int>, listsec1: seq<int>, calls: seq<Call>)
    returns (r: int, statuses: seq<int>)
    requires |listsec0| >= 2 && |listsec1| == 13 && AllValid(calls)
    requires 43 + Rooms(calls) <= cgrib.Length < SEVENS
    modifies cgrib
    ensures r == -1 <==> listsec0[1] != 2
    ensures r != -1 ==>
      && |statuses| == |calls|
      && Successful(calls, statuses) == Accepted(listsec0[0], Identification(listsec1), calls)
    ensures r != -1 ==> var m := Result(listsec0[0], listsec1, Successful(calls, statuses));
      && m.secs != [] && (r >= 0 <==> m.Last() == 7) && Holds(cgrib[..], m, r >= 0)
      && (r >= 0 ==> r == m.Length() + 4)
  {
    hide Holds, KeepsBefore, FullMap, Call.Room, Call.Valid, Call.Complete, Appends, Total, Identification, Accepts;
    statuses := [];
    r := Create(cgrib, listsec0, listsec1);
    if r == -1 { return; }
    ghost var first, done := Identification(listsec1), [];
    ghost var m := Grib(listsec0[0], [first]);
    StartLength(listsec0[0], listsec1);
    for i := 0 to |calls|
      invariant |statuses| == i && done == Successful(calls[..i], statuses) && AllComplete(done)
      invariant done == Accepted(listsec0[0], first, calls[..i])
      invariant m == Grib(listsec0[0], Built(first, done)) && Holds(cgrib[..], m, false)
      invariant m.Length() <= 37 + Rooms(calls[..i])
    {
      RoomsPrefix(calls, i);
      var status := Perform(cgrib, calls[i], m);
      assert calls[..i + 1][..i] == calls[..i] && (statuses + [status])[..i] == statuses;
      statuses := statuses + [status];
      if status >= 0 {
        BuiltMore(first, done, calls[i]);
        done := done + [calls[i]];
        m := m.Add(Appends(calls[i]));
      }
    }
    assert calls[..|calls|] == calls;
    HeldIsValid(cgrib[..], m, false);
    r := GribEnd(cgrib, m, false);
  }

  lemma StartLength(discipline: int, listsec1: seq<int>)
    requires |listsec1| == 13
    ensures Grib(discipline, [Identification(listsec1)]).Length() == 37
  {
    hide Identification;
    IdentificationSize(listsec1);
    JoinOne(Identification(listsec1));
  }

  lemma BuiltMore(first: Section, calls: seq<Call>, c: Call)
    requires AllComplete(calls) && c.Complete()
    ensures AllComplete(calls + [c]) && Built(first, calls + [c]) == Built(first, calls) + Appends(c)
  {
    hide Call.Complete, Appends;
    assert (calls + [c])[..|calls|] == calls;
  }

  /** Octets that hold a message start with "GRIB". */
  lemma HeldIsValid(s: seq<byte>, m: Grib, finished: bool)
    requires Holds(s, m, finished)
    ensures m.Valid() && |s| >= 4 && StartsWithGrib(s)
  {
    hide BitsOf, ToBits, At, Join, Section0, Grib.Bits;
    MessageParts(BitsOf(s), m, finished);
    OctetsAt(s, 0, GRIB);
  }

  /** What g2_info finds after a run: as many fields and local sections as calls succeeded. */
  method BuildAndInfo(cgrib: array<byte>, listsec0: seq<int>, listsec1: seq<int>, calls: seq<Call>)
    returns (r: int, statuses: seq<int>, ierr: int, numfields: nat, numlocal: nat, found: seq<int>)
    requires |listsec0| >= 2 && |listsec1| == 13 && AllValid(calls)
    requires 43 + Rooms(calls) <= cgrib.Length < SEVENS
    modifies cgrib
    ensures r >= 0 ==>
      && |statuses| == |calls| && ierr == 0
      && Successful(calls, statuses) == Accepted(listsec0[0], Identification(listsec1), calls)
    ensures r >= 0 ==>
      numfields == FieldCalls(Successful(calls, statuses)) && numlocal == LocalCalls(Successful(calls, statuses))
    ensures r >= 0 ==> (found == listsec1 <==> AllFit(listsec1, MAPSEC1))
  {
    hide Holds, HoldsAt, EntriesBits, GribAt, NoGrib, AllFit, Count, Rooms, AllValid, Successful, Built, FieldCalls,
      LocalCalls, Total, Grammatical, Grib.Valid;
    ierr, numfields, numlocal, found := 0, 0, 0, [];
    r, statuses := Build(cgrib, listsec0, listsec1, calls);
    if r < 0 { return; }
    ghost var done := Successful(calls, statuses);
    ghost var m := Result(listsec0[0], listsec1, done);
    StandsFirst(cgrib[..], m);
    BuiltFirst(Identification(listsec1), done);
    CountsAreCalls(Identification(listsec1), done);
    var discipline, edition, lengrib;
    ierr, discipline, edition, lengrib, found, numfields, numlocal := Info.Info(cgrib, cgrib.Length, 0, m, listsec1);
  }

  /** A finished message from the first octet on is what a reader finds. */
  lemma StandsFirst(s: seq<byte>, m: Grib)
    requires Holds(s, m, true)
    ensures m.Valid() && HoldsAt(s, 0, m) && m.Length() + 4 <= |s| && FirstMessage(s, 0, m) && !NoGrib(s)
  {
    hide Holds, HoldsAt, GribAt, NoGrib, Grib.Valid;
    HeldIsValid(s, m, true);
    FinishedHoldsAt(s, m);
    AtMessage(s, 0, m);
    FirstGrib(s);
  }

  lemma FirstGrib(s: seq<byte>)
    requires |s| >= 4 && StartsWithGrib(s)
    ensures GribAt(s, 0) && !NoGrib(s)
  {
    assert s[0..4] == s[..4];
    assert GribAt(s, 0);
  }

  lemma {:induction false} BuiltFirst(first: Section, calls: seq<Call>)
    requires AllComplete(calls)
    ensures |Built(first, calls)| > 0 && Built(first, calls)[0] == first
    decreases |calls|
  {
    hide Appends, Call.Complete;
    if |calls| > 0 {
      BuiltFirst(first, calls[..|calls| - 1]);
    }
  }
}
