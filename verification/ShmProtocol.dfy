/** The two processes that share the FIFO of shmfifo.c, one putting and one getting records.
    Every system call on a semaphore and every use of the shared memory is a step of its own,
    and the steps of the two processes interleave in any order.

    Debug logging takes part in the protocol: shmfifo_printmemstatus locks and unlocks the
    FIFO.  shmfifo_put and shmfifo_get call it before they lock, which is harmless, and
    shmfifo_get once more inside, which is not. */
module ShmProtocol {
  import opened Binary
  import opened ShmRing

  /** The process that last operated on the lock semaphore (GETPID). */
  datatype Process = Putter | Getter | Creator

  /** Why the lock is taken: for the operation, again after a wait, or by
      shmfifo_printmemstatus, before the operation or inside it. */
  datatype Why = Main | Relock | Print | PrintInside

  /** Where the putting process goes on once it has unlocked. */
  datatype PutThen = PReturn | PToAwait(rec: Record) | PBegin(rec: Record)

  /** What the putting process does next. */
  datatype PutPc =
    | PIdle
    | PCheckValue(rec: Record, why: Why)            // checkUnlocked: GETVAL
    | PCheckPid(rec: Record, why: Why, value: nat)  // checkUnlocked: GETPID
    | PLock(rec: Record, why: Why)
    | PTestRoom(rec: Record)
    | PAwait(rec: Record)
    | PHeader(rec: Record)
    | PBody(rec: Record)
    | PNotifyValue                                  // checkLocked: GETVAL
    | PNotifyPid(value: nat)                        // checkLocked: GETPID
    | PNotify
    | PUnlockValue(next: PutThen)                  // checkLocked: GETVAL
    | PUnlockPid(next: PutThen, value: nat)        // checkLocked: GETPID
    | PUnlock(next: PutThen)

  /** Where the getting process goes on once it has unlocked. */
  datatype GetThen = GReturn | GToAwait(size: nat) | GBegin(size: nat) | GToNotify

  /** What the getting process, with a buffer of `size` bytes, does next. */
  datatype GetPc =
    | GIdle
    | GCheckValue(size: nat, why: Why)
    | GCheckPid(size: nat, why: Why, value: nat)
    | GLock(size: nat, why: Why)
    | GTestData(size: nat)
    | GAwait(size: nat)
    | GHeader(size: nat)
    | GBody(size: nat, header: seq<byte>)
    | GNotifyValue
    | GNotifyPid(value: nat)
    | GNotify
    | GUnlockValue(next: GetThen)
    | GUnlockPid(next: GetThen, value: nat)
    | GUnlock(next: GetThen)
    | GAborted

  /** `lock`, `writer` and `reader` are the semaphores SI_LOCK, SI_WRITER and SI_READER;
      `puts` and `gets` are all records ever put and taken; `faults` counts the ownership
      checks that failed; `pDebug` and `gDebug` say whether a process logs at debug level. */
  datatype System = System(ring: Ring, lock: nat, pid: Process, writer: nat, reader: nat, p: PutPc, g: GetPc,
                           puts: seq<Record>, gets: seq<seq<byte>>, faults: nat, pDebug: bool, gDebug: bool)

  datatype Action = StartPut(rec: Record) | StartGet(size: nat) | PutterMoves | GetterMoves

  function Start(mem: seq<byte>, base: nat, pDebug: bool, gDebug: bool): System {
    System(Ring(mem, base, base, base), 1, Creator, 0, 0, PIdle, GIdle, [], [], 0, pDebug, gDebug)
  }

  function Need(rec: Record): int { HEADER + |rec| }

  // ---- the steps ----

  /** A semaphore operation that has to wait. */
  predicate PutterBlocked(s: System) {
    (s.p.PLock? && s.lock == 0) || (s.p.PAwait? && s.writer == 0)
  }

  predicate GetterBlocked(s: System) {
    (s.g.GLock? && s.lock == 0) || (s.g.GAwait? && s.reader == 0)
  }

  function PutterUnlocked(next: PutThen): PutPc {
    match next
    case PReturn => PIdle
    case PToAwait(rec) => PAwait(rec)
    case PBegin(rec) => PCheckValue(rec, Main)
  }

  /** What follows when shmfifo_lock refuses. */
  function PutterNotLocked(rec: Record, why: Why): PutPc {
    match why
    case Main => PIdle
    case Relock => PUnlockValue(PReturn)
    case _ => PUnlockValue(PBegin(rec))
  }

  /** What follows when shmfifo_unlock refuses. */
  function PutterNotUnlocked(next: PutThen): PutPc {
    match next
    case PReturn => PIdle
    case PToAwait(_) => PUnlockValue(PReturn)
    case PBegin(rec) => PCheckValue(rec, Main)
  }

  function PutterStep(s: System): System
    requires s.ring.Valid() && !PutterBlocked(s)
  {
    match s.p
    case PIdle => s
    case PCheckValue(rec, why) => s.(p := PCheckPid(rec, why, s.lock))
    case PCheckPid(rec, why, value) =>
      if value == 0 && s.pid == Putter then s.(p := PutterNotLocked(rec, why), faults := s.faults + 1)
      else s.(p := PLock(rec, why))
    case PLock(rec, why) =>
      s.(lock := s.lock - 1, pid := Putter,
         p := if why == Print || why == PrintInside then PUnlockValue(PBegin(rec)) else PTestRoom(rec))
    case PTestRoom(rec) =>
      s.(p := if s.ring.Used() + s.ring.Free() < Need(rec) then PUnlockValue(PReturn)
              else if s.ring.Free() <= Need(rec) then PUnlockValue(PToAwait(rec)) else PHeader(rec))
    case PAwait(rec) => s.(writer := s.writer - 1, p := PCheckValue(rec, Relock))
    case PHeader(rec) => s.(ring := LlPut(s.ring, Header(|rec|)), p := PBody(rec))
    case PBody(rec) => s.(ring := LlPut(s.ring, rec), puts := s.puts + [rec], p := PNotifyValue)
    case PNotifyValue => s.(p := PNotifyPid(s.lock))
    case PNotifyPid(value) =>
      if value == 0 && s.pid == Putter then s.(p := PNotify)
      else s.(p := PUnlockValue(PReturn), faults := s.faults + 1)
    case PNotify => s.(reader := 1, p := PUnlockValue(PReturn))
    case PUnlockValue(next) => s.(p := PUnlockPid(next, s.lock))
    case PUnlockPid(next, value) =>
      if value == 0 && s.pid == Putter then s.(p := PUnlock(next))
      else s.(p := PutterNotUnlocked(next), faults := s.faults + 1)
    case PUnlock(next) => s.(lock := s.lock + 1, pid := Putter, p := PutterUnlocked(next))
  }

  /** shmfifo_ll_put; shmfifo_put does not look at its result. */
  function LlPut(r: Ring, data: seq<byte>): Ring
    requires r.Valid()
  {
    if |data| <= r.Free() then r.Put(data) else r
  }

  function GetterUnlocked(next: GetThen): GetPc {
    match next
    case GReturn => GIdle
    case GToAwait(size) => GAwait(size)
    case GBegin(size) => GCheckValue(size, Main)
    case GToNotify => GNotifyValue
  }

  function GetterNotLocked(size: nat, why: Why): GetPc {
    match why
    case Main => GIdle
    case Relock => GUnlockValue(GReturn)
    case Print => GUnlockValue(GBegin(size))
    case PrintInside => GUnlockValue(GToNotify)
  }

  function GetterLocked(size: nat, why: Why): GetPc {
    match why
    case Print => GUnlockValue(GBegin(size))
    case PrintInside => GUnlockValue(GToNotify)
    case _ => GTestData(size)
  }

  function GetterNotUnlocked(next: GetThen): GetPc {
    match next
    case GReturn => GIdle
    case GToAwait(_) => GUnlockValue(GReturn)
    case GBegin(size) => GCheckValue(size, Main)
    case GToNotify => GNotifyValue
  }

  function GetterStep(s: System): System
    requires s.ring.Valid() && !GetterBlocked(s)
  {
    match s.g
    case GIdle => s
    case GCheckValue(size, why) => s.(g := GCheckPid(size, why, s.lock))
    case GCheckPid(size, why, value) =>
      if value == 0 && s.pid == Getter then s.(g := GetterNotLocked(size, why), faults := s.faults + 1)
      else s.(g := GLock(size, why))
    case GLock(size, why) => s.(lock := s.lock - 1, pid := Getter, g := GetterLocked(size, why))
    case GTestData(size) => s.(g := if s.ring.Used() == 0 then GUnlockValue(GToAwait(size)) else GHeader(size))
    case GAwait(size) => s.(reader := s.reader - 1, g := GCheckValue(size, Relock))
    case GHeader(size) =>
      if s.ring.Used() < HEADER then s.(g := GUnlockValue(GReturn))
      else s.(ring := s.ring.Skip(HEADER), g := GBody(size, s.ring.Fetched(HEADER)))
    case GBody(size, header) => BodyStep(s, size, header)
    case GNotifyValue => s.(g := GNotifyPid(s.lock))
    case GNotifyPid(value) =>
      if value == 0 && s.pid == Getter then s.(g := GNotify)
      else s.(g := GUnlockValue(GReturn), faults := s.faults + 1)
    case GNotify => s.(writer := 1, g := GUnlockValue(GReturn))
    case GUnlockValue(next) => s.(g := GUnlockPid(next, s.lock))
    case GUnlockPid(next, value) =>
      if value == 0 && s.pid == Getter then s.(g := GUnlock(next))
      else s.(g := GetterNotUnlocked(next), faults := s.faults + 1)
    case GUnlock(next) => s.(lock := s.lock + 1, pid := Getter, g := GetterUnlocked(next))
    case GAborted => s
  }

  /** From the check of the canary to the end of the copy. */
  function BodyStep(s: System, size: nat, header: seq<byte>): System
    requires s.ring.Valid()
  {
    if |header| != HEADER || WordOf(header[4..]) != CANARY || s.ring.Used() < WordOf(header[..4]) then
      s.(g := GUnlockValue(GReturn))
    else
      var n := WordOf(header[..4]);
      if n > size then
        if HEADER <= s.ring.Capacity() then s.(ring := s.ring.Rewound(), g := GUnlockValue(GReturn))
        else s.(g := GAborted)
      else if n == 0 then s.(g := GAborted)
      else s.(ring := s.ring.Skip(n), gets := s.gets + [s.ring.Fetched(n)], g := Taken(s, size))
  }

  /** With debug logging the memory status is printed before the notification. */
  function Taken(s: System, size: nat): GetPc {
    if s.gDebug then GCheckValue(size, PrintInside) else GNotifyValue
  }

  predicate Enabled(s: System, a: Action) {
    match a
    case StartPut(rec) => s.p.PIdle?
    case StartGet(size) => s.g.GIdle? && size > 0
    case PutterMoves => s.ring.Valid() && !PutterBlocked(s)
    case GetterMoves => s.ring.Valid() && !GetterBlocked(s)
  }

  function Do(s: System, a: Action): System
    requires Enabled(s, a)
  {
    match a
    case StartPut(rec) => s.(p := PCheckValue(rec, if s.pDebug then Print else Main))
    case StartGet(size) => s.(g := GCheckValue(size, if s.gDebug then Print else Main))
    case PutterMoves => PutterStep(s)
    case GetterMoves => GetterStep(s)
  }

  // ---- what every step keeps ----

  predicate PutterNotifies(p: PutPc) {
    p.PNotifyValue? || p.PNotifyPid? || p.PNotify?
  }

  predicate GetterNotifies(g: GetPc) {
    g.GNotifyValue? || g.GNotifyPid? || g.GNotify?
  }

  predicate PutterUnlocks(p: PutPc) {
    p.PUnlockValue? || p.PUnlockPid? || p.PUnlock?
  }

  predicate GetterUnlocks(g: GetPc) {
    g.GUnlockValue? || g.GUnlockPid? || g.GUnlock?
  }

  predicate PutterInside(p: PutPc) {
    p.PTestRoom? || p.PHeader? || p.PBody? || PutterNotifies(p) || PutterUnlocks(p)
  }

  predicate GetterInside(g: GetPc) {
    g.GTestData? || g.GHeader? || g.GBody? || GetterNotifies(g) || GetterUnlocks(g)
  }

  /** The getting process never prints inside. */
  predicate NoPrintInside(g: GetPc) {
    && (g.GCheckValue? || g.GCheckPid? || g.GLock? ==> g.why != PrintInside)
    && (GetterUnlocks(g) ==> g.next != GToNotify)
  }

  /** At most one process is inside, the lock tells whether one is, and checks never fail. */
  predicate Exclusive(s: System) {
    && !(PutterInside(s.p) && GetterInside(s.g))
    && s.lock == (if PutterInside(s.p) || GetterInside(s.g) then 0 else 1)
    && (PutterInside(s.p) ==> s.pid == Putter) && (GetterInside(s.g) ==> s.pid == Getter)
    && (s.p.PCheckPid? && s.p.value == 0 ==> s.pid != Putter)
    && (s.g.GCheckPid? && s.g.value == 0 ==> s.pid != Getter)
    && (s.p.PNotifyPid? || s.p.PUnlockPid? ==> s.p.value == 0)
    && (s.g.GNotifyPid? || s.g.GUnlockPid? ==> s.g.value == 0)
    && s.faults == 0 && !s.gDebug && NoPrintInside(s.g)
  }

  /** The records that were put and not yet got. */
  function Pending(s: System): seq<Record> {
    if |s.gets| <= |s.puts| then s.puts[|s.gets|..] else []
  }

  /** Between the two puts of a record its header stands alone behind the whole records. */
  ghost predicate HeaderAlone(r: Ring, recs: seq<Record>, rec: Record) {
    r.Valid() && r.Live() == Stream(recs) + Header(|rec|) && |rec| < r.Free()
  }

  /** Between the two gets of a record its header has been taken off. */
  ghost predicate HeaderGone(r: Ring, recs: seq<Record>, header: seq<byte>) {
    && recs != [] && r.Valid() && HEADER <= r.Capacity() && header == Header(|recs[0]|)
    && |recs[0]| <= r.Used() && r.Fetched(|recs[0]|) == recs[0]
    && HoldsRecords(r.Rewound(), recs) && HoldsRecords(r.Skip(|recs[0]|), recs[1..])
  }

  /** The ring holds whole records, but for the record that is being moved. */
  ghost predicate Framed(s: System) {
    && s.ring.Valid() && s.gets <= s.puts
    && (if s.p.PBody? then HeaderAlone(s.ring, Pending(s), s.p.rec)
        else if s.g.GBody? then HeaderGone(s.ring, Pending(s), s.g.header)
        else HoldsRecords(s.ring, Pending(s)))
    && (s.p.PHeader? ==> Need(s.p.rec) < s.ring.Free())
    && (s.g.GHeader? ==> Pending(s) != [])
  }

  /** Free space, counting a record whose header was taken off as still there. */
  function FreeOf(s: System): int
    requires s.ring.Valid()
  {
    if s.g.GBody? && HEADER <= s.ring.Capacity() then s.ring.Rewound().Free() else s.ring.Free()
  }

  /** No notification is lost: who waits without one, or is about to, cannot go on, or the
      notification is still to come. */
  predicate Notified(s: System)
    requires s.ring.Valid()
  {
    && s.writer <= 1 && s.reader <= 1
    && (PutterUnlocks(s.p) && s.p.next.PToAwait? ==> FreeOf(s) <= Need(s.p.next.rec) || GetterNotifies(s.g))
    && (s.p.PAwait? && s.writer == 0 ==> FreeOf(s) <= Need(s.p.rec) || GetterNotifies(s.g))
    && ((GetterUnlocks(s.g) && s.g.next.GToAwait?) || (s.g.GAwait? && s.reader == 0) ==>
      s.ring.Used() == 0 || s.p.PBody? || PutterNotifies(s.p))
  }

  ghost predicate Inv(s: System) {
    Exclusive(s) && Framed(s) && Notified(s)
  }

  lemma StartInv(mem: seq<byte>, base: nat, pDebug: bool)
    requires base < |mem|
    ensures Inv(Start(mem, base, pDebug, false))
  {
  }

  lemma StepKeepsExclusive(s: System, a: Action)
    requires Inv(s) && Enabled(s, a)
    ensures Exclusive(Do(s, a))
  {
    hide Notified, Framed, Exclusive, PutterStep, BodyStep, Ring.Valid, Ring.Used, Ring.Skip, Ring.Fetched,
      Ring.Rewound;
    match a
    case StartPut(_) => StartKeepsExclusive(s, a);
    case StartGet(_) => StartKeepsExclusive(s, a);
    case PutterMoves => PutterKeepsExclusive(s);
    case GetterMoves =>
      if s.g.GBody? {
        BodyTakes(s);
        BodyKeepsExclusive(s, Do(s, a));
      } else {
        GetterKeepsExclusive(s);
      }
  }

  lemma StartKeepsExclusive(s: System, a: Action)
    requires Exclusive(s) && Enabled(s, a) && (a.StartPut? || a.StartGet?)
    ensures Exclusive(Do(s, a))
  {
  }

  lemma PutterKeepsExclusive(s: System)
    requires Exclusive(s) && s.ring.Valid() && !PutterBlocked(s)
    ensures Exclusive(PutterStep(s))
  {
    hide LlPut, Ring.Valid, Ring.Used, Ring.Free, GetterInside, NoPrintInside, Header;
    PutterAway(s);
  }

  /** Whoever does not hold the lock is elsewhere. */
  lemma PutterAway(s: System)
    requires Exclusive(s)
    ensures s.lock == 1 ==> !PutterInside(s.p) && !GetterInside(s.g)
    ensures PutterInside(s.p) ==> s.lock == 0 && s.pid == Putter && !GetterInside(s.g)
    ensures GetterInside(s.g) ==> s.lock == 0 && s.pid == Getter && !PutterInside(s.p)
  {
  }

  lemma GetterKeepsExclusive(s: System)
    requires Exclusive(s) && s.ring.Valid() && !GetterBlocked(s) && !s.g.GBody?
    ensures Exclusive(GetterStep(s))
  {
    hide Ring.Valid, Ring.Used, Ring.Skip, Ring.Fetched, PutterInside, BodyStep;
    PutterAway(s);
  }

  lemma BodyKeepsExclusive(s: System, t: System)
    requires Exclusive(s) && s.g.GBody? && t == s.(ring := t.ring, gets := t.gets, g := t.g)
    requires t.g == GNotifyValue || t.g == GUnlockValue(GReturn)
    ensures Exclusive(t)
  {
  }

  /** What reading the rest of a record comes to. */
  lemma BodyTakes(s: System)
    requires Inv(s) && s.g.GBody?
    ensures var rec := Pending(s)[0];
      BodyStep(s, s.g.size, s.g.header) ==
      if |rec| > s.g.size then s.(ring := s.ring.Rewound(), g := GUnlockValue(GReturn))
      else s.(ring := s.ring.Skip(|rec|), gets := s.gets + [rec], g := GNotifyValue)
  {
    hide Notified, Ring.Rewound, Ring.Skip, Ring.Fetched, Ring.Live, WordOf, HoldsRecords;
    HeaderRead(|Pending(s)[0]|);
  }

  lemma StepKeepsFramed(s: System, a: Action)
    requires Inv(s) && Enabled(s, a)
    ensures Framed(Do(s, a))
  {
    hide Notified, Framed, Exclusive, PutterStep, GetterStep, Ring.Valid;
    match a
    case StartPut(_) => StartKeepsFramed(s, a);
    case StartGet(_) => StartKeepsFramed(s, a);
    case PutterMoves => PutterKeepsFramed(s);
    case GetterMoves => if s.g.GBody? { BodyKeepsFramed(s); } else { GetterKeepsFramed(s); }
  }

  lemma StartKeepsFramed(s: System, a: Action)
    requires Framed(s) && Enabled(s, a) && (a.StartPut? || a.StartGet?)
    ensures Framed(Do(s, a))
  {
    hide HeaderAlone, HeaderGone, HoldsRecords;
  }

  lemma PutterKeepsFramed(s: System)
    requires Exclusive(s) && Framed(s) && !PutterBlocked(s)
    ensures Framed(PutterStep(s))
  {
    hide HeaderAlone, HeaderGone, HoldsRecords, LlPut, Header, GetterUnlocks, NoPrintInside;
    if s.p.PHeader? {
      HeaderPut(s.ring, Pending(s), s.p.rec);
      AloneIsValid(PutterStep(s).ring, Pending(s), s.p.rec);
    } else if s.p.PBody? {
      BodyPut(s.ring, Pending(s), s.p.rec);
      ValidRing(PutterStep(s).ring, Pending(s) + [s.p.rec]);
      assert Pending(PutterStep(s)) == Pending(s) + [s.p.rec];
    }
  }

  lemma AloneIsValid(r: Ring, recs: seq<Record>, rec: Record)
    requires HeaderAlone(r, recs, rec)
    ensures r.Valid()
  {
  }

  lemma GetterKeepsFramed(s: System)
    requires Exclusive(s) && Framed(s) && !GetterBlocked(s) && !s.g.GBody?
    ensures Framed(GetterStep(s))
  {
    hide HeaderAlone, HeaderGone, HoldsRecords, Ring.Skip, Ring.Fetched, PutterUnlocks;
    if s.g.GHeader? {
      HeaderGot(s.ring, Pending(s));
    } else if s.g.GTestData? {
      EmptyRing(s.ring, Pending(s));
    }
  }

  lemma BodyKeepsFramed(s: System)
    requires Inv(s) && s.g.GBody?
    ensures Framed(GetterStep(s))
  {
    hide Notified, HeaderAlone, HoldsRecords, Ring.Rewound, Ring.Skip, Ring.Fetched, BodyStep, PutterUnlocks;
    BodyTakes(s);
    var rec := Pending(s)[0];
    ValidRing(s.ring.Rewound(), Pending(s));
    ValidRing(s.ring.Skip(|rec|), Pending(s)[1..]);
    assert s.puts == s.gets + Pending(s);
    if |rec| <= s.g.size {
      assert Pending(GetterStep(s)) == Pending(s)[1..];
      assert s.gets + [rec] <= s.puts;
    }
  }

  lemma HeaderPut(r: Ring, recs: seq<Record>, rec: Record)
    requires HoldsRecords(r, recs) && Need(rec) < r.Free()
    ensures HeaderAlone(LlPut(r, Header(|rec|)), recs, rec)
  {
    hide Ring.Live, Ring.Put;
    PutAppends(r, Header(|rec|));
    UsedAndFree(r);
    UsedAndFree(r.Put(Header(|rec|)));
  }

  lemma HeaderGot(r: Ring, recs: seq<Record>)
    requires HoldsRecords(r, recs) && recs != []
    ensures HEADER <= r.Used() && HEADER <= r.Skip(HEADER).Capacity() && r.Skip(HEADER).Rewound() == r
    ensures HeaderGone(r.Skip(HEADER), recs, r.Fetched(HEADER))
  {
    hide Ring.Live, Ring.Fetched, Ring.Rewound, WordOf, HoldsRecords;
    ValidRing(r, recs);
    UsedAndFree(r);
    FirstRecord(r, recs);
  }

  lemma ValidRing(r: Ring, recs: seq<Record>)
    requires HoldsRecords(r, recs)
    ensures r.Valid()
  {
  }

  lemma BodyPut(r: Ring, recs: seq<Record>, rec: Record)
    requires HeaderAlone(r, recs, rec)
    ensures HoldsRecords(LlPut(r, rec), recs + [rec])
  {
    hide Ring.Live, Ring.Put;
    PutAppends(r, rec);
    StreamAppend(recs, rec);
    assert Stream(recs) + Header(|rec|) + rec == Stream(recs) + Encode(rec);
  }

  lemma StepKeepsNotified(s: System, a: Action)
    requires Inv(s) && Enabled(s, a) && Do(s, a).ring.Valid()
    ensures Notified(Do(s, a))
  {
    hide Framed, Exclusive, Notified, PutterStep, GetterStep, Ring.Valid;
    NotifiedRing(s);
    match a
    case StartPut(_) => StartKeepsNotified(s, a);
    case StartGet(_) => StartKeepsNotified(s, a);
    case PutterMoves => PutterKeepsNotified(s);
    case GetterMoves => if s.g.GBody? { BodyKeepsNotified(s); } else { GetterKeepsNotified(s); }
  }

  lemma NotifiedRing(s: System)
    requires Framed(s)
    ensures s.ring.Valid()
  {
  }

  lemma StartKeepsNotified(s: System, a: Action)
    requires s.ring.Valid() && Notified(s) && Enabled(s, a) && (a.StartPut? || a.StartGet?)
    ensures Notified(Do(s, a))
  {
    hide Ring.Valid, Ring.Used, Ring.Free, Ring.Rewound, Ring.Capacity;
  }

  lemma GetterAway(s: System)
    requires Exclusive(s) && PutterInside(s.p)
    ensures !s.g.GBody? && !GetterUnlocks(s.g) && !GetterNotifies(s.g)
  {
  }

  lemma PutterKeepsNotified(s: System)
    requires s.ring.Valid() && Exclusive(s) && Notified(s) && !PutterBlocked(s) && PutterStep(s).ring.Valid()
    ensures Notified(PutterStep(s))
  {
    hide Ring.Valid, Ring.Used, Ring.Free, Ring.Rewound, Ring.Capacity, LlPut, Header, NoPrintInside, GetterUnlocks,
      GetterNotifies, GetterInside;
    if PutterInside(s.p) {
      GetterAway(s);
    }
  }

  lemma PutterOutside(s: System)
    requires Exclusive(s) && GetterInside(s.g)
    ensures !s.p.PBody? && !PutterUnlocks(s.p) && !PutterNotifies(s.p)
  {
  }

  lemma GetterKeepsNotified(s: System)
    requires Exclusive(s) && Framed(s) && Notified(s) && !GetterBlocked(s) && !s.g.GBody? && GetterStep(s).ring.Valid()
    ensures Notified(GetterStep(s))
  {
    hide HoldsRecords, HeaderAlone, HeaderGone, Ring.Valid, Ring.Used, Ring.Free, Ring.Rewound, Ring.Capacity,
      Ring.Skip, Ring.Fetched, PutterUnlocks, PutterNotifies, PutterInside;
    if GetterInside(s.g) {
      PutterOutside(s);
    }
    if s.g.GHeader? {
      HeaderGot(s.ring, Pending(s));
    }
  }

  lemma BodyKeepsNotified(s: System)
    requires Inv(s) && s.g.GBody? && GetterStep(s).ring.Valid()
    ensures Notified(GetterStep(s))
  {
    hide HoldsRecords, HeaderAlone, Ring.Valid, Ring.Used, Ring.Free, Ring.Rewound, Ring.Skip, Ring.Fetched, BodyStep,
      PutterUnlocks;
    BodyTakes(s);
  }

  /** The invariant of the protocol. */
  lemma StepKeepsInv(s: System, a: Action)
    requires Inv(s) && Enabled(s, a)
    ensures Inv(Do(s, a))
  {
    hide Exclusive, Framed, Notified;
    StepKeepsExclusive(s, a);
    StepKeepsFramed(s, a);
    FramedIsValid(Do(s, a));
    StepKeepsNotified(s, a);
  }

  lemma FramedIsValid(s: System)
    requires Framed(s)
    ensures s.ring.Valid()
  {
  }

  // ---- all runs ----

  datatype Outcome = Reached(s: System) | Impossible

  /** Where the actions lead, when each of them is possible in its turn. */
  function After(s: System, run: seq<Action>): Outcome
    decreases |run|
  {
    if |run| == 0 then Reached(s)
    else if Enabled(s, run[0]) then After(Do(s, run[0]), run[1..])
    else Impossible
  }

  lemma {:induction false} RunsKeepInv(s: System, run: seq<Action>)
    requires Inv(s) && After(s, run).Reached?
    ensures Inv(After(s, run).s)
    decreases |run|
  {
    hide Inv, Do, Enabled;
    if |run| > 0 {
      StepKeepsInv(s, run[0]);
      RunsKeepInv(Do(s, run[0]), run[1..]);
    }
  }

  /** In every interleaving, unless the getting process logs at debug level: never two
      processes inside, no ownership check fails, and the records got are the records put, in
      order. */
  lemma RecordsInOrder(mem: seq<byte>, base: nat, pDebug: bool, run: seq<Action>)
    requires base < |mem| && After(Start(mem, base, pDebug, false), run).Reached?
    ensures var s := After(Start(mem, base, pDebug, false), run).s;
      && !(PutterInside(s.p) && GetterInside(s.g)) && s.faults == 0
      && s.gets <= s.puts
      && (!s.p.PBody? && !s.g.GBody? ==> HoldsRecords(s.ring, s.puts[|s.gets|..]))
  {
    StartInv(mem, base, pDebug);
    RunsKeepInv(Start(mem, base, pDebug, false), run);
  }

  /** Every record is smaller than the FIFO. */
  predicate AllSmall(run: seq<Action>, capacity: int) {
    forall i :: 0 <= i < |run| && run[i].StartPut? ==> Need(run[i].rec) < capacity
  }

  predicate BothBlocked(s: System) { PutterBlocked(s) && GetterBlocked(s) }

  /** What the record that the putting process wants to put needs. */
  function Wanted(s: System): int {
    match s.p
    case PCheckValue(rec, _) => Need(rec)
    case PCheckPid(rec, _, _) => Need(rec)
    case PLock(rec, _) => Need(rec)
    case PTestRoom(rec) => Need(rec)
    case PAwait(rec) => Need(rec)
    case PUnlockValue(next) => ThenWanted(next)
    case PUnlockPid(next, _) => ThenWanted(next)
    case PUnlock(next) => ThenWanted(next)
    case _ => 0
  }

  function ThenWanted(next: PutThen): int {
    match next
    case PReturn => 0
    case PToAwait(rec) => Need(rec)
    case PBegin(rec) => Need(rec)
  }

  lemma {:induction false} WantedBelow(s: System, run: seq<Action>, most: int)
    requires Inv(s) && After(s, run).Reached? && most > 0 && Wanted(s) < most
    requires forall i :: 0 <= i < |run| && run[i].StartPut? ==> Need(run[i].rec) < most
    ensures Wanted(After(s, run).s) < most && After(s, run).s.ring.Capacity() == s.ring.Capacity()
    decreases |run|
  {
    hide Inv, Do, Enabled, Wanted;
    if |run| > 0 {
      StepKeepsInv(s, run[0]);
      WantedStep(s, run[0], most);
      WantedBelow(Do(s, run[0]), run[1..], most);
    }
  }

  lemma WantedStep(s: System, a: Action, most: int)
    requires Inv(s) && Enabled(s, a) && Wanted(s) < most && most > 0 && (a.StartPut? ==> Need(a.rec) < most)
    ensures Wanted(Do(s, a)) < most && Do(s, a).ring.Capacity() == s.ring.Capacity()
  {
    hide Exclusive, Framed, Notified, Wanted, PutterStep, GetterStep, Ring.Valid;
    NotifiedRing(s);
    match a
    case StartPut(rec) => assert Wanted(Do(s, a)) == Need(rec) by { hide *; StartWants(s, rec); }
    case StartGet(_) => assert Do(s, a).p == s.p; OnlyPcWants(s, Do(s, a));
    case PutterMoves => PutterWants(s, most);
    case GetterMoves => GetterKeepsCapacity(s); OnlyPcWants(s, Do(s, a));
  }

  lemma StartWants(s: System, rec: Record)
    requires s.p.PIdle?
    ensures Wanted(Do(s, StartPut(rec))) == Need(rec)
  {
  }

  lemma OnlyPcWants(s: System, t: System)
    requires s.p == t.p
    ensures Wanted(s) == Wanted(t)
  {
  }

  lemma PutterWants(s: System, most: int)
    requires s.ring.Valid() && !PutterBlocked(s) && Wanted(s) < most && most > 0
    ensures Wanted(PutterStep(s)) < most && PutterStep(s).ring.Capacity() == s.ring.Capacity()
  {
    hide Ring.Valid, Ring.Capacity, LlPut, Ring.Used, Ring.Free, Header;
    if s.p.PHeader? {
      PutKeepsCapacity(s.ring, Header(|s.p.rec|));
    } else if s.p.PBody? {
      PutKeepsCapacity(s.ring, s.p.rec);
    }
  }

  lemma PutKeepsCapacity(r: Ring, data: seq<byte>)
    requires r.Valid()
    ensures LlPut(r, data).Capacity() == r.Capacity()
  {
    hide Ring.Put;
  }

  lemma GetterKeepsCapacity(s: System)
    requires s.ring.Valid() && !GetterBlocked(s)
    ensures GetterStep(s).p == s.p && GetterStep(s).ring.Capacity() == s.ring.Capacity()
  {
    hide Ring.Valid, Ring.Used, Ring.Fetched, WordOf;
  }

  /** When every record is smaller than the FIFO, the processes never wait for each other,
      unless the getting process logs at debug level. */
  lemma NeverBothBlocked(mem: seq<byte>, base: nat, pDebug: bool, run: seq<Action>)
    requires base < |mem| && After(Start(mem, base, pDebug, false), run).Reached?
    requires AllSmall(run, |mem| - base)
    ensures !BothBlocked(After(Start(mem, base, pDebug, false), run).s)
  {
    var start := Start(mem, base, pDebug, false);
    var s := After(start, run).s;
    StartInv(mem, base, pDebug);
    RunsKeepInv(start, run);
    WantedBelow(start, run, |mem| - base);
    UsedAndFree(s.ring);
  }

  // ---- with debug logging ----

  function Times(a: Action, n: nat): (r: seq<Action>)
    ensures |r| == n && forall i :: 0 <= i < n ==> r[i] == a
    decreases n
  {
    if n == 0 then [] else [a] + Times(a, n - 1)
  }

  lemma {:induction false} AfterMore(s: System, a: seq<Action>, b: seq<Action>)
    ensures After(s, a).Reached? ==> After(s, a + b) == After(After(s, a).s, b)
    decreases |a|
  {
    hide Do, Enabled;
    if |a| == 0 {
      assert a + b == b;
    } else {
      assert (a + b)[0] == a[0] && (a + b)[1..] == a[1..] + b;
      if Enabled(s, a[0]) {
        AfterMore(Do(s, a[0]), a[1..], b);
      }
    }
  }

  /** What a record that leaves one byte free does to an empty ring. */
  lemma FilledRing(r0: Ring, rec: Record)
    requires r0.Valid() && r0.read == r0.write && Need(rec) == r0.Capacity() - 1
    ensures r0.Used() == 0 && r0.Free() == r0.Capacity()
    ensures var h := LlPut(r0, Header(|rec|)); h.Valid() && var r := LlPut(h, rec);
      && r.Valid() && r.Used() == Need(rec) && r.Free() == 1 && r.Fetched(HEADER) == Header(|rec|)
      && r.Skip(HEADER).Used() == |rec| && r.Skip(HEADER).Fetched(|rec|) == rec
      && r.Skip(HEADER).Skip(|rec|).Used() == 0 && r.Skip(HEADER).Skip(|rec|).Free() == r0.Capacity()
    ensures WordOf(Header(|rec|)[..4]) == |rec| && WordOf(Header(|rec|)[4..]) == CANARY
  {
    hide Ring.Put, Ring.Live, WordOf, Word, Ring.Fetched;
    assert HoldsRecords(r0, []) by { hide *; EmptyHolds(r0); }
    UsedAndFree(r0);
    HeaderPut(r0, [], rec);
    var h := LlPut(r0, Header(|rec|));
    BodyPut(h, [], rec);
    assert [] + [rec] == [rec];
    PutAppends(r0, Header(|rec|));
    UsedAndFree(h);
    PutAppends(h, rec);
    UsedAndFree(LlPut(h, rec));
    FirstRecord(LlPut(h, rec), [rec]);
    HeaderRead(|rec|);
    GetTakes(LlPut(h, rec), HEADER);
    GetTakes(LlPut(h, rec).Skip(HEADER), |rec|);
    UsedAndFree(LlPut(h, rec).Skip(HEADER).Skip(|rec|));
  }

  lemma EmptyHolds(r: Ring)
    requires r.Valid() && r.read == r.write
    ensures HoldsRecords(r, [])
  {
  }

  /** The same action `n` times. */
  function Moves(s: System, a: Action, n: nat): Outcome
    decreases n
  {
    if n == 0 then Reached(s) else if Enabled(s, a) then Moves(Do(s, a), a, n - 1) else Impossible
  }

  lemma {:induction false} MovesAre(s: System, a: Action, n: nat)
    ensures Moves(s, a, n) == After(s, Times(a, n))
    decreases n
  {
    hide Do, Enabled;
    if n > 0 && Enabled(s, a) {
      MovesAre(Do(s, a), a, n - 1);
    }
  }

  lemma {:induction false} MovesMore(s: System, a: Action, m: nat, n: nat)
    requires Moves(s, a, m).Reached?
    ensures Moves(s, a, m + n) == Moves(Moves(s, a, m).s, a, n)
    decreases m
  {
    hide Do, Enabled;
    if m > 0 {
      MovesMore(Do(s, a), a, m - 1, n);
    }
  }

  lemma Then(s: System, a: Action, m: nat, t: System, n: nat, u: System)
    requires Moves(s, a, m) == Reached(t) && Moves(t, a, n) == Reached(u)
    ensures Moves(s, a, m + n) == Reached(u)
  {
    hide Moves;
    MovesMore(s, a, m, n);
  }

  lemma TwoMoves(s: System, a: Action, t: System, u: System)
    requires Enabled(s, a) && Do(s, a) == t && Enabled(t, a) && Do(t, a) == u
    ensures Moves(s, a, 2) == Reached(u)
  {
    hide Do, Enabled;
  }

  lemma ThreeMoves(s: System, a: Action, t: System, u: System, v: System)
    requires Enabled(s, a) && Do(s, a) == t && Enabled(t, a) && Do(t, a) == u && Enabled(u, a) && Do(u, a) == v
    ensures Moves(s, a, 3) == Reached(v)
  {
    hide Do, Enabled;
    TwoMoves(t, a, u, v);
  }

  /** Taking the lock when it is free. */
  lemma PutterLocks(s: System, rec: Record, why: Why)
    requires s.ring.Valid() && s.lock == 1 && s.p == PCheckValue(rec, why) && (why == Main || why == Print)
    ensures Moves(s, PutterMoves, 3) ==
      Reached(s.(pid := Putter, lock := 0, p := if why == Print then PUnlockValue(PBegin(rec)) else PTestRoom(rec)))
  {
    hide Ring.Valid, Moves;
    var t, u := s.(p := PCheckPid(rec, why, 1)), s.(p := PLock(rec, why));
    ThreeMoves(s, PutterMoves, t, u,
      u.(pid := Putter, lock := 0, p := if why == Print then PUnlockValue(PBegin(rec)) else PTestRoom(rec)));
  }

  lemma PutterUnlocksRuns(s: System, next: PutThen)
    requires s.ring.Valid() && s.lock == 0 && s.pid == Putter && s.p == PUnlockValue(next)
    ensures Moves(s, PutterMoves, 3) == Reached(s.(lock := 1, p := PutterUnlocked(next)))
  {
    hide Ring.Valid, PutterUnlocked, Moves;
    var t, u := s.(p := PUnlockPid(next, 0)), s.(p := PUnlock(next));
    ThreeMoves(s, PutterMoves, t, u, u.(lock := 1, p := PutterUnlocked(next)));
  }

  lemma PutterNotifiesRuns(s: System)
    requires s.ring.Valid() && s.lock == 0 && s.pid == Putter && s.p == PNotifyValue
    ensures Moves(s, PutterMoves, 3) == Reached(s.(reader := 1, p := PUnlockValue(PReturn)))
  {
    hide Ring.Valid, Moves;
    var t, u := s.(p := PNotifyPid(0)), s.(p := PNotify);
    ThreeMoves(s, PutterMoves, t, u, u.(reader := 1, p := PUnlockValue(PReturn)));
  }

  lemma PutterWrites(s: System, rec: Record)
    requires s.ring.Valid() && s.p == PTestRoom(rec) && Need(rec) < s.ring.Free()
    requires s.ring.Used() + s.ring.Free() >= Need(rec) && LlPut(s.ring, Header(|rec|)).Valid()
    ensures Moves(s, PutterMoves, 3) ==
      Reached(s.(ring := LlPut(LlPut(s.ring, Header(|rec|)), rec), puts := s.puts + [rec], p := PNotifyValue))
  {
    hide LlPut, Ring.Valid, Ring.Used, Ring.Free, Header, Moves;
    var t := s.(p := PHeader(rec));
    var u := t.(ring := LlPut(s.ring, Header(|rec|)), p := PBody(rec));
    ThreeMoves(s, PutterMoves, t, u, u.(ring := LlPut(u.ring, rec), puts := s.puts + [rec], p := PNotifyValue));
  }

  /** The steps of shmfifo_printmemstatus before a put. */
  function PrintSteps(debug: bool): nat { if debug then 6 else 0 }

  lemma PutBegins(s: System, rec: Record)
    requires s.ring.Valid() && s.lock == 1 && s.p == PIdle
    ensures Moves(Do(s, StartPut(rec)), PutterMoves, PrintSteps(s.pDebug)) ==
      Reached(s.(pid := if s.pDebug then Putter else s.pid, p := PCheckValue(rec, Main)))
  {
    hide Ring.Valid;
    if s.pDebug {
      hide Moves;
      var s0, t := Do(s, StartPut(rec)), s.(pid := Putter, lock := 0, p := PUnlockValue(PBegin(rec)));
      PutterLocks(s0, rec, Print);
      PutterUnlocksRuns(t, PBegin(rec));
      Then(s0, PutterMoves, 3, t, 3, t.(lock := 1, p := PCheckValue(rec, Main)));
    }
  }

  /** A put with room, while the other process is away. */
  lemma PutRuns(s: System, rec: Record)
    requires s.ring.Valid() && s.lock == 1 && s.p == PIdle && Need(rec) < s.ring.Free()
    requires s.ring.Used() + s.ring.Free() >= Need(rec)
    requires LlPut(s.ring, Header(|rec|)).Valid() && LlPut(LlPut(s.ring, Header(|rec|)), rec).Valid()
    ensures Moves(Do(s, StartPut(rec)), PutterMoves, PrintSteps(s.pDebug) + 12) ==
      Reached(s.(ring := LlPut(LlPut(s.ring, Header(|rec|)), rec), pid := Putter, reader := 1, puts := s.puts + [rec]))
  {
    hide LlPut, Ring.Valid, Ring.Used, Ring.Free, Header, Moves, PrintSteps;
    var s0, n := Do(s, StartPut(rec)), PrintSteps(s.pDebug);
    var s1 := s.(pid := if s.pDebug then Putter else s.pid, p := PCheckValue(rec, Main));
    var t := s.(pid := Putter, lock := 0, p := PTestRoom(rec));
    var u := t.(ring := LlPut(LlPut(s.ring, Header(|rec|)), rec), puts := s.puts + [rec], p := PNotifyValue);
    var v := u.(reader := 1, p := PUnlockValue(PReturn));
    PutBegins(s, rec);
    PutterLocks(s1, rec, Main);
    Then(s0, PutterMoves, n, s1, 3, t);
    PutterWrites(t, rec);
    Then(s0, PutterMoves, n + 3, t, 3, u);
    PutterNotifiesRuns(u);
    Then(s0, PutterMoves, n + 6, u, 3, v);
    PutterUnlocksRuns(v, PReturn);
    Then(s0, PutterMoves, n + 9, v, 3, v.(lock := 1, p := PIdle));
  }

  /** A put without room ends up waiting. */
  lemma PutWaits(s: System, rec: Record)
    requires s.ring.Valid() && s.lock == 1 && s.p == PIdle && s.ring.Free() <= Need(rec)
    requires s.ring.Used() + s.ring.Free() >= Need(rec)
    ensures Moves(Do(s, StartPut(rec)), PutterMoves, PrintSteps(s.pDebug) + 7) ==
      Reached(s.(pid := Putter, p := PAwait(rec)))
  {
    hide LlPut, Ring.Valid, Ring.Used, Ring.Free, Header, Moves, PrintSteps;
    var s0, n := Do(s, StartPut(rec)), PrintSteps(s.pDebug);
    var s1 := s.(pid := if s.pDebug then Putter else s.pid, p := PCheckValue(rec, Main));
    PutBegins(s, rec);
    FindsNoRoom(s1, rec);
    Then(s0, PutterMoves, n, s1, 7, s.(pid := Putter, p := PAwait(rec)));
  }

  lemma FindsNoRoom(s: System, rec: Record)
    requires s.ring.Valid() && s.lock == 1 && s.p == PCheckValue(rec, Main) && s.ring.Free() <= Need(rec)
    requires s.ring.Used() + s.ring.Free() >= Need(rec)
    ensures Moves(s, PutterMoves, 7) == Reached(s.(pid := Putter, p := PAwait(rec)))
  {
    hide Ring.Valid, Ring.Used, Ring.Free, Moves;
    var t := s.(pid := Putter, lock := 0, p := PTestRoom(rec));
    var u := t.(p := PUnlockValue(PToAwait(rec)));
    PutterLocks(s, rec, Main);
    assert Moves(t, PutterMoves, 1) == Reached(u) by { hide *; SeesNoRoom(t, rec); }
    Then(s, PutterMoves, 3, t, 1, u);
    PutterUnlocksRuns(u, PToAwait(rec));
    Then(s, PutterMoves, 4, u, 3, s.(pid := Putter, p := PAwait(rec)));
  }

  lemma SeesNoRoom(s: System, rec: Record)
    requires s.ring.Valid() && s.p == PTestRoom(rec) && s.ring.Free() <= Need(rec)
    requires s.ring.Used() + s.ring.Free() >= Need(rec)
    ensures Moves(s, PutterMoves, 1) == Reached(s.(p := PUnlockValue(PToAwait(rec))))
  {
  }

  /** Printing the memory status before the operation. */
  lemma PrintRuns(s: System, size: nat)
    requires s.ring.Valid() && s.lock == 1 && s.g == GIdle && s.gDebug && size > 0
    ensures Moves(Do(s, StartGet(size)), GetterMoves, 6) == Reached(s.(pid := Getter, g := GCheckValue(size, Main)))
  {
    hide Ring.Valid;
  }

  /** A get that finds a record prints inside: the check of shmfifo_lock fails, the unlock
      succeeds, and the notification and the last unlock fail. */
  lemma GetRuns(s: System, size: nat, rec: Record)
    requires s.ring.Valid() && s.lock == 1 && s.g == GCheckValue(size, Main) && s.gDebug && |rec| <= size
    requires HEADER <= s.ring.Used() && s.ring.Fetched(HEADER) == Header(|rec|)
    requires WordOf(Header(|rec|)[..4]) == |rec| && WordOf(Header(|rec|)[4..]) == CANARY
    requires var r := s.ring.Skip(HEADER); |rec| <= r.Used() && r.Fetched(|rec|) == rec
    ensures Moves(s, GetterMoves, 15) ==
      Reached(s.(ring := s.ring.Skip(HEADER).Skip(|rec|), pid := Getter, g := GIdle, gets := s.gets + [rec],
        faults := s.faults + 3))
  {
    hide Ring.Valid, Ring.Used, Ring.Free, Header, Ring.Skip, Ring.Fetched, WordOf, Moves;
    var l := s.(pid := Getter, lock := 0, g := GTestData(size));
    var u := l.(ring := s.ring.Skip(HEADER).Skip(|rec|), gets := s.gets + [rec], g := GCheckValue(size, PrintInside));
    var v := u.(lock := 1, g := GNotifyValue, faults := u.faults + 1);
    GetterLocks(s, size, Main);
    GetterReads(l, size, rec);
    Then(s, GetterMoves, 3, l, 3, u);
    PrintsInside(u, size);
    Then(s, GetterMoves, 6, u, 5, v);
    FailsToNotify(v);
    Then(s, GetterMoves, 11, v, 4, v.(g := GIdle, faults := u.faults + 3));
  }

  lemma GetterLocks(s: System, size: nat, why: Why)
    requires s.ring.Valid() && s.lock == 1 && s.g == GCheckValue(size, why)
    ensures Moves(s, GetterMoves, 3) == Reached(s.(pid := Getter, lock := 0, g := GetterLocked(size, why)))
  {
    hide Ring.Valid, GetterLocked, Moves;
    var t, u := s.(g := GCheckPid(size, why, 1)), s.(g := GLock(size, why));
    ThreeMoves(s, GetterMoves, t, u, u.(pid := Getter, lock := 0, g := GetterLocked(size, why)));
  }

  lemma GetterUnlocksRuns(s: System, next: GetThen)
    requires s.ring.Valid() && s.lock == 0 && s.pid == Getter && s.g == GUnlockValue(next)
    ensures Moves(s, GetterMoves, 3) == Reached(s.(lock := 1, g := GetterUnlocked(next)))
  {
    hide Ring.Valid, GetterUnlocked, Moves;
    var t, u := s.(g := GUnlockPid(next, 0)), s.(g := GUnlock(next));
    ThreeMoves(s, GetterMoves, t, u, u.(lock := 1, g := GetterUnlocked(next)));
  }

  lemma GetterReads(s: System, size: nat, rec: Record)
    requires s.ring.Valid() && s.g == GTestData(size) && s.gDebug && |rec| <= size
    requires HEADER <= s.ring.Used() && s.ring.Fetched(HEADER) == Header(|rec|)
    requires WordOf(Header(|rec|)[..4]) == |rec| && WordOf(Header(|rec|)[4..]) == CANARY
    requires var r := s.ring.Skip(HEADER); |rec| <= r.Used() && r.Fetched(|rec|) == rec
    ensures Moves(s, GetterMoves, 3) ==
      Reached(s.(ring := s.ring.Skip(HEADER).Skip(|rec|), gets := s.gets + [rec], g := GCheckValue(size, PrintInside)))
  {
    hide Ring.Valid, Ring.Used, Ring.Free, Header, Ring.Skip, Ring.Fetched, WordOf, Moves;
    var t := s.(g := GHeader(size));
    var u := t.(ring := s.ring.Skip(HEADER), g := GBody(size, Header(|rec|)));
    ThreeMoves(s, GetterMoves, t, u,
      u.(ring := u.ring.Skip(|rec|), gets := s.gets + [rec], g := GCheckValue(size, PrintInside)));
  }

  lemma PrintsInside(s: System, size: nat)
    requires s.ring.Valid() && s.lock == 0 && s.pid == Getter && s.g == GCheckValue(size, PrintInside)
    ensures Moves(s, GetterMoves, 5) == Reached(s.(lock := 1, g := GNotifyValue, faults := s.faults + 1))
  {
    hide Ring.Valid, Moves;
    var t := s.(g := GUnlockValue(GToNotify), faults := s.faults + 1);
    assert Moves(s, GetterMoves, 2) == Reached(t) by { hide *; ChecksTwice(s, size); }
    GetterUnlocksRuns(t, GToNotify);
    Then(s, GetterMoves, 2, t, 3, t.(lock := 1, g := GNotifyValue));
  }

  lemma ChecksTwice(s: System, size: nat)
    requires s.ring.Valid() && s.lock == 0 && s.pid == Getter && s.g == GCheckValue(size, PrintInside)
    ensures Moves(s, GetterMoves, 2) == Reached(s.(g := GUnlockValue(GToNotify), faults := s.faults + 1))
  {
    hide Ring.Valid, Moves;
    TwoMoves(s, GetterMoves, s.(g := GCheckPid(size, PrintInside, 0)),
      s.(g := GUnlockValue(GToNotify), faults := s.faults + 1));
  }

  lemma FailsToNotify(s: System)
    requires s.ring.Valid() && s.lock == 1 && s.g == GNotifyValue
    ensures Moves(s, GetterMoves, 4) == Reached(s.(g := GIdle, faults := s.faults + 2))
  {
    hide Ring.Valid, Moves;
    var t := s.(g := GUnlockValue(GReturn), faults := s.faults + 1);
    NotifyRefused(s);
    UnlockRefused(t);
    Then(s, GetterMoves, 2, t, 2, t.(g := GIdle, faults := t.faults + 1));
  }

  lemma NotifyRefused(s: System)
    requires s.ring.Valid() && s.lock == 1 && s.g == GNotifyValue
    ensures Moves(s, GetterMoves, 2) == Reached(s.(g := GUnlockValue(GReturn), faults := s.faults + 1))
  {
    hide Ring.Valid, Moves;
    TwoMoves(s, GetterMoves, s.(g := GNotifyPid(1)), s.(g := GUnlockValue(GReturn), faults := s.faults + 1));
  }

  lemma UnlockRefused(s: System)
    requires s.ring.Valid() && s.lock == 1 && s.g == GUnlockValue(GReturn)
    ensures Moves(s, GetterMoves, 2) == Reached(s.(g := GIdle, faults := s.faults + 1))
  {
    hide Ring.Valid, Moves;
    TwoMoves(s, GetterMoves, s.(g := GUnlockPid(GReturn, 1)), s.(g := GIdle, faults := s.faults + 1));
  }

  /** A get from an empty ring uses up an old notification and waits again. */
  lemma GetWaits(s: System, size: nat)
    requires s.ring.Valid() && s.lock == 1 && s.g == GCheckValue(size, Main) && s.ring.Used() == 0 && s.reader == 1
    ensures Moves(s, GetterMoves, 15) == Reached(s.(pid := Getter, g := GAwait(size), reader := 0))
  {
    hide Ring.Valid, Ring.Used, Ring.Free, Moves;
    var t := s.(pid := Getter, g := GAwait(size));
    var u := t.(reader := 0, g := GCheckValue(size, Relock));
    FindsNothing(s, size, Main);
    assert Moves(t, GetterMoves, 1) == Reached(u) by { hide *; Wakes(t, size); }
    Then(s, GetterMoves, 7, t, 1, u);
    FindsNothing(u, size, Relock);
    Then(s, GetterMoves, 8, u, 7, u.(g := GAwait(size)));
  }

  lemma Wakes(s: System, size: nat)
    requires s.ring.Valid() && s.g == GAwait(size) && s.reader == 1
    ensures Moves(s, GetterMoves, 1) == Reached(s.(reader := 0, g := GCheckValue(size, Relock)))
  {
  }

  lemma FindsNothing(s: System, size: nat, why: Why)
    requires s.ring.Valid() && s.lock == 1 && s.g == GCheckValue(size, why) && s.ring.Used() == 0
    requires (why == Main || why == Relock)
    ensures Moves(s, GetterMoves, 7) == Reached(s.(pid := Getter, g := GAwait(size)))
  {
    hide Ring.Valid, Ring.Used, Ring.Free, Moves;
    var l := s.(pid := Getter, lock := 0, g := GTestData(size));
    var t := l.(g := GUnlockValue(GToAwait(size)));
    GetterLocks(s, size, why);
    assert Moves(l, GetterMoves, 1) == Reached(t) by { hide *; SeesNothing(l, size); }
    Then(s, GetterMoves, 3, l, 1, t);
    GetterUnlocksRuns(t, GToAwait(size));
    Then(s, GetterMoves, 4, t, 3, s.(pid := Getter, g := GAwait(size)));
  }

  lemma SeesNothing(s: System, size: nat)
    requires s.ring.Valid() && s.g == GTestData(size) && s.ring.Used() == 0
    ensures Moves(s, GetterMoves, 1) == Reached(s.(g := GUnlockValue(GToAwait(size))))
  {
  }

  /** One part of a run: a start, and moves of the process that started. */
  lemma Part(s: System, first: Action, a: Action, n: nat)
    requires Enabled(s, first) && Moves(Do(s, first), a, n).Reached?
    ensures After(s, [first] + Times(a, n)) == Moves(Do(s, first), a, n)
  {
    hide Do, Enabled;
    MovesAre(Do(s, first), a, n);
    assert ([first] + Times(a, n))[1..] == Times(a, n);
  }

  /** With debug logging in the getting process a notification of the writer is lost: one
      record fills the FIFO, and behind it both processes wait for ever although the FIFO is
      empty again and every record is smaller than it. */
  lemma DebugLosesNotification(mem: seq<byte>, base: nat, pDebug: bool) returns (run: seq<Action>)
    requires base + 10 <= |mem| < 0x8000_0000
    ensures AllSmall(run, |mem| - base) && After(Start(mem, base, pDebug, true), run).Reached?
    ensures var s := After(Start(mem, base, pDebug, true), run).s;
      s.faults > 0 && BothBlocked(s) && s.ring.Used() == 0 && Need(s.p.rec) < s.ring.Free()
  {
    hide LlPut, Ring.Put, Ring.Live, WordOf, Word, Ring.Fetched, Ring.Skip, Moves, After, Times, PrintSteps;
    var n := |mem| - base - 9;
    var big: Record, small: Record := seq(n, i => 0), [0];
    var s0 := Start(mem, base, pDebug, true);
    var steps := PrintSteps(pDebug);
    FilledRing(s0.ring, big);
    PutRuns(s0, big);
    Part(s0, StartPut(big), PutterMoves, steps + 12);
    var s1 := Moves(Do(s0, StartPut(big)), PutterMoves, steps + 12).s;
    PutWaits(s1, small);
    Part(s1, StartPut(small), PutterMoves, steps + 7);
    var s2 := Moves(Do(s1, StartPut(small)), PutterMoves, steps + 7).s;
    PrintRuns(s2, n);
    Part(s2, StartGet(n), GetterMoves, 6);
    var s3 := Moves(Do(s2, StartGet(n)), GetterMoves, 6).s;
    GetRuns(s3, n, big);
    MovesAre(s3, GetterMoves, 15);
    var s4 := Moves(s3, GetterMoves, 15).s;
    PrintRuns(s4, n);
    Part(s4, StartGet(n), GetterMoves, 6);
    var s5 := Moves(Do(s4, StartGet(n)), GetterMoves, 6).s;
    GetWaits(s5, n);
    MovesAre(s5, GetterMoves, 15);
    var p1, p2 := [StartPut(big)] + Times(PutterMoves, steps + 12), [StartPut(small)] + Times(PutterMoves, steps + 7);
    var g1, g2 := [StartGet(n)] + Times(GetterMoves, 6), Times(GetterMoves, 15);
    AfterMore(s0, p1, p2);
    AfterMore(s0, p1 + p2, g1);
    AfterMore(s0, p1 + p2 + g1, g2);
    AfterMore(s0, p1 + p2 + g1 + g2, g1);
    AfterMore(s0, p1 + p2 + g1 + g2 + g1, g2);
    run := p1 + p2 + g1 + g2 + g1 + g2;
  }

  /** Nothing goes wrong in a run: no ownership check fails, and the processes do not both wait. */
  predicate GoesWell(s: System) { s.faults == 0 && !BothBlocked(s) }

  /** With records smaller than the FIFO every run goes well if and only if the getting process
      does not log at debug level. */
  lemma WellWithoutDebug(mem: seq<byte>, base: nat, pDebug: bool, gDebug: bool)
    requires base + 10 <= |mem| < 0x8000_0000
    ensures (forall run :: AllSmall(run, |mem| - base) && After(Start(mem, base, pDebug, gDebug), run).Reached? ==>
        GoesWell(After(Start(mem, base, pDebug, gDebug), run).s)) <==> !gDebug
  {
    hide After, Start;
    if gDebug {
      var run := DebugLosesNotification(mem, base, pDebug);
      assert !GoesWell(After(Start(mem, base, pDebug, gDebug), run).s);
    } else {
      forall run | AllSmall(run, |mem| - base) && After(Start(mem, base, pDebug, gDebug), run).Reached?
        ensures GoesWell(After(Start(mem, base, pDebug, gDebug), run).s)
      {
        RecordsInOrder(mem, base, pDebug, run);
        NeverBothBlocked(mem, base, pDebug, run);
      }
    }
  }
}
