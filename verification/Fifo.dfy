/** The threaded byte queue of fifo.c: its ring buffer, the operations on it, and all
    interleavings of one writer, one reader and a closer.

    Every operation runs with the FIFO's mutex locked, so it is one atomic step.  A wait on a
    condition variable ends the step: `MustWait` stands for the wait, and the step is taken
    again after a signal. */
module Fifo {
  import opened Binary

  /** The fields of the C structure; `size` is the length of `buf`. */
  datatype Ring = Ring(buf: seq<byte>, nextWrite: nat, nbytes: nat, nreserved: nat, closeIfEmpty: bool) {
    predicate Valid() {
      nextWrite < |buf| && nbytes + nreserved <= |buf|
    }

    /** The place `k` bytes behind (or, for negative `k`, before) the next byte to write. */
    function Slot(k: int): (p: nat)
      requires Valid() && -|buf| <= k < |buf|
      ensures p < |buf|
    {
      var p := nextWrite + k;
      if p < 0 then p + |buf| else if p >= |buf| then p - |buf| else p
    }

    /** The bytes that wait to be read, oldest first. */
    function Live(): (s: seq<byte>)
      requires Valid()
      ensures |s| == nbytes && forall i :: 0 <= i < nbytes ==> s[i] == buf[Slot(i - nbytes)]
    {
      seq(nbytes, i requires 0 <= i < nbytes => buf[Slot(i - nbytes)])
    }

    predicate Closed() {
      closeIfEmpty && nbytes == 0
    }

    function Reserve(n: nat): Ring {
      this.(nreserved := n)
    }

    /** The two copies of fifoCopy, the second from the start of the buffer. */
    function Stored(data: seq<byte>): (r: Ring)
      requires Valid() && |data| <= |buf|
      ensures r == this.(buf := r.buf) && |r.buf| == |buf|
    {
      var avail := |buf| - nextWrite;
      if |data| <= avail then this.(buf := buf[..nextWrite] + data + buf[nextWrite + |data|..])
      else this.(buf := data[avail..] + buf[|data| - avail..nextWrite] + data[..avail])
    }

    function Commit(n: nat): (r: Ring)
      requires Valid() && n <= nreserved
      ensures r.Valid()
    {
      Ring(buf, (nextWrite + n) % |buf|, nbytes + n, 0, closeIfEmpty)
    }

    function Drop(n: nat): (r: Ring)
      requires Valid() && n <= nbytes
      ensures r.Valid()
    {
      this.(nbytes := nbytes - n)
    }

    /** What a writer puts directly at the next place, without wrapping. */
    predicate Filled(data: seq<byte>) {
      nextWrite + |data| <= |buf| && buf[nextWrite..nextWrite + |data|] == data
    }
  }

  /** Reserved places hold no byte that waits to be read. */
  lemma ReservedApartFromLive(r: Ring, i: nat, j: nat)
    requires r.Valid() && i < r.nreserved && j < r.nbytes
    ensures r.Slot(i) != r.Slot(j - r.nbytes)
  {
  }

  /** The waiting bytes depend on three fields only. */
  lemma SameLive(r: Ring, t: Ring)
    requires r.Valid() && t.Valid() && r.buf == t.buf && r.nextWrite == t.nextWrite && r.nbytes == t.nbytes
    ensures r.Live() == t.Live()
  {
  }

  lemma StoredAt(r: Ring, data: seq<byte>, k: nat)
    requires r.Valid() && |data| <= |r.buf| && k < |r.buf|
    ensures r.Stored(data).buf[r.Slot(k)] == if k < |data| then data[k] else r.buf[r.Slot(k)]
  {
  }

  /** Bytes stored in free places leave the waiting bytes alone. */
  lemma StoredKeepsLive(r: Ring, data: seq<byte>)
    requires r.Valid() && r.nbytes + |data| <= |r.buf|
    ensures r.Stored(data).Live() == r.Live()
  {
    var t := r.Stored(data);
    forall i | 0 <= i < r.nbytes ensures t.Live()[i] == r.Live()[i] {
      var k := i - r.nbytes;
      assert r.Slot(k) == r.Slot(k + |r.buf|) == t.Slot(k);
      StoredAt(r, data, k + |r.buf|);
    }
  }

  lemma SlotAfterCommit(r: Ring, n: nat, k: int)
    requires r.Valid() && n <= r.nreserved && -|r.buf| <= k && k + n < |r.buf| && k < 0
    ensures r.Commit(n).Slot(k) == r.Slot(k + n)
  {
    var p := r.nextWrite + n;
    if p >= |r.buf| {
      DivUnique(p, |r.buf|, 1, p - |r.buf|);
    } else {
      DivUnique(p, |r.buf|, 0, p);
    }
  }

  /** Committing appends what stands in the first reserved places. */
  lemma CommitAppends(r: Ring, data: seq<byte>)
    requires r.Valid() && |data| <= r.nreserved
    requires forall k :: 0 <= k < |data| ==> r.buf[r.Slot(k)] == data[k]
    ensures r.Commit(|data|).Live() == r.Live() + data
  {
    var n := |data|;
    var c := r.Commit(n);
    forall i | 0 <= i < r.nbytes + n ensures c.Live()[i] == (r.Live() + data)[i] {
      SlotAfterCommit(r, n, i - (r.nbytes + n));
    }
  }

  /** fifoCopy appends its bytes, also across the end of the buffer. */
  lemma CopyAppends(r: Ring, data: seq<byte>)
    requires r.Valid() && |data| <= r.nreserved
    ensures r.Stored(data).Commit(|data|).Live() == r.Live() + data
  {
    StoredKeepsLive(r, data);
    var t := r.Stored(data);
    forall k | 0 <= k < |data| ensures t.buf[t.Slot(k)] == data[k] {
      StoredAt(r, data, k);
    }
    CommitAppends(t, data);
  }

  /** Writing into the reserved space and then updating appends the bytes. */
  lemma DirectAppends(r: Ring, data: seq<byte>)
    requires r.Valid() && |data| <= r.nreserved && r.Filled(data)
    ensures r.Commit(|data|).Live() == r.Live() + data
  {
    forall k | 0 <= k < |data| ensures r.buf[r.Slot(k)] == data[k] {
      assert r.buf[r.nextWrite..r.nextWrite + |data|][k] == r.buf[r.nextWrite + k];
    }
    CommitAppends(r, data);
  }

  /** Where fifoRead reads, and what its two copies fetch. */
  function Fetched(r: Ring, n: nat): (data: seq<byte>)
    requires r.Valid() && n <= r.nbytes
    ensures |data| == n
  {
    var nextRead := if r.nextWrite < r.nbytes then r.nextWrite - r.nbytes + |r.buf| else r.nextWrite - r.nbytes;
    var avail := |r.buf| - nextRead;
    if n <= avail then r.buf[nextRead..nextRead + n] else r.buf[nextRead..] + r.buf[..n - avail]
  }

  /** A read takes the oldest bytes and leaves the others. */
  lemma ReadTakesOldest(r: Ring, n: nat)
    requires r.Valid() && n <= r.nbytes
    ensures Fetched(r, n) == r.Live()[..n]
    ensures r.Drop(n).Live() == r.Live()[n..]
  {
    var d := r.Drop(n);
    forall i | 0 <= i < n ensures Fetched(r, n)[i] == r.Live()[i] {
      assert r.Live()[i] == r.buf[r.Slot(i - r.nbytes)];
    }
    forall i | 0 <= i < d.nbytes ensures d.Live()[i] == r.Live()[n + i] {
      assert d.Slot(i - d.nbytes) == r.Slot(n + i - r.nbytes);
    }
  }

  // ---- the operations ----

  datatype Status = Success | Usage | Closed | MustWait

  function ReserveStatus(r: Ring, n: nat): Status {
    if n > |r.buf| then Usage
    else if r.Closed() then Closed
    else if |r.buf| - r.nbytes >= n then Success
    else MustWait
  }

  function ReadStatus(r: Ring, n: nat): Status {
    if n > |r.buf| then Usage
    else if r.Closed() then Closed
    else if r.nbytes >= n then Success
    else MustWait
  }

  /** A FIFO that is closed and empty neither waits nor gives anything, however much is asked;
      one that is closed but not empty still serves both sides. */
  lemma ClosedAnswers(r: Ring, n: nat)
    requires n <= |r.buf|
    ensures r.closeIfEmpty && r.nbytes == 0 <==> ReserveStatus(r, n) == Closed
    ensures r.closeIfEmpty && r.nbytes == 0 <==> ReadStatus(r, n) == Closed
    ensures r.nbytes > 0 ==> (ReadStatus(r, n) == Success <==> n <= r.nbytes)
    ensures r.nbytes > 0 ==> (ReserveStatus(r, n) == Success <==> n + r.nbytes <= |r.buf|)
  {
  }

  class Buffer {
    const buf: array<byte>
    var nextWrite: nat
    var nbytes: nat
    var nreserved: nat
    var closeIfEmpty: bool

    function State(): Ring
      reads this, buf
    {
      Ring(buf[..], nextWrite, nbytes, nreserved, closeIfEmpty)
    }

    constructor (size: nat)
      requires size > 0
      ensures State().Valid() && |State().buf| == size && State().Live() == []
      ensures !closeIfEmpty && nreserved == 0 && fresh(buf)
    {
      buf := new byte[size](_ => 0);
      nextWrite, nbytes, nreserved, closeIfEmpty := 0, 0, 0, false;
    }

    /** fifoWriteReserve: `at` is the address and `size` the space before the end of the buffer. */
    method WriteReserve(n: nat) returns (status: Status, at: nat, size: nat)
      requires State().Valid()
      modifies this
      ensures status == ReserveStatus(old(State()), n)
      ensures status == Usage <==> n > buf.Length
      ensures status == Closed <==> n <= buf.Length && old(closeIfEmpty) && old(nbytes) == 0
      ensures status == MustWait <==>
        n <= buf.Length && !(old(closeIfEmpty) && old(nbytes) == 0) && buf.Length - old(nbytes) < n
      ensures State() == if status == Success then old(State()).Reserve(n) else old(State())
      ensures State().Valid() && State().Live() == old(State().Live())
      ensures status == Success ==> at == nextWrite && size == buf.Length - nextWrite
    {
      at, size := 0, 0;
      if n > buf.Length { return Usage, at, size; }
      if closeIfEmpty && nbytes == 0 { return Closed, at, size; }
      if buf.Length - nbytes >= n {
        SameLive(State(), State().Reserve(n));
        at, size := nextWrite, buf.Length - nextWrite;
        nreserved := n;
        return Success, at, size;
      }
      status := MustWait;
    }

    /** What the client does with the address it got (reader.c, line 119). */
    method WriteInto(data: seq<byte>)
      requires State().Valid() && |data| <= nreserved && |data| <= buf.Length - nextWrite
      modifies buf
      ensures State() == old(State()).Stored(data)
      ensures State().Filled(data) && State().Live() == old(State().Live())
    {
      StoredKeepsLive(State(), data);
      Memcpy(buf, nextWrite, data);
    }

    /** fifoWriteUpdate. */
    method WriteUpdate(n: nat) returns (status: Status)
      requires State().Valid()
      modifies this
      ensures status == if n > old(nreserved) then Usage else Success
      ensures State() == if status == Success then old(State()).Commit(n) else old(State())
      ensures State().Valid()
      ensures forall data: seq<byte> :: |data| == n && status == Success && old(State().Filled(data)) ==>
        State().Live() == old(State().Live()) + data
    {
      forall data: seq<byte> | |data| == n && n <= nreserved && State().Filled(data)
        ensures State().Commit(n).Live() == State().Live() + data
      {
        DirectAppends(State(), data);
      }
      if n > nreserved { return Usage; }
      nextWrite := (nextWrite + n) % buf.Length;
      nbytes := nbytes + n;
      nreserved := 0;
      status := Success;
    }

    /** The copies of fifoCopy (lines 318-324). */
    method StoreWrapped(data: seq<byte>)
      requires State().Valid() && |data| <= buf.Length
      modifies buf
      ensures State() == old(State()).Stored(data)
    {
      hide Ring.Live, Ring.Slot, Ring.Stored;
      var avail := buf.Length - nextWrite;
      var n := if avail < |data| then avail else |data|;
      ghost var before := State();
      Memcpy(buf, nextWrite, data[..n]);
      ghost var once := buf[..];
      assert once == before.buf[..nextWrite] + data[..n] + before.buf[nextWrite + n..];
      StoredForm(before, data, once);
      if n < |data| {
        Memcpy(buf, 0, data[n..]);
        assert buf[..] == once[..0] + data[n..] + once[|data| - n..];
      }
    }

    /** fifoCopy. */
    method Copy(data: seq<byte>) returns (status: Status)
      requires State().Valid()
      modifies this, buf
      ensures status == if |data| > old(nreserved) then Usage else Success
      ensures State() == if status == Success then old(State()).Stored(data).Commit(|data|) else old(State())
      ensures State().Valid()
      ensures State().Live() == if status == Success then old(State().Live()) + data else old(State().Live())
    {
      hide Ring.Live, Ring.Slot, Ring.Stored;
      if |data| > nreserved { return Usage; }
      CopyAppends(State(), data);
      StoreWrapped(data);
      nextWrite := (nextWrite + |data|) % buf.Length;
      nbytes := nbytes + |data|;
      nreserved := 0;
      status := Success;
    }

    /** The copies of fifoRead (lines 410-425). */
    method FetchWrapped(n: nat) returns (data: seq<byte>)
      requires State().Valid() && n <= nbytes
      ensures data == Fetched(State(), n)
    {
      var nextRead: int := nextWrite - nbytes;
      if 0 > nextRead {
        nextRead := nextRead + buf.Length;
      }
      var avail := buf.Length - nextRead;
      var m := if avail < n then avail else n;
      data := buf[nextRead..nextRead + m];
      if m < n {
        data := data + buf[..n - m];
      }
    }

    /** fifoRead. */
    method Read(n: nat) returns (status: Status, data: seq<byte>)
      requires State().Valid()
      modifies this
      ensures status == ReadStatus(old(State()), n)
      ensures status == Usage <==> n > buf.Length
      ensures status == Closed <==> n <= buf.Length && old(closeIfEmpty) && old(nbytes) == 0
      ensures status == MustWait <==> n <= buf.Length && !(old(closeIfEmpty) && old(nbytes) == 0) && old(nbytes) < n
      ensures State() == if status == Success then old(State()).Drop(n) else old(State())
      ensures State().Valid()
      ensures status == Success ==> |data| == n && data + State().Live() == old(State().Live())
    {
      hide Ring.Live, Ring.Slot;
      data := [];
      if n > buf.Length { return Usage, data; }
      if closeIfEmpty && nbytes == 0 { return Closed, data; }
      if nbytes < n { return MustWait, data; }
      ReadTakesOldest(State(), n);
      Halves(State().Live(), n);
      data := FetchWrapped(n);
      nbytes := nbytes - n;
      status := Success;
    }

    /** fifoCloseWhenEmpty. */
    method CloseWhenEmpty()
      requires State().Valid()
      modifies this
      ensures State() == old(State()).(closeIfEmpty := true) && State().Live() == old(State().Live())
    {
      SameLive(State(), State().(closeIfEmpty := true));
      closeIfEmpty := true;
    }
  }

  lemma Halves(s: seq<byte>, n: nat)
    requires n <= |s|
    ensures s[..n] + s[n..] == s
  {
  }

  lemma MovedOver(all: seq<byte>, front: seq<byte>, back: seq<byte>, n: nat)
    requires all == front + back && n <= |back|
    ensures all == (front + back[..n]) + back[n..]
  {
  }

  method Memcpy(dst: array<byte>, at: nat, src: seq<byte>)
    requires at + |src| <= dst.Length
    modifies dst
    ensures dst[..] == old(dst[..at]) + src + old(dst[at + |src|..])
  {
    for i := 0 to |src|
      invariant dst[..] == old(dst[..at]) + src[..i] + old(dst[at + i..])
    {
      dst[at + i] := src[i];
    }
    assert src[..|src|] == src;
  }

  /** What one or two copies make of the buffer. */
  lemma StoredForm(r: Ring, data: seq<byte>, once: seq<byte>)
    requires r.Valid() && |data| <= |r.buf|
    requires var avail := |r.buf| - r.nextWrite;
      var n := if avail < |data| then avail else |data|;
      once == r.buf[..r.nextWrite] + data[..n] + r.buf[r.nextWrite + n..]
    ensures var n := |r.buf| - r.nextWrite;
      r.Stored(data) == r.(buf := if n < |data| then once[..0] + data[n..] + once[|data| - n..] else once)
  {
    hide Ring.Live, Ring.Slot;
    var n := |r.buf| - r.nextWrite;
    if n < |data| {
      assert once[..0] + data[n..] + once[|data| - n..] == data[n..] + r.buf[|data| - n..r.nextWrite] + data[..n];
    } else {
      assert data[..|data|] == data;
    }
  }

  // ---- all interleavings ----

  /** Where the writing thread is.  `woken` says that its wait has been signalled;
      `filled` is what it has put directly into the reserved space. */
  datatype Writer = Out | AwaitSpace(n: nat, woken: bool) | Holding(filled: seq<byte>) | Gone

  datatype Reader = Away | AwaitData(n: nat, woken: bool)

  /** `committed` and `consumed` are all bytes ever written and read. */
  datatype System = System(ring: Ring, writer: Writer, reader: Reader, committed: seq<byte>, consumed: seq<byte>)

  datatype Step =
    | Reserve(n: nat) | RetryReserve | Fill(data: seq<byte>) | Update | CopyIn(data: seq<byte>) | Leave
    | Read(n: nat) | RetryRead
    | Close
    | SpuriousWakeups

  function Start(size: nat): System
    requires size > 0
  {
    System(Ring(seq(size, i => 0), 0, 0, 0, false), Out, Away, [], [])
  }

  function SignalWriter(w: Writer): Writer {
    if w.AwaitSpace? then w.(woken := true) else w
  }

  function SignalReader(r: Reader): Reader {
    if r.AwaitData? then r.(woken := true) else r
  }

  /** The client protocol: a reservation is followed by a direct write and an update when the
      space before the end of the buffer suffices, by a copy otherwise, or by nothing at the
      end of the input. */
  predicate Enabled(s: System, step: Step)
    requires s.ring.Valid()
  {
    match step
    case Reserve(n) => s.writer.Out?
    case RetryReserve => s.writer.AwaitSpace? && s.writer.woken
    case Fill(data) =>
      && s.writer == Holding([]) && |data| <= s.ring.nreserved
      && s.ring.nextWrite + s.ring.nreserved <= |s.ring.buf|
    case Update => s.writer.Holding?
    case CopyIn(data) => s.writer == Holding([]) && |data| <= s.ring.nreserved
    case Leave => s.writer.Holding?
    case Read(n) => s.reader.Away?
    case RetryRead => s.reader.AwaitData? && s.reader.woken
    case Close => true
    case SpuriousWakeups => true
  }

  function DoReserve(s: System, n: nat): System {
    match ReserveStatus(s.ring, n)
    case Success => s.(ring := s.ring.Reserve(n), writer := Holding([]))
    case MustWait => s.(writer := AwaitSpace(n, false))
    case _ => s.(writer := Out)
  }

  function DoRead(s: System, n: nat): System
    requires s.ring.Valid()
  {
    match ReadStatus(s.ring, n)
    case Success => s.(ring := s.ring.Drop(n), consumed := s.consumed + Fetched(s.ring, n),
                       reader := Away, writer := SignalWriter(s.writer))
    case MustWait => s.(reader := AwaitData(n, false))
    case _ => s.(reader := Away)
  }

  function Do(s: System, step: Step): System
    requires s.ring.Valid() && Enabled(s, step) && (s.writer.Holding? ==> |s.writer.filled| <= s.ring.nreserved)
  {
    match step
    case Reserve(n) => DoReserve(s, n)
    case RetryReserve => DoReserve(s, s.writer.n)
    case Fill(data) => s.(ring := s.ring.Stored(data), writer := Holding(data))
    case Update => s.(ring := s.ring.Commit(|s.writer.filled|), writer := Out,
                      reader := SignalReader(s.reader), committed := s.committed + s.writer.filled)
    case CopyIn(data) => s.(ring := s.ring.Stored(data).Commit(|data|), writer := Out,
                            reader := SignalReader(s.reader), committed := s.committed + data)
    case Leave => s.(writer := Gone)
    case Read(n) => DoRead(s, n)
    case RetryRead => DoRead(s, s.reader.n)
    case Close => s.(ring := s.ring.(closeIfEmpty := true), writer := SignalWriter(s.writer),
                     reader := SignalReader(s.reader))
    case SpuriousWakeups => s.(writer := SignalWriter(s.writer), reader := SignalReader(s.reader))
  }

  /** What every step keeps. */
  ghost predicate Inv(s: System, size: nat) {
    && s.ring.Valid() && |s.ring.buf| == size
    && s.committed == s.consumed + s.ring.Live()
    && (s.writer.Holding? ==> |s.writer.filled| <= s.ring.nreserved && s.ring.Filled(s.writer.filled))
    // no lost wakeup: who waits without a signal cannot go on yet
    && (s.writer.AwaitSpace? ==> s.writer.n <= size)
    && (s.reader.AwaitData? ==> s.reader.n <= size)
    && (s.writer.AwaitSpace? && !s.writer.woken ==> ReserveStatus(s.ring, s.writer.n) == MustWait)
    && (s.reader.AwaitData? && !s.reader.woken ==> ReadStatus(s.ring, s.reader.n) == MustWait)
  }

  lemma FilledNothing(r: Ring)
    requires r.Valid()
    ensures r.Filled([])
  {
  }

  lemma StoredIsFilled(r: Ring, data: seq<byte>)
    requires r.Valid() && r.nextWrite + |data| <= |r.buf|
    ensures r.Stored(data).Filled(data)
  {
  }

  lemma StepKeepsInv(s: System, size: nat, step: Step)
    requires Inv(s, size) && Enabled(s, step)
    ensures Inv(Do(s, step), size)
  {
    hide Ring.Live, Ring.Slot, Ring.Stored, Fetched, DoReserve, DoRead;
    match step
    case Reserve(n) => ReserveKeepsInv(s, size, n);
    case RetryReserve => ReserveKeepsInv(s, size, s.writer.n);
    case Fill(data) => FillKeepsInv(s, size, data);
    case Update => UpdateKeepsInv(s, size);
    case CopyIn(data) => CopyKeepsInv(s, size, data);
    case Leave =>
    case Read(n) => ReadKeepsInv(s, size, n);
    case RetryRead => ReadKeepsInv(s, size, s.reader.n);
    case Close => SameLive(s.ring, s.ring.(closeIfEmpty := true));
    case SpuriousWakeups =>
  }

  lemma FillKeepsInv(s: System, size: nat, data: seq<byte>)
    requires Inv(s, size) && Enabled(s, Fill(data))
    ensures Inv(Do(s, Fill(data)), size)
  {
    hide Ring.Live, Ring.Slot, Ring.Stored, Fetched;
    StoredKeepsLive(s.ring, data);
    StoredIsFilled(s.ring, data);
  }

  lemma UpdateKeepsInv(s: System, size: nat)
    requires Inv(s, size) && Enabled(s, Update)
    ensures Inv(Do(s, Update), size)
  {
    hide Ring.Live, Ring.Slot, Ring.Stored, Fetched;
    DirectAppends(s.ring, s.writer.filled);
  }

  lemma CopyKeepsInv(s: System, size: nat, data: seq<byte>)
    requires Inv(s, size) && Enabled(s, CopyIn(data))
    ensures Inv(Do(s, CopyIn(data)), size)
  {
    hide Ring.Live, Ring.Slot, Ring.Stored, Fetched;
    CopyAppends(s.ring, data);
  }

  lemma ReserveKeepsInv(s: System, size: nat, n: nat)
    requires Inv(s, size) && !s.writer.Holding?
    ensures Inv(DoReserve(s, n), size)
  {
    FilledNothing(s.ring);
    if ReserveStatus(s.ring, n).Success? {
      SameLive(s.ring, s.ring.Reserve(n));
    }
  }

  lemma ReadKeepsInv(s: System, size: nat, n: nat)
    requires Inv(s, size)
    ensures Inv(DoRead(s, n), size)
  {
    hide Ring.Live, Ring.Slot, Fetched;
    if ReadStatus(s.ring, n).Success? {
      ReadTakesOldest(s.ring, n);
      MovedOver(s.committed, s.consumed, s.ring.Live(), n);
    }
  }

  predicate Possible(s: System, step: Step) {
    s.ring.Valid() && Enabled(s, step) && (s.writer.Holding? ==> |s.writer.filled| <= s.ring.nreserved)
  }

  datatype Outcome = Reached(s: System) | Impossible

  /** Where the steps lead from the start, when each of them is possible in its turn. */
  function After(size: nat, steps: seq<Step>): Outcome
    requires size > 0
  {
    if |steps| == 0 then Reached(Start(size))
    else
      var before := After(size, steps[..|steps| - 1]);
      var step := steps[|steps| - 1];
      if before.Reached? && Possible(before.s, step) then Reached(Do(before.s, step)) else Impossible
  }

  lemma {:induction false} ReachedInv(size: nat, steps: seq<Step>)
    requires size > 0 && After(size, steps).Reached?
    ensures Inv(After(size, steps).s, size)
    decreases |steps|
  {
    if |steps| > 0 {
      ReachedInv(size, steps[..|steps| - 1]);
      StepKeepsInv(After(size, steps[..|steps| - 1]).s, size, steps[|steps| - 1]);
    }
  }

  /** In every interleaving the reader gets the bytes that were written, in order, each once. */
  lemma BytesInOrder(size: nat, steps: seq<Step>)
    requires size > 0 && After(size, steps).Reached?
    ensures var s := After(size, steps).s;
      && s.consumed <= s.committed
      && |s.committed| - |s.consumed| == s.ring.nbytes <= size
      && (s.writer.Holding? ==> s.ring.nbytes + s.ring.nreserved <= size)
  {
    ReachedInv(size, steps);
  }

  // ---- no mutual blocking ----

  predicate Stuck(s: System) {
    s.writer.AwaitSpace? && !s.writer.woken && s.reader.AwaitData? && !s.reader.woken
  }

  /** All requests are at most `w` bytes for writing and `r` bytes for reading. */
  predicate Modest(steps: seq<Step>, w: nat, r: nat) {
    forall i :: 0 <= i < |steps| ==> (steps[i].Reserve? ==> steps[i].n <= w) && (steps[i].Read? ==> steps[i].n <= r)
  }

  predicate WaitsModestly(s: System, w: nat, r: nat) {
    (s.writer.AwaitSpace? ==> s.writer.n <= w) && (s.reader.AwaitData? ==> s.reader.n <= r)
  }

  lemma {:induction false} WaitsAreModest(size: nat, steps: seq<Step>, w: nat, r: nat)
    requires size > 0 && After(size, steps).Reached? && Modest(steps, w, r)
    ensures WaitsModestly(After(size, steps).s, w, r)
    decreases |steps|
  {
    if |steps| > 0 {
      WaitsAreModest(size, steps[..|steps| - 1], w, r);
      ModestStep(After(size, steps[..|steps| - 1]).s, steps[|steps| - 1], w, r);
    }
  }

  lemma ModestStep(s: System, step: Step, w: nat, r: nat)
    requires Possible(s, step) && (step.Reserve? ==> step.n <= w) && (step.Read? ==> step.n <= r)
    requires WaitsModestly(s, w, r)
    ensures WaitsModestly(Do(s, step), w, r)
  {
  }

  /** A buffer of `w + r - 1` bytes never leaves both threads waiting. */
  lemma NeverBothStuck(size: nat, steps: seq<Step>, w: nat, r: nat)
    requires size > 0 && After(size, steps).Reached? && Modest(steps, w, r) && size >= w + r - 1
    ensures !Stuck(After(size, steps).s)
  {
    ReachedInv(size, steps);
    WaitsAreModest(size, steps, w, r);
  }

  /** `k` reservations of `w` bytes, each used for one byte. */
  function OneByOne(w: nat, k: nat): seq<Step> {
    if k == 0 then [] else OneByOne(w, k - 1) + [Reserve(w), CopyIn([0])]
  }

  lemma AfterTwo(size: nat, steps: seq<Step>, a: Step, b: Step)
    requires size > 0 && After(size, steps).Reached?
    requires Possible(After(size, steps).s, a) && Possible(Do(After(size, steps).s, a), b)
    ensures After(size, steps + [a, b]) == Reached(Do(Do(After(size, steps).s, a), b))
  {
    hide After, Do, Possible;
    AfterOne(size, steps, a);
    AfterOne(size, steps + [a], b);
    assert steps + [a] + [b] == steps + [a, b];
  }

  lemma AfterOne(size: nat, steps: seq<Step>, a: Step)
    requires size > 0 && After(size, steps).Reached? && Possible(After(size, steps).s, a)
    ensures After(size, steps + [a]) == Reached(Do(After(size, steps).s, a))
  {
    hide Do, Possible;
    assert (steps + [a])[..|steps|] == steps;
  }

  lemma {:induction false} OneByOneFills(size: nat, w: nat, k: nat)
    requires 1 <= w <= size && k <= size - w + 1
    ensures var o := After(size, OneByOne(w, k));
      && o.Reached? && Inv(o.s, size) && o.s.ring.nbytes == k
      && o.s.writer == Out && o.s.reader == Away && !o.s.ring.closeIfEmpty
  {
    if k > 0 {
      OneByOneFills(size, w, k - 1);
      var s := After(size, OneByOne(w, k - 1)).s;
      StepKeepsInv(s, size, Reserve(w));
      StepKeepsInv(Do(s, Reserve(w)), size, CopyIn([0]));
      AfterTwo(size, OneByOne(w, k - 1), Reserve(w), CopyIn([0]));
    }
  }

  /** With one byte less both can wait for each other: the bound is exact. */
  lemma BothStuckWhenSmaller(size: nat, w: nat, r: nat) returns (steps: seq<Step>)
    requires w <= size && r <= size <= w + r - 2
    ensures size > 0 && Modest(steps, w, r) && After(size, steps).Reached? && Stuck(After(size, steps).s)
  {
    var k := size - w + 1;
    OneByOneFills(size, w, k);
    AfterTwo(size, OneByOne(w, k), Reserve(w), Read(r));
    steps := OneByOne(w, k) + [Reserve(w), Read(r)];
    OneByOneModest(w, k, r);
  }

  lemma {:induction false} OneByOneModest(w: nat, k: nat, r: nat)
    ensures Modest(OneByOne(w, k), w, r)
  {
    if k > 0 {
      OneByOneModest(w, k - 1, r);
    }
  }
}
