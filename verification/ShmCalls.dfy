/** shmfifo_put and shmfifo_get as their callers see them (shmfifo.c): a call that finds the
    FIFO unlocked, with the semaphores and the status that comes back. */
module ShmCalls {
  import opened Binary
  import opened ShmRing

  const EINVAL := 22
  const E2BIG := 7
  const EIO := 5

  /** A call returns, or waits for the other process. */
  datatype Answer = Returned(status: int) | Waits

  /** SI_LOCK, with the process that last operated on it, SI_WRITER and SI_READER. */
  class Semaphores {
    var lock: nat
    var pid: int
    var writer: nat
    var reader: nat

    predicate HeldBy(me: int)
      reads this
    {
      lock == 0 && pid == me
    }

    /** shmfifo_lock where it does not have to wait. */
    method Lock(me: int) returns (status: int)
      requires lock > 0 || pid == me
      modifies this`lock, this`pid
      ensures status == if old(HeldBy(me)) then EINVAL else 0
      ensures lock == (if status == 0 then old(lock) - 1 else old(lock)) && pid == me
    {
      if lock == 0 && pid == me { return EINVAL; }
      lock, pid := lock - 1, me;
      status := 0;
    }

    /** shmfifo_unlock */
    method Unlock(me: int) returns (status: int)
      modifies this`lock, this`pid
      ensures status == if old(HeldBy(me)) then 0 else EINVAL
      ensures lock == if status == 0 then old(lock) + 1 else old(lock)
      ensures pid == old(pid)
    {
      if !(lock == 0 && pid == me) { return EINVAL; }
      lock, pid := lock + 1, me;
      status := 0;
    }

    /** shmfifo_notify_reader */
    method NotifyReader(me: int) returns (status: int)
      modifies this`reader
      ensures status == if HeldBy(me) then 0 else EINVAL
      ensures reader == if status == 0 then 1 else old(reader)
    {
      if !HeldBy(me) { return EINVAL; }
      reader := 1;
      status := 0;
    }

    /** shmfifo_notify_writer */
    method NotifyWriter(me: int) returns (status: int)
      modifies this`writer
      ensures status == if HeldBy(me) then 0 else EINVAL
      ensures writer == if status == 0 then 1 else old(writer)
    {
      if !HeldBy(me) { return EINVAL; }
      writer := 1;
      status := 0;
    }

    /** shmfifo_printmemstatus: at debug level it locks and unlocks; a process that holds the
        lock already has lost it afterwards. */
    method PrintMemStatus(me: int, debug: bool)
      requires lock == 1 || HeldBy(me)
      modifies this`lock, this`pid
      ensures lock == if debug then 1 else old(lock)
      ensures pid == if debug then me else old(pid)
    {
      if debug {
        var status := Lock(me);
        status := Unlock(me);
      }
    }
  }

  /** What becomes of a record that is put. */
  function PutAnswer(r: Ring, sz: int): (a: Answer)
    requires r.Valid()
  {
    if sz < 0 then Returned(EINVAL)
    else if r.Free() <= HEADER + sz <= r.Capacity() then Waits
    else Returned(0)
  }

  /** shmfifo_put up to where it returns or waits.  A record that is too big is dropped, and
      the caller gets 0 as for one that was put: E2BIG and the status of the notification are
      overwritten by that of the unlock. */
  method Put(shm: Shm, sem: Semaphores, me: int, debug: bool, data: seq<byte>, sz: int, ghost recs: seq<Record>)
    returns (answer: Answer)
    requires HoldsRecords(shm.State(), recs) && sem.lock == 1
    requires sz >= 0 ==> sz == |data| && 1 <= sz < 0x8000_0000
    modifies shm, shm.mem, sem`lock, sem`pid, sem`reader
    ensures answer == PutAnswer(old(shm.State()), sz) && sem.lock == 1
    ensures var put := sz >= 0 && HEADER + sz < old(shm.State()).Free();
      && HoldsRecords(shm.State(), if put then recs + [data] else recs)
      && sem.reader == if put then 1 else old(sem.reader)
  {
    hide Ring.Live, Stream;
    if 0 > sz { return Returned(EINVAL); }
    sem.PrintMemStatus(me, debug);
    UsedAndFree(shm.State());
    var status := sem.Lock(me);
    if status == 0 {
      var result := shm.PutRecord(data, recs);
      match result {
        case NoRoom =>
          status := sem.Unlock(me);
          return Waits;
        case TooBig => status := E2BIG;
        case Put => status := sem.NotifyReader(me);
      }
      status := sem.Unlock(me);
    }
    answer := Returned(status);
  }

  /** shmfifo_get up to where it returns or waits.  A buffer that is too small gives 0 with
      nothing read, since EINVAL is overwritten.  With debug logging the record is taken, but
      the lock is gone before the notification: the caller gets EINVAL and no length. */
  method Get(shm: Shm, sem: Semaphores, me: int, debug: bool, sz: int, nbytes0: int, ghost recs: seq<Record>)
    returns (answer: Answer, data: seq<byte>, nbytes: int)
    requires HoldsRecords(shm.State(), recs) && sem.lock == 1
    modifies shm, sem`lock, sem`pid, sem`writer
    ensures sem.lock == 1
    ensures var got := sz > 0 && recs != [] && |recs[0]| <= sz;
      && HoldsRecords(shm.State(), if got then recs[1..] else recs)
      && answer == (if sz <= 0 || (got && debug) then Returned(EINVAL) else if recs == [] then Waits else Returned(0))
      && data == (if got then recs[0] else [])
      && nbytes == (if got && !debug then |recs[0]| else nbytes0)
      && sem.writer == (if got && !debug then 1 else old(sem.writer))
  {
    hide Ring.Live, Stream;
    data, nbytes := [], nbytes0;
    if sz <= 0 { return Returned(EINVAL), data, nbytes; }
    sem.PrintMemStatus(me, debug);
    var status := sem.Lock(me);
    if status == 0 {
      var result := shm.GetRecord(sz, recs);
      match result {
        case Empty =>
          status := sem.Unlock(me);
          return Waits, data, nbytes;
        case Corrupt => status := EIO;
        case TooSmall => status := EINVAL;
        case Got(rec) =>
          data := rec;
          sem.PrintMemStatus(me, debug);
          status := sem.NotifyWriter(me);
          if status == 0 {
            nbytes := |rec|;
          }
      }
      status := sem.Unlock(me);
    }
    answer := Returned(status);
  }
}
