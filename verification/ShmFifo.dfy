/** The data part of the shared-memory FIFO (shmfifo.c): a ring of bytes that holds whole
    records, each with a header. */
module ShmRing {
  import opened Binary

  const HEADER := 8
  const CANARY := 0xDEADBEEF

  /** The shared memory.  Bytes below `base` are the prefix and the private part. */
  datatype Ring = Ring(mem: seq<byte>, base: nat, read: nat, write: nat) {
    predicate Valid() {
      base <= read < |mem| && base <= write < |mem|
    }

    function Capacity(): int { |mem| - base }

    /** shmfifo_ll_memfree */
    function Free(): int {
      if write >= read then |mem| - write + (read - base) else read - write
    }

    /** shmfifo_ll_memused */
    function Used(): int {
      if write >= read then write - read else |mem| - base - read + write
    }

    /** Position `p`, continued at the first data byte behind the end. */
    function Wrap(p: nat): int {
      if p >= |mem| then p - |mem| + base else p
    }

    /** The bytes from `read` to `write`. */
    function Live(): (s: seq<byte>)
      requires Valid()
      ensures |s| == Used() && forall i :: 0 <= i < Used() ==> s[i] == mem[Wrap(read + i)]
    {
      seq(Used(), i requires 0 <= i < Used() => mem[Wrap(read + i)])
    }

    /** shmfifo_ll_put with enough space. */
    function Put(data: seq<byte>): (r: Ring)
      requires Valid() && |data| <= Free()
      ensures r.Valid() && |r.mem| == |mem| && r.base == base && r.read == read
    {
      var n := |mem| - write;
      if |data| < n then Ring(mem[..write] + data + mem[write + |data|..], base, read, write + |data|)
      else Ring(mem[..base] + data[n..] + mem[base + (|data| - n)..write] + data[..n], base, read, base + (|data| - n))
    }

    /** shmfifo_ll_get with enough data: what is copied, and where `read` goes. */
    function Fetched(n: nat): (data: seq<byte>)
      requires Valid() && n <= Used()
      ensures |data| == n
    {
      if n <= |mem| - read then mem[read..read + n] else mem[read..] + mem[base..base + (n - (|mem| - read))]
    }

    function Skip(n: nat): (r: Ring)
      requires Valid() && n <= Used()
      ensures r.Valid()
    {
      this.(read := Wrap(read + n))
    }

    /** shmfifo_ll_hrewind */
    function Rewound(): Ring
      requires Valid() && HEADER <= Capacity()
    {
      this.(read := if read - HEADER < base then |mem| + (read - HEADER) - base else read - HEADER)
    }
  }

  /** A put as the one or two copies that make it. */
  lemma PutForm(r: Ring, data: seq<byte>)
    requires r.Valid() && |data| <= r.Free()
    ensures var n := |r.mem| - r.write;
      var c := if n > |data| then |data| else n;
      var once := r.mem[..r.write] + data[..c] + r.mem[r.write + c..];
      var at := if r.write + c == |r.mem| then r.base else r.write + c;
      if c < |data| then
        var end := at + (|data| - c);
        end <= |once| && r.Put(data) == Ring(once[..at] + data[c..] + once[end..], r.base, r.read, end)
      else r.Put(data) == Ring(once, r.base, r.read, at)
  {
    var n := |r.mem| - r.write;
    if n <= |data| {
      var once := r.mem[..r.write] + data[..n];
      assert once == r.mem[..r.write] + data[..n] + r.mem[r.write + n..];
      Overwrite(r.mem, r.write, data[..n], r.base, data[n..]);
      if n == |data| {
        assert data[n..] == [] && data[..n] == data;
        assert once[..r.base] + [] + once[r.base..] == once;
      }
    } else {
      assert data[..|data|] == data;
    }
  }

  /** A get as the one or two copies that make it. */
  lemma GetForm(r: Ring, n: nat)
    requires r.Valid() && 0 < n <= r.Used()
    ensures var c := if r.write > r.read then r.write - r.read else |r.mem| - r.read;
      var once := if c > n then n else c;
      var at := if r.read + once == |r.mem| then r.base else r.read + once;
      && once <= n && r.read + once <= |r.mem| && at + (n - once) <= |r.mem|
      && r.Fetched(n) == r.mem[r.read..r.read + once] + r.mem[at..at + (n - once)]
      && r.Skip(n) == r.(read := at + (n - once))
  {
  }

  lemma Overwrite(b: seq<byte>, at: nat, x: seq<byte>, base: nat, y: seq<byte>)
    requires at + |x| == |b| && base + |y| <= at
    ensures var c := b[..at] + x;
      c[..base] + y + c[base + |y|..] == b[..base] + y + b[base + |y|..at] + x
  {
  }

  /** Every byte of the capacity is used or free. */
  lemma UsedAndFree(r: Ring)
    requires r.Valid()
    ensures r.Used() + r.Free() == r.Capacity() && 0 <= r.Used() < r.Capacity()
    ensures r.Used() == 0 <==> r.read == r.write
  {
  }

  lemma PutAt(r: Ring, data: seq<byte>, i: nat)
    requires r.Valid() && |data| < r.Free() && i < r.Used() + |data|
    ensures r.Put(data).Used() == r.Used() + |data|
    ensures r.Put(data).mem[r.Wrap(r.read + i)] == (r.Live() + data)[i]
  {
  }

  /** A put that does not fill the ring appends its bytes. */
  lemma PutAppends(r: Ring, data: seq<byte>)
    requires r.Valid() && |data| < r.Free()
    ensures r.Put(data).Live() == r.Live() + data
    ensures r.Put(data).Used() == r.Used() + |data|
  {
    hide Ring.Put;
    var t := r.Put(data);
    PutUsed(r, data);
    forall i | 0 <= i < r.Used() + |data| ensures t.Live()[i] == (r.Live() + data)[i] {
      PutAt(r, data, i);
    }
  }

  lemma PutUsed(r: Ring, data: seq<byte>)
    requires r.Valid() && |data| < r.Free()
    ensures r.Put(data).Used() == r.Used() + |data|
  {
  }

  /** A put that fills the ring makes it look empty: this is why shmfifo_put waits until more
      is free than it needs. */
  lemma FullLooksEmpty(r: Ring, data: seq<byte>)
    requires r.Valid() && |data| == r.Free()
    ensures r.Put(data).Used() == 0
  {
  }

  lemma GetTakes(r: Ring, n: nat)
    requires r.Valid() && n <= r.Used()
    ensures r.Fetched(n) == r.Live()[..n]
    ensures r.Skip(n).Live() == r.Live()[n..] && r.Skip(n).Used() == r.Used() - n
  {
    forall i | 0 <= i < n ensures r.Fetched(n)[i] == r.Live()[i] {
    }
    var t := r.Skip(n);
    assert t.Used() == r.Used() - n;
    forall i | 0 <= i < t.Used() ensures t.Live()[i] == r.Live()[n + i] {
      assert t.Wrap(t.read + i) == r.Wrap(r.read + (n + i));
    }
  }

  /** Rewinding undoes the reading of a header, also across the end of the ring. */
  lemma RewindUndoes(r: Ring)
    requires r.Valid() && HEADER <= r.Used()
    ensures r.Skip(HEADER).Rewound() == r
  {
  }

  // ---- records ----

  /** A 32-bit word, least significant byte first. */
  function Word(v: nat): (s: seq<byte>)
    ensures |s| == 4
  {
    [v % 256, v / 256 % 256, v / 65536 % 256, v / 16777216 % 256]
  }

  function WordOf(s: seq<byte>): nat
    requires |s| == 4
  {
    s[0] as int + 256 * s[1] as int + 65536 * s[2] as int + 16777216 * s[3] as int
  }

  lemma WordRead(v: nat)
    requires v < 0x1_0000_0000
    ensures WordOf(Word(v)) == v
  {
    assert v / 65536 == v / 256 / 256 && v / 16777216 == v / 65536 / 256;
  }

  /** The header of a record: its size and the canary. */
  function Header(n: nat): (s: seq<byte>)
    ensures |s| == HEADER
  {
    Word(n) + Word(CANARY)
  }

  type Record = rec: seq<byte> | 1 <= |rec| < 0x8000_0000 witness [0]

  function Encode(rec: Record): (s: seq<byte>)
    ensures |s| == HEADER + |rec|
  {
    Header(|rec|) + rec
  }

  /** Whole records one after the other. */
  function Stream(recs: seq<Record>): seq<byte> {
    if |recs| == 0 then [] else Encode(recs[0]) + Stream(recs[1..])
  }

  lemma {:induction false} StreamAppend(recs: seq<Record>, rec: Record)
    ensures Stream(recs + [rec]) == Stream(recs) + Encode(rec)
    decreases |recs|
  {
    if |recs| == 0 {
      assert recs + [rec] == [rec] && [rec][1..] == [];
    } else {
      StreamAppend(recs[1..], rec);
      assert (recs + [rec])[1..] == recs[1..] + [rec];
    }
  }

  lemma HeaderRead(n: nat)
    requires n < 0x8000_0000
    ensures WordOf(Header(n)[..4]) == n && WordOf(Header(n)[4..]) == CANARY
  {
    WordRead(n);
    WordRead(CANARY);
    assert Header(n)[..4] == Word(n) && Header(n)[4..] == Word(CANARY);
  }

  /** The ring holds exactly these records. */
  ghost predicate HoldsRecords(r: Ring, recs: seq<Record>) {
    r.Valid() && r.Live() == Stream(recs)
  }

  lemma EmptyRing(r: Ring, recs: seq<Record>)
    requires HoldsRecords(r, recs)
    ensures r.Used() == 0 <==> recs == []
  {
  }

  // ---- the operations on the shared memory ----

  datatype PutResult = Put | TooBig | NoRoom

  datatype GetResult = Got(data: seq<byte>) | Empty | TooSmall | Corrupt

  class Shm {
    const mem: array<byte>
    const base: nat
    var read: nat
    var write: nat

    function State(): Ring
      reads this, mem
    {
      Ring(mem[..], base, read, write)
    }

    /** shmfifo_create: both offsets start behind the prefix and the private part. */
    constructor (size: nat, base: nat)
      requires base < size
      ensures State().Valid() && State().Live() == [] && this.base == base && mem.Length == size && fresh(mem)
      ensures HoldsRecords(State(), [])
    {
      mem := new byte[size](_ => 0);
      this.base := base;
      read, write := base, base;
    }

    method CopyIn(at: nat, data: seq<byte>)
      requires at + |data| <= mem.Length
      modifies mem
      ensures mem[..] == old(mem[..at]) + data + old(mem[at + |data|..])
    {
      for i := 0 to |data|
        invariant mem[..] == old(mem[..at]) + data[..i] + old(mem[at + i..])
      {
        mem[at + i] := data[i];
      }
      assert data[..|data|] == data;
    }

    /** shmfifo_ll_put */
    method LlPut(data: seq<byte>) returns (ok: bool)
      requires State().Valid()
      modifies this, mem
      ensures ok == (|data| <= old(State()).Free())
      ensures State() == if ok then old(State()).Put(data) else old(State())
    {
      hide Ring.Live, Ring.Put;
      if State().Free() < |data| { return false; }
      ghost var before := State();
      var copysz := mem.Length - write;
      if copysz > |data| {
        copysz := |data|;
      }
      CopyIn(write, data[..copysz]);
      write := write + copysz;
      if write == mem.Length {
        write := base;
      }
      if copysz < |data| {
        CopyIn(write, data[copysz..]);
        write := write + (|data| - copysz);
      }
      PutForm(before, data);
      ok := true;
    }

    /** shmfifo_ll_get; the C code aborts for sizes that are not positive. */
    method LlGet(n: nat) returns (ok: bool, data: seq<byte>)
      requires State().Valid() && n > 0
      modifies this
      ensures ok == (n <= old(State()).Used())
      ensures State() == if ok then old(State()).Skip(n) else old(State())
      ensures data == if ok then old(State()).Fetched(n) else []
    {
      hide Ring.Live, Ring.Fetched, Ring.Skip;
      data := [];
      if State().Used() < n { return false, data; }
      GetForm(State(), n);
      var copysz := if write > read then write - read else mem.Length - read;
      if copysz > n {
        copysz := n;
      }
      data := mem[read..read + copysz];
      read := read + copysz;
      if read == mem.Length {
        read := base;
      }
      if copysz < n {
        data := data + mem[read..read + (n - copysz)];
        read := read + (n - copysz);
      }
      ok := true;
    }

    /** shmfifo_ll_hrewind */
    method HRewind()
      requires State().Valid() && base + HEADER <= mem.Length
      modifies this
      ensures State() == old(State()).Rewound()
    {
      var r: int := read - HEADER;
      if r < base {
        r := mem.Length + r - base;
      }
      read := r;
    }

    /** The locked part of shmfifo_put; `NoRoom` is where it waits. */
    method PutRecord(rec: Record, ghost recs: seq<Record>) returns (result: PutResult)
      requires HoldsRecords(State(), recs)
      modifies this, mem
      ensures result == TooBig <==> old(State()).Capacity() < HEADER + |rec|
      ensures result == NoRoom <==> old(State()).Capacity() >= HEADER + |rec| >= old(State()).Free()
      ensures HoldsRecords(State(), if result == Put then recs + [rec] else recs)
    {
      hide Ring.Live, Ring.Put, Stream;
      UsedAndFree(State());
      if State().Used() + State().Free() < HEADER + |rec| { return TooBig; }
      if State().Free() <= HEADER + |rec| { return NoRoom; }
      PutAppends(State(), Header(|rec|));
      UsedAndFree(State().Put(Header(|rec|)));
      PutAppends(State().Put(Header(|rec|)), rec);
      var ok := LlPut(Header(|rec|));
      ok := LlPut(rec);
      StreamAppend(recs, rec);
      assert Stream(recs) + Header(|rec|) + rec == Stream(recs) + Encode(rec);
      result := Put;
    }

    /** The locked part of shmfifo_get, for a buffer of `size` bytes; `Empty` is where it
        waits.  A buffer that is too small leaves the queue as it was. */
    method GetRecord(size: nat, ghost recs: seq<Record>) returns (result: GetResult)
      requires HoldsRecords(State(), recs) && size > 0
      modifies this
      ensures result == if recs == [] then Empty else if |recs[0]| > size then TooSmall else Got(recs[0])
      ensures HoldsRecords(State(), if result.Got? then recs[1..] else recs)
      ensures !result.Got? ==> State() == old(State())
    {
      hide Ring.Live, Ring.Fetched, Ring.Skip, Ring.Rewound, Word, WordOf;
      EmptyRing(State(), recs);
      UsedAndFree(State());
      if State().Used() == 0 { return Empty; }
      FirstRecord(State(), recs);
      var ok, header := LlGet(HEADER);
      var n := WordOf(header[..4]);
      if WordOf(header[4..]) != CANARY { return Corrupt; }
      if State().Used() < n { return Corrupt; }
      if n > size {
        HRewind();
        return TooSmall;
      }
      var data;
      ok, data := LlGet(n);
      result := Got(data);
    }
  }

  /** What the reader finds at the front of a ring of whole records. */
  lemma FirstRecord(r: Ring, recs: seq<Record>)
    requires HoldsRecords(r, recs) && recs != []
    ensures HEADER <= r.Used() && r.Fetched(HEADER) == Header(|recs[0]|)
    ensures WordOf(r.Fetched(HEADER)[..4]) == |recs[0]| && WordOf(r.Fetched(HEADER)[4..]) == CANARY
    ensures var s := r.Skip(HEADER);
      && s.Valid() && |recs[0]| <= s.Used() && s.Fetched(|recs[0]|) == recs[0] && s.Rewound() == r
      && HoldsRecords(s.Skip(|recs[0]|), recs[1..])
  {
    hide Ring.Live, Ring.Fetched, Ring.Skip, Ring.Rewound, Ring.Wrap, Word, WordOf;
    var all, h := r.Live(), Header(|recs[0]|);
    assert all == h + recs[0] + Stream(recs[1..]);
    HeaderRead(|recs[0]|);
    GetTakes(r, HEADER);
    RewindUndoes(r);
    assert all[..HEADER] == h && all[HEADER..] == recs[0] + Stream(recs[1..]);
    var s := r.Skip(HEADER);
    GetTakes(s, |recs[0]|);
    assert s.Live()[..|recs[0]|] == recs[0] && s.Live()[|recs[0]|..] == Stream(recs[1..]);
  }
}
