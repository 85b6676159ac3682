/** Finding the next SBN header in a stream of bytes: the test of readsbn.c and the
    buffer-shifting loop of productMaker.c, against a search that tries every offset. */
module Resync {
  import opened Binary

  const HEADER := 16

  // ---- the header test ----

  /** The sum of the first `n` bytes. */
  function Checksum(s: seq<byte>, n: nat): nat
    requires n <= |s|
  {
    if n == 0 then 0 else Checksum(s, n - 1) + s[n - 1]
  }

  /** Sixteen bytes that start with 255, carry a known command, and end with their checksum. */
  predicate Accepts(s: seq<byte>)
    requires |s| == HEADER
  {
    && Checksum(s, 14) == 256 * s[14] as int + s[15]
    && s[0] == 255
    && (s[4] == 3 || s[4] == 5 || s[4] == 10)
  }

  datatype Sbn = Sbn(checksum: int, version: int, len: int, command: int, datastream: int, seqno: int, runno: int)

  datatype Result = Header(sbn: Sbn) | NoHeader

  /** What the bytes of a header say. */
  predicate Says(h: seq<byte>, sbn: Sbn)
    requires |h| == HEADER
  {
    && sbn.version == h[2] / 16 && sbn.len == 4 * (h[2] % 16) && sbn.command == h[4] && sbn.datastream == h[5]
    && sbn.seqno == 16777216 * h[8] as int + 65536 * h[9] as int + 256 * h[10] as int + h[11]
    && sbn.runno == 256 * h[12] as int + h[13] && sbn.checksum == 256 * h[14] as int + h[15]
  }

  /** The number that bytes spell, most significant first. */
  function Number(s: seq<byte>): int {
    if |s| == 0 then 0 else 256 * Number(s[..|s| - 1]) + s[|s| - 1]
  }

  lemma NumberNothing()
    ensures Number([]) == 0
  {
  }

  lemma NumberNext(s: seq<byte>, b: byte)
    ensures Number(s + [b]) == 256 * Number(s) + b
  {
    assert (s + [b])[..|s|] == s;
  }

  lemma NumberOfFour(a: byte, b: byte, c: byte, d: byte)
    ensures Number([a, b, c, d]) == ((a as int * 256 + b) * 256 + c) * 256 + d
    ensures Number([a, b]) == a as int * 256 + b
  {
    hide Number;
    NumberNothing();
    assert [] + [a] == [a] && [a] + [b] == [a, b] && [a, b] + [c] == [a, b, c] && [a, b, c] + [d] == [a, b, c, d];
    NumberNext([], a);
    NumberNext([a], b);
    NumberNext([a, b], c);
    NumberNext([a, b, c], d);
  }

  /** readsbn. */
  method ReadSbn(buf: array<byte>) returns (r: Result)
    requires buf.Length >= HEADER
    ensures r.Header? <==> Accepts(buf[..HEADER])
    ensures r.Header? ==> Says(buf[..HEADER], r.sbn)
    ensures r.Header? ==> r.sbn.version == buf[2] / 16 && r.sbn.len == 4 * (buf[2] % 16) <= 60
    ensures r.Header? ==> r.sbn.command == buf[4] && r.sbn.datastream == buf[5]
    ensures r.Header? ==>
      r.sbn.seqno == Number(buf[8..12]) && r.sbn.runno == Number(buf[12..14]) && r.sbn.checksum == Number(buf[14..16])
  {
    var lval := buf[14] as int * 256 + buf[15];
    var csum: int := 0;
    for i := 0 to 14
      invariant csum == Checksum(buf[..HEADER], i)
    {
      csum := csum + buf[i];
    }
    if csum != lval { return NoHeader; }
    if buf[0] != 255 { return NoHeader; }
    var command := buf[4];
    if command != 3 && command != 5 && command != 10 { return NoHeader; }
    NumberOfFour(buf[8], buf[9], buf[10], buf[11]);
    NumberOfFour(buf[12], buf[13], buf[14], buf[15]);
    NumberOfFour(buf[14], buf[15], buf[14], buf[15]);
    assert buf[8..12] == [buf[8], buf[9], buf[10], buf[11]];
    assert buf[12..14] == [buf[12], buf[13]] && buf[14..16] == [buf[14], buf[15]];
    var seqno := ((buf[8] as int * 256 + buf[9]) * 256 + buf[10]) * 256 + buf[11];
    var runno := buf[12] as int * 256 + buf[13];
    r := Header(Sbn(lval, buf[2] / 16, (buf[2] % 16) * 4, command, buf[5], seqno, runno));
  }

  // ---- the stream ----

  /** A FIFO whose input has ended: a read gets all its bytes or none. */
  class Source {
    const bytes: seq<byte>
    var pos: nat

    constructor (bytes: seq<byte>)
      ensures this.bytes == bytes && pos == 0
    {
      this.bytes := bytes;
      pos := 0;
    }

    method Read(buf: array<byte>, at: nat, n: nat) returns (ok: bool)
      requires pos <= |bytes| && at + n <= buf.Length
      modifies `pos, buf
      ensures ok <==> old(pos) + n <= |bytes|
      ensures ok ==> pos == old(pos) + n && buf[..] == old(buf[..at]) + bytes[old(pos)..pos] + old(buf[at + n..])
      ensures !ok ==> pos == old(pos) && buf[..] == old(buf[..])
    {
      if pos + n > |bytes| { return false; }
      for i := 0 to n
        invariant pos == old(pos)
        invariant forall j :: 0 <= j < buf.Length ==>
          buf[j] == if at <= j < at + i then bytes[pos + (j - at)] else old(buf[j])
      {
        buf[at + i] := bytes[pos + i];
      }
      pos := pos + n;
      ok := true;
    }

    /** A header could start at offset `k`. */
    predicate AcceptsAt(k: int) {
      0 <= k && k + HEADER <= |bytes| && Accepts(bytes[k..k + HEADER])
    }

    /** The next place in the window where a header can start. */
    method NextStart(buf: array<byte>) returns (ioff: nat)
      requires buf.Length >= HEADER
      ensures 1 <= ioff <= HEADER
      ensures ioff < HEADER ==> buf[ioff] == 255
      ensures forall j :: 1 <= j < ioff ==> buf[j] != 255
    {
      ioff := 1;
      while ioff < 16 && buf[ioff] != 255
        invariant 1 <= ioff <= 16
        invariant forall j :: 1 <= j < ioff ==> buf[j] != 255
      {
        ioff := ioff + 1;
      }
    }

    /** Moves the window `ioff` bytes on (lines 185-197). */
    method ShiftWindow(buf: array<byte>, ioff: nat, ghost start: nat) returns (ok: bool)
      requires buf.Length >= HEADER && 1 <= ioff < HEADER
      requires pos == start + HEADER <= |bytes| && buf[..HEADER] == bytes[start..pos]
      modifies `pos, buf
      ensures ok <==> start + ioff + HEADER <= |bytes|
      ensures ok ==> pos == start + ioff + HEADER && buf[..HEADER] == bytes[start + ioff..pos]
      ensures !ok ==> pos == old(pos)
    {
      ghost var window := buf[..HEADER];
      for ch := ioff to 16
        invariant pos == old(pos)
        invariant forall j :: 0 <= j < ch - ioff ==> buf[j] == window[ioff + j]
        invariant forall j :: ch - ioff <= j < 16 ==> buf[j] == window[j]
      {
        buf[ch - ioff] := buf[ch];
      }
      assert buf[..HEADER - ioff] == bytes[start + ioff..start + HEADER];
      ok := Read(buf, 16 - ioff, ioff);
      assert ok ==> buf[..HEADER] == buf[..HEADER - ioff] + bytes[start + HEADER..pos];
    }

    lemma NoStartBefore(buf: seq<byte>, start: nat, ioff: nat)
      requires |buf| >= HEADER && start + HEADER <= |bytes| && buf[..HEADER] == bytes[start..start + HEADER]
      requires ioff <= HEADER
      requires forall j :: 1 <= j < ioff ==> buf[j] != 255
      ensures forall k :: start < k < start + ioff ==> !AcceptsAt(k)
    {
      hide Accepts;
      forall k | start < k < start + ioff ensures !AcceptsAt(k) {
        assert buf[..HEADER][k - start] == bytes[start..start + HEADER][k - start];
        StartsWith255(bytes, k);
      }
    }

    /** The inner loop (lines 171-197), from a window that holds the bytes from `start0` on. */
    method Slide(buf: array<byte>, ghost start0: nat) returns (r: Result)
      requires buf.Length >= HEADER && pos == start0 + HEADER <= |bytes| && buf[..HEADER] == bytes[start0..pos]
      modifies `pos, buf
      ensures old(pos) <= pos <= |bytes|
      ensures r.Header? ==> AcceptsAt(pos - HEADER) && buf[..HEADER] == bytes[pos - HEADER..pos]
      ensures r.Header? ==> Says(bytes[pos - HEADER..pos], r.sbn)
      ensures forall k :: start0 <= k < (if r.Header? then pos - HEADER else pos) ==> !AcceptsAt(k)
    {
      hide Accepts, Says;
      ghost var start := start0;
      r := ReadSbn(buf);
      while r.NoHeader?
        invariant old(pos) <= pos == start + HEADER <= |bytes| && start0 <= start
        invariant buf[..HEADER] == bytes[start..pos]
        invariant r.Header? <==> AcceptsAt(start)
        invariant r.Header? ==> Says(bytes[start..pos], r.sbn)
        invariant forall k :: start0 <= k < start ==> !AcceptsAt(k)
        decreases |bytes| - pos, r.NoHeader?
      {
        var ioff := NextStart(buf);
        NoStartBefore(buf[..], start, ioff);
        if ioff > 15 { return; }
        var ok := ShiftWindow(buf, ioff, start);
        if !ok { return; }
        start := start + ioff;
        r := ReadSbn(buf);
      }
    }

    /** The search of pmStart (lines 150-204): the first header at or after the position, or
        no header when there is none in the rest of the stream. */
    method FindHeader(buf: array<byte>) returns (r: Result)
      requires pos <= |bytes| && buf.Length >= HEADER
      modifies `pos, buf
      ensures old(pos) <= pos <= |bytes|
      ensures r.Header? ==>
        pos >= old(pos) + HEADER && AcceptsAt(pos - HEADER) && buf[..HEADER] == bytes[pos - HEADER..pos]
      ensures r.Header? ==> Says(bytes[pos - HEADER..pos], r.sbn)
      ensures r.Header? ==> forall k :: old(pos) <= k < pos - HEADER ==> !AcceptsAt(k)
      ensures !r.Header? ==> forall k :: old(pos) <= k ==> !AcceptsAt(k)
    {
      hide Accepts, Says;
      while true
        invariant old(pos) <= pos <= |bytes|
        invariant forall k :: old(pos) <= k < pos ==> !AcceptsAt(k)
        decreases |bytes| - pos
      {
        var ok := Read(buf, 0, 1);
        if !ok { return NoHeader; }
        StartsWith255(bytes, pos - 1);
        if buf[0] != 255 { continue; }
        ghost var start := pos - 1;
        ok := Read(buf, 1, 15);
        if !ok { continue; }
        r := Slide(buf, start);
        if r.Header? { return; }
      }
    }
  }

  lemma StartsWith255(bytes: seq<byte>, k: nat)
    ensures k + HEADER <= |bytes| && Accepts(bytes[k..k + HEADER]) ==> bytes[k] == 255
  {
  }
}
