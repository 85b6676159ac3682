/** Putting products together from packets (productMaker.c, NWSTG channel, datastream 5).

    A packet with a product specific header starts a product; packets without one continue
    it.  The bytes given to the MD5 digest are kept as a sequence. */
module Products {
  import opened Binary

  /** One iteration of the loop of pmStart behind the SBN header.
      `Ignored` is a packet that is given up before it touches the product in progress;
      `BrokenStart` starts a product but its data block cannot be read.
      `heapsize` is what prodalloc makes room for. */
  datatype Packet =
    | Ignored
    | BrokenStart(seqno: nat, frags: int)
    | First(seqno: nat, dbno: int, frags: int, heapsize: int, ccbLen: nat, data: seq<byte>)
    | Next(seqno: nat, dbno: int, data: seq<byte>)
  {
    /** The data behind the communications control block. */
    function Payload(): seq<byte> {
      match this
      case First(_, _, _, _, ccbLen, data) => if ccbLen <= |data| then data[ccbLen..] else []
      case Next(_, _, data) => data
      case _ => []
    }

    predicate HasData() {
      First? || Next?
    }
  }

  const TRAILER: seq<byte> := [13, 13, 10, 3]

  function Digit(n: nat): byte {
    48 + n % 10
  }

  function ThreeDigits(n: nat): (s: seq<byte>)
    ensures |s| == 3
  {
    [Digit(n / 100), Digit(n / 10), Digit(n)]
  }

  /** `(int) seqno % 1000`, toward zero. */
  function ShortNumber(seqno: nat): int {
    var v := seqno % 0x1_0000_0000;
    if v < 0x8000_0000 then v % 1000 else -((0x1_0000_0000 - v) % 1000)
  }

  /** The number in the format "%03d". */
  function NumberText(v: int): (s: seq<byte>)
    requires -1000 < v < 1000
    ensures 3 <= |s| <= 4
  {
    if v >= 0 then ThreeDigits(v) else if v > -100 then [45, Digit(-v / 10), Digit(-v)] else [45] + ThreeDigits(-v)
  }

  /** The text of the FOS header: start of header, the product number, a blank. */
  function FosText(seqno: nat): (s: seq<byte>)
    ensures 11 <= |s| <= 12
  {
    [1, 13, 13, 10] + NumberText(ShortNumber(seqno)) + [32, 13, 13, 10]
  }

  /** The eleven bytes of it that the product keeps. */
  function FosHeader(seqno: nat): (s: seq<byte>)
    ensures |s| == 11
  {
    FosText(seqno)[..11]
  }

  /** The header is whole unless the number is printed with a sign and three digits. */
  lemma FosHeaderWhole(seqno: nat)
    ensures FosHeader(seqno) == FosText(seqno) <==> ShortNumber(seqno) > -100
    ensures seqno < 0x8000_0000 ==>
      ShortNumber(seqno) == seqno % 1000 && FosHeader(seqno)[4..7] == ThreeDigits(seqno % 1000)
  {
  }

  /** The data without the trailers at its end; at least one byte stays. */
  function Stripped(data: seq<byte>): (r: seq<byte>)
    ensures r <= data && (|data| > 0 ==> |r| > 0)
    ensures |r| > 4 ==> r[|r| - 4..] != TRAILER
  {
    if |data| > 4 && data[|data| - 4..] == TRAILER then Stripped(data[..|data| - 4]) else data
  }

  function Trailers(k: nat): (s: seq<byte>)
    ensures |s| == 4 * k
  {
    if k == 0 then [] else Trailers(k - 1) + TRAILER
  }

  /** Stripping takes off whole trailers and nothing else. */
  lemma {:induction false} StrippedIsData(data: seq<byte>) returns (k: nat)
    ensures data == Stripped(data) + Trailers(k)
    decreases |data|
  {
    k := 0;
    if |data| > 4 && data[|data| - 4..] == TRAILER {
      var n := |data| - 4;
      var m := StrippedIsData(data[..n]);
      Regroup(data, n, Stripped(data[..n]), Trailers(m));
      k := m + 1;
    } else {
      assert data + Trailers(0) == data;
    }
  }

  lemma Regroup(data: seq<byte>, n: nat, a: seq<byte>, b: seq<byte>)
    requires n <= |data| && data[..n] == a + b
    ensures data == a + (b + data[n..])
  {
  }

  // ---- the product in progress ----

  /** `frags` are the fragments in the list from `head` to `tail`; no fragments means that no
      product is in progress.  `heap` is the used part of the memory heap. */
  datatype Fragment = Fragment(seqno: nat, fragnum: int, recsiz: nat)

  datatype Product = Product(bytes: seq<byte>, digested: seq<byte>)

  datatype Option = None | Some(product: Product)

  datatype Progress = Progress(frags: seq<Fragment>, seqno: nat, nfrag: int, heap: seq<byte>, heapsize: int,
                               digested: seq<byte>)

  const NOTHING := Progress([], 0, 0, [], 0, [])

  predicate Completes(nfrag: int, fragnum: int) {
    nfrag == 0 || nfrag == fragnum + 1
  }

  function PayloadOf(nfrag: int, p: Packet): seq<byte>
    requires p.HasData()
  {
    if Completes(nfrag, p.dbno) then Stripped(p.Payload()) else p.Payload()
  }

  /** Adds the data of a packet, or drops the product, or punts. */
  function AddData(s: Progress, p: Packet): (Progress, Option)
    requires p.HasData()
  {
    if s.nfrag != 0 && s.frags != [] && (p.dbno != s.frags[|s.frags| - 1].fragnum + 1 || p.seqno != s.seqno) then
      (s.(frags := []), None)
    else
      var data := PayloadOf(s.nfrag, p);
      if |s.heap| + |data| > s.heapsize then (s, None)
      else
        var t := s.(frags := s.frags + [Fragment(p.seqno, p.dbno, |data|)], heap := s.heap + data,
          digested := s.digested + data);
        if Completes(s.nfrag, p.dbno) then
          (t.(frags := [], heap := t.heap + TRAILER, digested := t.digested + TRAILER),
           Some(Product(t.heap + TRAILER, t.digested + TRAILER)))
        else (t, None)
  }

  function Start(s: Progress, p: Packet): Progress
    requires p.First?
  {
    Progress([], p.seqno, p.frags, FosHeader(p.seqno), p.heapsize, [])
  }

  /** One packet. */
  function Step(s: Progress, p: Packet): (Progress, Option) {
    match p
    case Ignored => (s, None)
    case BrokenStart(seqno, frags) => (s.(frags := [], seqno := seqno, nfrag := frags), None)
    case First(_, _, _, _, _, _) => AddData(Start(s, p), p)
    case Next(_, _, _) => if s.frags == [] then (s, None) else AddData(s, p)
  }

  // ---- the product maker ----

  /** The fields that live across iterations. */
  class ProductMaker {
    var frags: seq<Fragment>
    var seqno: nat
    var nfrag: int
    var memheap: seq<byte>
    var heapsize: int
    var md5: seq<byte>

    function State(): Progress
      reads this
    {
      Progress(frags, seqno, nfrag, memheap, heapsize, md5)
    }

    constructor ()
      ensures State() == NOTHING
    {
      frags, seqno, nfrag, memheap, heapsize, md5 := [], 0, 0, [], 0, [];
    }

    method StripTrailers(data: seq<byte>) returns (r: seq<byte>)
      ensures r == Stripped(data)
    {
      r := data;
      while |r| > 4
        invariant Stripped(r) == Stripped(data)
        decreases |r|
      {
        if r[|r| - 4..] == TRAILER {
          r := r[..|r| - 4];
        } else {
          return;
        }
      }
    }

    method Put(data: seq<byte>)
      modifies `memheap, `md5
      ensures memheap == old(memheap) + data && md5 == old(md5) + data
    {
      memheap := memheap + data;
      md5 := md5 + data;
    }

    /** The iteration of pmStart from the product specific header on, after the packets
        `before`: a product comes out exactly when the packets now end with a whole chain, and
        it is the product of that chain. */
    method Handle(p: Packet, ghost before: seq<Packet>) returns (done: Option)
      requires Inv(State(), before)
      modifies this
      ensures (State(), done) == Step(old(State()), p)
      ensures Inv(State(), before + [p])
      ensures done.Some? <==> exists at :: Whole(before + [p], at)
      ensures forall at :: Gives(done, before + [p], at)
    {
      StepKeepsInv(State(), before, p);
      done := Dispatch(p);
    }

    method Dispatch(p: Packet) returns (done: Option)
      modifies this
      ensures (State(), done) == Step(old(State()), p)
    {
      hide Stripped, FosHeader, Packet.Payload;
      done := None;
      match p {
        case Ignored => return;
        case BrokenStart(no, n) =>
          frags, seqno, nfrag := [], no, n;
          return;
        case First(no, _, n, size, _, _) =>
          frags, seqno, nfrag := [], no, n;
          md5, heapsize, memheap := [], size, FosHeader(no);
        case Next(_, _, _) =>
          if frags == [] { return; }
      }
      if nfrag != 0 && frags != [] {
        var tail := frags[|frags| - 1];
        if p.dbno != tail.fragnum + 1 || p.seqno != seqno {
          frags := [];
          return;
        }
      }
      var data := p.Payload();
      if nfrag == 0 || nfrag == p.dbno + 1 {
        data := StripTrailers(data);
      }
      if |memheap| + |data| > heapsize { return; }
      Put(data);
      frags := frags + [Fragment(p.seqno, p.dbno, |data|)];
      if nfrag == 0 || nfrag == p.dbno + 1 {
        Put(TRAILER);
        done := Some(Product(memheap, md5));
        frags := [];
      }
    }
  }

  // ---- what a product is made of ----

  /** The packets at the places `at`, in order, are a start and its continuations: one product
      number, block numbers one after the other. */
  ghost predicate Chain(packets: seq<Packet>, at: seq<nat>) {
    && |at| > 0 && (forall i :: 0 <= i < |at| ==> at[i] < |packets| && packets[at[i]].HasData())
    && (forall i :: 0 < i < |at| ==> at[i - 1] < at[i] && packets[at[i]].Next?)
    && packets[at[0]].First?
    && (forall i :: 0 <= i < |at| ==>
      packets[at[i]].seqno == packets[at[0]].seqno && packets[at[i]].dbno == packets[at[0]].dbno + i)
  }

  /** The payloads of the packets in the chain, the last one stripped when it completes. */
  function Payloads(packets: seq<Packet>, at: seq<nat>, nfrag: int): seq<byte>
    requires forall i :: 0 <= i < |at| ==> at[i] < |packets| && packets[at[i]].HasData()
  {
    if |at| == 0 then []
    else
      var n := |at| - 1;
      Payloads(packets, at[..n], nfrag) + PayloadOf(nfrag, packets[at[n]])
  }

  /** The header and the payloads of the chain fit in the heap. */
  ghost predicate Fits(packets: seq<Packet>, at: seq<nat>)
    requires Chain(packets, at)
  {
    var f := packets[at[0]];
    11 + |Payloads(packets, at, f.frags)| <= f.heapsize
  }

  /** Behind the chain, packet `k` changes nothing: it is ignored, or it is the next block but
      does not fit in the heap. */
  ghost predicate Passed(packets: seq<Packet>, at: seq<nat>, k: nat)
    requires Chain(packets, at) && at[|at| - 1] < k < |packets|
  {
    var f, p := packets[at[0]], packets[k];
    || p.Ignored?
    || (p.Next? && p.seqno == f.seqno && p.dbno == f.dbno + |at| && !Fits(packets, at + [k]))
  }

  /** The last block of the chain does not complete the product, and up to place `next` every
      packet is passed. */
  ghost predicate Reaches(packets: seq<Packet>, at: seq<nat>, next: nat)
    requires Chain(packets, at) && next <= |packets|
  {
    && !Completes(packets[at[0]].frags, packets[at[|at| - 1]].dbno)
    && forall k :: at[|at| - 1] < k < next ==> Passed(packets, at, k)
  }

  /** From the header at `at[0]` to the last block of the chain the packets are the blocks of
      the chain, each of which fits, and passed packets. */
  ghost predicate Assembled(packets: seq<Packet>, at: seq<nat>)
    decreases |at|
  {
    && Chain(packets, at) && Fits(packets, at)
    && (|at| > 1 ==>
      var front := at[..|at| - 1];
      Assembled(packets, front) && Reaches(packets, front, at[|at| - 1]))
  }

  /** The chain has not come to its last block, and behind it every packet is passed. */
  ghost predicate Unfinished(packets: seq<Packet>, at: seq<nat>) {
    Assembled(packets, at) && Reaches(packets, at, |packets|)
  }

  /** The last packet is the last block of the chain. */
  ghost predicate Whole(packets: seq<Packet>, at: seq<nat>) {
    && Assembled(packets, at) && at[|at| - 1] == |packets| - 1
    && Completes(packets[at[0]].frags, packets[|packets| - 1].dbno)
  }

  /** The header, the payloads of the chain, and one trailer; the digest is over all but the
      header. */
  ghost function ProductOf(packets: seq<Packet>, at: seq<nat>): Product
    requires Chain(packets, at)
  {
    var f := packets[at[0]];
    var digested := Payloads(packets, at, f.frags) + TRAILER;
    Product(FosHeader(f.seqno) + digested, digested)
  }

  lemma {:induction false} PayloadsOfMore(packets: seq<Packet>, p: Packet, at: seq<nat>, nfrag: int)
    requires forall i :: 0 <= i < |at| ==> at[i] < |packets| && packets[at[i]].HasData()
    ensures Payloads(packets + [p], at, nfrag) == Payloads(packets, at, nfrag)
    decreases |at|
  {
    if |at| > 0 {
      PayloadsOfMore(packets, p, at[..|at| - 1], nfrag);
    }
  }

  lemma PayloadsAdd(packets: seq<Packet>, p: Packet, at: seq<nat>, nfrag: int)
    requires forall i :: 0 <= i < |at| ==> at[i] < |packets| && packets[at[i]].HasData()
    requires p.HasData()
    ensures Payloads(packets + [p], at + [|packets|], nfrag) == Payloads(packets, at, nfrag) + PayloadOf(nfrag, p)
  {
    PayloadsOfMore(packets, p, at, nfrag);
    assert (at + [|packets|])[..|at|] == at;
  }

  // ---- chains and one packet more ----

  lemma ChainMore(packets: seq<Packet>, p: Packet, at: seq<nat>)
    requires forall i :: 0 <= i < |at| ==> at[i] < |packets|
    ensures Chain(packets + [p], at) <==> Chain(packets, at)
    ensures Chain(packets, at) ==> (Fits(packets + [p], at) <==> Fits(packets, at))
  {
    hide Payloads;
    if Chain(packets, at) {
      PayloadsOfMore(packets, p, at, packets[at[0]].frags);
    }
  }

  lemma PassedMore(packets: seq<Packet>, p: Packet, at: seq<nat>, k: nat)
    requires Chain(packets, at) && at[|at| - 1] < k < |packets| && Chain(packets + [p], at)
    ensures Passed(packets + [p], at, k) <==> Passed(packets, at, k)
  {
    hide Fits;
    if packets[k].Next? && packets[k].seqno == packets[at[0]].seqno && packets[k].dbno == packets[at[0]].dbno + |at| {
      ChainMore(packets, p, at + [k]);
    }
  }

  lemma ReachesMore(packets: seq<Packet>, p: Packet, at: seq<nat>, next: nat)
    requires Chain(packets, at) && Chain(packets + [p], at) && next <= |packets|
    ensures Reaches(packets + [p], at, next) <==> Reaches(packets, at, next)
  {
    hide Passed;
    forall k | at[|at| - 1] < k < next ensures Passed(packets + [p], at, k) <==> Passed(packets, at, k) {
      PassedMore(packets, p, at, k);
    }
  }

  lemma {:induction false} AssembledMore(packets: seq<Packet>, p: Packet, at: seq<nat>)
    requires |at| > 0 && forall i :: 0 <= i < |at| ==> at[i] < |packets|
    ensures Assembled(packets + [p], at) <==> Assembled(packets, at)
    decreases |at|
  {
    hide Fits, Reaches;
    ChainMore(packets, p, at);
    if |at| > 1 {
      var front := at[..|at| - 1];
      AssembledMore(packets, p, front);
      ChainMore(packets, p, front);
      if Chain(packets, front) {
        ReachesMore(packets, p, front, at[|at| - 1]);
      }
    }
  }

  lemma {:induction false} InOrder(packets: seq<Packet>, at: seq<nat>)
    ensures Chain(packets, at) ==> forall i :: 0 <= i < |at| ==> at[i] <= at[|at| - 1]
    decreases |at|
  {
    if Chain(packets, at) && |at| > 1 {
      InOrder(packets, at[..|at| - 1]);
      assert forall i :: 0 <= i < |at| - 1 ==> at[i] == at[..|at| - 1][i];
    }
  }

  lemma UnfinishedMore(packets: seq<Packet>, p: Packet, at: seq<nat>)
    requires |at| > 0 && at[|at| - 1] < |packets|
    ensures Unfinished(packets + [p], at) <==>
      Unfinished(packets, at) && Chain(packets + [p], at) && Passed(packets + [p], at, |packets|)
  {
    hide Fits, Passed;
    var all := packets + [p];
    if Chain(packets, at) || Chain(all, at) {
      InOrder(packets, at);
      InOrder(all, at);
      ChainMore(packets, p, at);
      AssembledMore(packets, p, at);
      ReachesMore(packets, p, at, |packets|);
    }
  }

  /** The next block makes the chain longer if it fits. */
  lemma Grows(packets: seq<Packet>, p: Packet, at: seq<nat>)
    requires Unfinished(packets, at) && p.Next?
    requires p.seqno == packets[at[0]].seqno && p.dbno == packets[at[0]].dbno + |at|
    ensures Chain(packets + [p], at + [|packets|])
    ensures Fits(packets + [p], at + [|packets|]) ==> Assembled(packets + [p], at + [|packets|])
  {
    hide Fits, Reaches;
    AssembledMore(packets, p, at);
    ReachesMore(packets, p, at, |packets|);
    assert (at + [|packets|])[..|at|] == at;
  }

  /** A chain that ends at the last packet was unfinished before. */
  lemma Grew(packets: seq<Packet>, p: Packet, at: seq<nat>)
    requires Assembled(packets + [p], at) && at[|at| - 1] == |packets| && |at| > 1
    ensures var front := at[..|at| - 1];
      && Unfinished(packets, front) && p.Next? && at == front + [|packets|]
      && p.seqno == packets[front[0]].seqno && p.dbno == packets[front[0]].dbno + |front|
      && Fits(packets + [p], at)
  {
    hide Fits, Reaches;
    var all, front := packets + [p], at[..|at| - 1];
    InOrder(all, front);
    assert front[|front| - 1] == at[|front| - 1] < at[|front|];
    AssembledMore(packets, p, front);
    ChainMore(packets, p, front);
    ReachesMore(packets, p, front, |packets|);
  }

  /** What the state holds of an unfinished chain. */
  ghost predicate Matches(s: Progress, packets: seq<Packet>, at: seq<nat>)
    requires Chain(packets, at)
  {
    var f := packets[at[0]];
    && s.frags != [] && s.frags[|s.frags| - 1].fragnum == packets[at[|at| - 1]].dbno
    && s.seqno == f.seqno && s.nfrag == f.frags && s.heapsize == f.heapsize
    && s.digested == Payloads(packets, at, f.frags) && s.heap == FosHeader(f.seqno) + s.digested
  }

  ghost predicate HoldsChain(s: Progress, packets: seq<Packet>, at: seq<nat>) {
    Unfinished(packets, at) ==> Matches(s, packets, at)
  }

  /** What comes out is the product of the chain, when it is whole. */
  ghost predicate Gives(done: Option, packets: seq<Packet>, at: seq<nat>) {
    Whole(packets, at) ==> done == Some(ProductOf(packets, at))
  }

  /** A product is in progress exactly when the packets end with an unfinished chain, and the
      state is that of the chain. */
  ghost predicate Inv(s: Progress, packets: seq<Packet>) {
    && (s.frags != [] ==> exists at :: Unfinished(packets, at))
    && forall at :: HoldsChain(s, packets, at)
  }

  lemma MatchesMore(s: Progress, packets: seq<Packet>, p: Packet, at: seq<nat>)
    requires Chain(packets, at) && Chain(packets + [p], at) && Matches(s, packets, at)
    ensures Matches(s, packets + [p], at)
  {
    hide Payloads, FosHeader;
    PayloadsOfMore(packets, p, at, packets[at[0]].frags);
  }

  /** One continuation of an unfinished chain: dropped, passed, put out or added. */
  lemma NextStep(s: Progress, packets: seq<Packet>, p: Packet, at: seq<nat>)
    requires Unfinished(packets, at) && Matches(s, packets, at) && p.Next?
    ensures var f, all, more := packets[at[0]], packets + [p], at + [|packets|]; var (t, done) := Step(s, p);
      if p.seqno != f.seqno || p.dbno != f.dbno + |at| then t.frags == [] && done.None?
      else if !(Chain(all, more) && Fits(all, more)) then Chain(all, more) && t == s && done.None?
      else if Completes(f.frags, p.dbno) then t.frags == [] && done == Some(ProductOf(all, more))
      else Matches(t, all, more) && done.None?
  {
    hide Payloads, FosHeader, Stripped, PayloadOf, Assembled, Packet.Payload;
    AssembledIsChain(packets, at);
    var f, all, more := packets[at[0]], packets + [p], at + [|packets|];
    if p.seqno == f.seqno && p.dbno == f.dbno + |at| {
      PayloadsAdd(packets, p, at, f.frags);
      assert all[more[|at|]] == p;
    }
  }

  /** A header: it starts a chain when its data fit. */
  lemma FirstStep(s: Progress, packets: seq<Packet>, p: Packet)
    requires p.First?
    ensures var all, at := packets + [p], [|packets|]; var (t, done) := Step(s, p);
      && Chain(all, at)
      && if !Fits(all, at) then t.frags == [] && done.None?
         else if Completes(p.frags, p.dbno) then t.frags == [] && done == Some(ProductOf(all, at))
         else Matches(t, all, at) && done.None?
  {
    hide FosHeader, Stripped, Payloads, PayloadOf, Completes;
    var all, at: seq<nat> := packets + [p], [|packets|];
    PayloadsAdd(packets, p, [], p.frags);
    NoPayloads(packets, p.frags);
    assert [] + [|packets|] == at && [] + PayloadOf(p.frags, p) == PayloadOf(p.frags, p);
    assert all[at[0]] == p;
  }

  lemma NoPayloads(packets: seq<Packet>, nfrag: int)
    ensures Payloads(packets, [], nfrag) == []
  {
  }

  /** Ignored packets and broken starts. */
  lemma OtherStep(s: Progress, packets: seq<Packet>, p: Packet, at: seq<nat>)
    requires Inv(s, packets) && (p.Ignored? || p.BrokenStart?)
    ensures !Whole(packets + [p], at) && HoldsChain(s, packets + [p], at)
    ensures p.Ignored? && Unfinished(packets, at) ==> Unfinished(packets + [p], at)
    ensures p.BrokenStart? ==> !Unfinished(packets + [p], at)
  {
    hide Fits, Assembled, Matches;
    var all := packets + [p];
    assert HoldsChain(s, packets, at);
    if Unfinished(packets, at) || Unfinished(all, at) || Whole(all, at) {
      AssembledIsChain(packets, at);
      AssembledIsChain(all, at);
      if at[|at| - 1] < |packets| {
        InOrder(all, at);
        InOrder(packets, at);
        ChainMore(packets, p, at);
        UnfinishedMore(packets, p, at);
        if Unfinished(packets, at) {
          MatchesMore(s, packets, p, at);
        }
      }
    }
  }

  lemma AssembledIsChain(packets: seq<Packet>, at: seq<nat>)
    ensures Assembled(packets, at) ==> Chain(packets, at)
  {
  }

  /** Which chains end with a header. */
  lemma FirstChains(packets: seq<Packet>, p: Packet, at: seq<nat>)
    requires p.First?
    ensures Assembled(packets + [p], at) && at[|at| - 1] == |packets| ==> at == [|packets|]
    ensures Unfinished(packets + [p], at) || Whole(packets + [p], at) ==> at == [|packets|]
  {
    hide Fits;
    var all := packets + [p];
    if Assembled(all, at) && at[|at| - 1] == |packets| && |at| > 1 {
      Grew(packets, p, at);
    }
    if Unfinished(all, at) && at[|at| - 1] < |packets| {
      UnfinishedMore(packets, p, at);
    }
  }

  lemma FirstKeepsInv(s: Progress, packets: seq<Packet>, p: Packet)
    requires p.First?
    ensures var all := packets + [p]; var (t, done) := Step(s, p);
      && Inv(t, all) && (done.Some? <==> exists at :: Whole(all, at))
      && forall at :: Gives(done, all, at)
  {
    hide Fits, Step, Matches, ProductOf, Passed;
    var all, one: seq<nat> := packets + [p], [|packets|];
    FirstStep(s, packets, p);
    forall at ensures Unfinished(all, at) || Whole(all, at) ==> at == one {
      FirstChains(packets, p, at);
    }
    var (t, done) := Step(s, p);
    if at :| Whole(all, at) {
      assert at == one;
    }
    if Fits(all, one) {
      assert Assembled(all, one);
      if Completes(p.frags, p.dbno) {
        assert Whole(all, one);
      } else {
        assert Unfinished(all, one);
      }
    }
  }

  /** Which chains there are behind a continuation. */
  lemma NextChains(packets: seq<Packet>, p: Packet, at: seq<nat>)
    requires p.Next?
    ensures Unfinished(packets + [p], at) && at[|at| - 1] < |packets| ==>
      && Unfinished(packets, at) && p.seqno == packets[at[0]].seqno && p.dbno == packets[at[0]].dbno + |at|
      && !(Chain(packets + [p], at + [|packets|]) && Fits(packets + [p], at + [|packets|]))
    ensures (Unfinished(packets + [p], at) && at[|at| - 1] == |packets|) || Whole(packets + [p], at) ==>
      var front := at[..|at| - 1];
      && Unfinished(packets, front) && at == front + [|packets|] && Fits(packets + [p], at)
      && p.seqno == packets[front[0]].seqno && p.dbno == packets[front[0]].dbno + |front|
  {
    hide Fits;
    var all := packets + [p];
    if Unfinished(all, at) && at[|at| - 1] < |packets| {
      UnfinishedMore(packets, p, at);
    } else if Assembled(all, at) && at[|at| - 1] == |packets| {
      if |at| > 1 {
        Grew(packets, p, at);
      }
    }
  }

  lemma NextKeepsInv(s: Progress, packets: seq<Packet>, p: Packet)
    requires Inv(s, packets) && p.Next?
    ensures var all := packets + [p]; var (t, done) := Step(s, p);
      && Inv(t, all) && (done.Some? <==> exists at :: Whole(all, at))
      && forall at :: Gives(done, all, at)
  {
    hide Step, Unfinished, Whole, HoldsChain, Gives;
    var all := packets + [p];
    var (t, done) := Step(s, p);
    forall at ensures HoldsChain(t, all, at) && Gives(done, all, at) {
      NextChainMatches(s, packets, p, at);
    }
    if at :| Whole(all, at) {
      GivesSome(done, all, at);
    }
    if s.frags == [] {
      assert t == s && done.None? by { hide *; NothingInProgress(s, p); }
    } else {
      var at :| Unfinished(packets, at);
      NextOfChain(s, packets, p, at);
    }
  }

  lemma GivesSome(done: Option, packets: seq<Packet>, at: seq<nat>)
    requires Gives(done, packets, at) && Whole(packets, at)
    ensures done.Some?
  {
  }

  lemma NothingInProgress(s: Progress, p: Packet)
    requires p.Next? && s.frags == []
    ensures Step(s, p) == (s, None)
  {
  }

  lemma NextChainMatches(s: Progress, packets: seq<Packet>, p: Packet, at: seq<nat>)
    requires Inv(s, packets) && p.Next?
    ensures var all := packets + [p]; var (t, done) := Step(s, p);
      HoldsChain(t, all, at) && Gives(done, all, at)
  {
    hide Step, Matches, ProductOf, Assembled, Reaches;
    var all := packets + [p];
    AssembledIsChain(all, at);
    if Assembled(all, at) {
      if at[|at| - 1] < |packets| {
        assert HoldsChain(s, packets, at);
        OldChainMatches(s, packets, p, at);
      } else {
        assert HoldsChain(s, packets, at[..|at| - 1]);
        NewChainMatches(s, packets, p, at);
      }
    }
  }

  lemma OldChainMatches(s: Progress, packets: seq<Packet>, p: Packet, at: seq<nat>)
    requires HoldsChain(s, packets, at) && p.Next? && Assembled(packets + [p], at) && at[|at| - 1] < |packets|
    ensures HoldsChain(Step(s, p).0, packets + [p], at)
  {
    hide Step, Matches, ProductOf, Assembled, Fits, Reaches;
    AssembledIsChain(packets + [p], at);
    AssembledIsChain(packets, at);
    NextChains(packets, p, at);
    if Unfinished(packets + [p], at) {
      NextStep(s, packets, p, at);
      MatchesMore(s, packets, p, at);
    }
  }

  lemma NewChainMatches(s: Progress, packets: seq<Packet>, p: Packet, at: seq<nat>)
    requires p.Next? && Assembled(packets + [p], at) && at[|at| - 1] == |packets|
    requires HoldsChain(s, packets, at[..|at| - 1])
    ensures HoldsChain(Step(s, p).0, packets + [p], at) && Gives(Step(s, p).1, packets + [p], at)
  {
    hide Step, Matches, ProductOf, Assembled, Fits;
    var all := packets + [p];
    AssembledIsChain(all, at);
    NextChains(packets, p, at);
    if Unfinished(all, at) || Whole(all, at) {
      var front := at[..|at| - 1];
      AssembledIsChain(packets, front);
      NextStep(s, packets, p, front);
    }
  }

  lemma NextOfChain(s: Progress, packets: seq<Packet>, p: Packet, at: seq<nat>)
    requires Unfinished(packets, at) && Inv(s, packets) && p.Next?
    ensures var all := packets + [p]; var (t, done) := Step(s, p);
      && (t.frags != [] ==> exists at' :: Unfinished(all, at')) && (done.Some? ==> exists at' :: Whole(all, at'))
  {
    hide Fits, Step, Matches, ProductOf;
    var all, more := packets + [p], at + [|packets|];
    var (t, done) := Step(s, p);
    var f := packets[at[0]];
    assert HoldsChain(s, packets, at);
    NextStep(s, packets, p, at);
    if p.seqno == f.seqno && p.dbno == f.dbno + |at| {
      Grows(packets, p, at);
      if !Fits(all, more) {
        ChainMore(packets, p, at);
        UnfinishedMore(packets, p, at);
        assert Unfinished(all, at);
      } else if Completes(f.frags, p.dbno) {
        assert Whole(all, more);
      } else {
        assert Unfinished(all, more);
      }
    }
  }

  /** One packet keeps the invariant, and a product comes out exactly when the packets end with
      a whole chain: it is the product of that chain. */
  lemma StepKeepsInv(s: Progress, packets: seq<Packet>, p: Packet)
    requires Inv(s, packets)
    ensures var all := packets + [p]; var (t, done) := Step(s, p);
      && Inv(t, all) && (done.Some? <==> exists at :: Whole(all, at))
      && forall at :: Gives(done, all, at)
  {
    hide Unfinished, Whole, AddData;
    match p
    case First(_, _, _, _, _, _) => FirstKeepsInv(s, packets, p);
    case Next(_, _, _) => NextKeepsInv(s, packets, p);
    case _ =>
      forall at
        ensures !Whole(packets + [p], at) && HoldsChain(s, packets + [p], at)
        ensures p.Ignored? && Unfinished(packets, at) ==> Unfinished(packets + [p], at)
        ensures p.BrokenStart? ==> !Unfinished(packets + [p], at)
      {
        OtherStep(s, packets, p, at);
      }
  }

  // ---- all runs ----

  /** The state after some packets, and the products that came out, each with the number of
      packets read when it did. */
  function Run(packets: seq<Packet>): (Progress, seq<(Product, nat)>) {
    if |packets| == 0 then (NOTHING, [])
    else
      var n := |packets| - 1;
      var (s, out) := Run(packets[..n]);
      var (t, done) := Step(s, packets[n]);
      (t, if done.Some? then out + [(done.product, |packets|)] else out)
  }

  /** The products of a run. */
  ghost predicate ComesOut(packets: seq<Packet>, d: Product, n: nat) {
    0 < n <= |packets| && exists at :: Whole(packets[..n], at) && d == ProductOf(packets[..n], at)
  }

  lemma ComesOutLast(packets: seq<Packet>, done: Option, d: Product)
    requires |packets| > 0 && (done.Some? <==> exists at :: Whole(packets, at))
    requires forall at :: Gives(done, packets, at)
    ensures ComesOut(packets, d, |packets|) <==> done == Some(d)
  {
    hide Fits, Reaches, ProductOf;
    assert packets[..|packets|] == packets;
    forall at ensures Whole(packets, at) ==> Chain(packets, at) && done == Some(ProductOf(packets, at)) {
      assert Gives(done, packets, at);
    }
  }

  lemma ComesOutBefore(packets: seq<Packet>, d: Product, n: nat)
    requires |packets| > 0
    ensures n < |packets| ==> (ComesOut(packets, d, n) <==> ComesOut(packets[..|packets| - 1], d, n))
    ensures ComesOut(packets[..|packets| - 1], d, n) ==> n < |packets|
    ensures ComesOut(packets, d, n) ==> n <= |packets|
  {
    hide Whole, ProductOf;
    if 0 < n < |packets| {
      assert packets[..|packets| - 1][..n] == packets[..n];
    }
  }

  /** Reassembly is safe and complete: in every run, what comes out at a packet is exactly the
      product of a whole chain that ends with it. */
  lemma {:induction false} ProductsAreWholeChains(packets: seq<Packet>)
    ensures Inv(Run(packets).0, packets)
    ensures forall d: Product, n: nat :: (d, n) in Run(packets).1 <==> ComesOut(packets, d, n)
    decreases |packets|
  {
    hide Step, Inv, ComesOut, Gives, Whole;
    if |packets| == 0 {
      InvNothing();
      assert forall d: Product, n: nat :: !ComesOut([], d, n) by { hide *; NothingComesOut(); }
    } else {
      var m := |packets| - 1;
      var front := packets[..m];
      ProductsAreWholeChains(front);
      var s := Run(front).0;
      StepKeepsInv(s, front, packets[m]);
      assert front + [packets[m]] == packets;
      forall d: Product, n: nat ensures (d, n) in Run(packets).1 <==> ComesOut(packets, d, n) {
        ComesOutBefore(packets, d, n);
        ComesOutLast(packets, Step(s, packets[m]).1, d);
      }
    }
  }

  lemma NothingComesOut()
    ensures forall d: Product, n: nat :: !ComesOut([], d, n)
  {
  }

  lemma InvNothing()
    ensures Inv(NOTHING, [])
  {
  }

  /** What a block that does not fit leaves behind: everything as it was, so that the block can
      come again; a header that does not fit leaves no product in progress. */
  lemma TooLong(s: Progress, p: Packet)
    requires p.HasData() && (p.Next? ==> s.frags != [] && s.nfrag != 0)
    requires p.Next? ==> p.dbno == s.frags[|s.frags| - 1].fragnum + 1 && p.seqno == s.seqno
    requires var (heap, nfrag, size) := if p.Next? then (|s.heap|, s.nfrag, s.heapsize) else (11, p.frags, p.heapsize);
      heap + |PayloadOf(nfrag, p)| > size
    ensures p.Next? ==> Step(s, p) == (s, None)
    ensures p.First? ==> Step(s, p).0.frags == [] && Step(s, p).1.None?
  {
    hide Stripped, FosHeader;
  }
}
