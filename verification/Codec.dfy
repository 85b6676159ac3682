/** The encoders and the decoder of complex packing together: what goes in comes out. */
module Codec {
  import opened Binary
  import opened Packing
  import opened Encoder
  import Compack
  import Misspack
  import Comunpack

  /** compack and comunpack, without missing values. */
  method PackAndUnpack(vals: seq<int>, constant: bool, idrsnum: int, t: array<int>, cpack: array<byte>, extra: nat,
                       fld: array<Sample>, ghost w: nat)
    returns (status: int)
    requires t.Length >= TEMPLATE_SIZE && (idrsnum == 2 || idrsnum == 3)
    requires if constant then forall k :: 0 <= k < |vals| ==> vals[k] == 0
      else Compack.Packable(vals, Compack.OrderOf(idrsnum, t[ORDER]), w) && Roomy(cpack.Length, |vals|, w)
    requires |vals| <= fld.Length
    modifies t, cpack, fld
    ensures status == 0 && fld[..|vals|] == AsReals(vals)
  {
    hide BitsOf, Decode, Readable, Written, Header, Integrate, Expand, Reals, Recovers;
    var lcpack;
    ghost var h, pl, xs;
    lcpack, h, pl, xs := Compack.Compack(vals, constant, idrsnum, t, cpack, w);
    UseRecovers(BitsOf(cpack[..]), ParamsOf(idrsnum, t[..]), AsReals(vals), lcpack, lcpack + extra);
    status := Comunpack.Comunpack(cpack, lcpack + extra, idrsnum, t[..], |vals|, fld);
  }

  /** misspack and comunpack, with missing values of one or two kinds. */
  method PackAndUnpackMissing(samples: seq<Sample>, idrsnum: int, t: array<int>, cpack: array<byte>, extra: nat,
                              fld: array<Sample>, ghost w: nat)
    returns (status: int)
    requires t.Length >= TEMPLATE_SIZE && (idrsnum == 2 || idrsnum == 3) && 1 <= t[MISSING] <= 2
    requires Misspack.Packable(samples, t[MISSING], Misspack.OrderOf(idrsnum, t[ORDER]), w)
    requires Roomy(cpack.Length, |samples|, w) && |samples| <= fld.Length
    modifies t, cpack, fld
    ensures status == 0 && fld[..|samples|] == samples
  {
    hide BitsOf, Decode, Readable, Written, Header, Integrate, Expand, Reals, Recovers, SpreadBelow,
      Misspack.FilledIn;
    var lcpack;
    ghost var h, pl, xs, ic, m;
    lcpack, h, pl, xs, ic, m := Misspack.Misspack(samples, idrsnum, t, cpack, w);
    UseRecovers(BitsOf(cpack[..]), ParamsOf(idrsnum, t[..]), samples, lcpack, lcpack + extra);
    status := Comunpack.Comunpack(cpack, lcpack + extra, idrsnum, t[..], |samples|, fld);
  }

  lemma UseRecovers(b: bits, p: Params, samples: seq<Sample>, lcpack: int, lensec: int)
    requires Recovers(b, p, samples, lcpack) && lensec >= lcpack
    ensures Readable(b, p, |samples|, lensec) && Decode(b, p, |samples|, lensec) == Unpacked(samples)
  {
  }
}
