/** The reversible pre-filters: field-class delta against earlier packets (netc_delta.h) and the
    LZP XOR filter with its adaptive table (netc_lzp.h). */
module Filters {
  import opened Machine

  // ---------------------------------------------------------------- delta

  const HEADER_END: nat := 16
  const SUBHEADER_END: nat := 64
  const BODY_END: nat := 256

  /** Header and body offsets use XOR, the others wrapping subtraction. */
  predicate UsesXor(i: nat) {
    i < HEADER_END || SUBHEADER_END <= i < BODY_END
  }

  function Residual(i: nat, curr: byte, pred: byte): (r: byte) {
    if UsesXor(i) then XorByte(curr, pred) else (curr - pred) % 256
  }

  function Restore(i: nat, residual: byte, pred: byte): (r: byte) {
    if UsesXor(i) then XorByte(residual, pred) else (residual + pred) % 256
  }

  lemma RestoreResidual(i: nat, curr: byte, pred: byte)
    ensures Restore(i, Residual(i, curr, pred), pred) == curr
  {
  }

  /** The prediction for a byte: the previous packet, or its linear extrapolation from the two
      previous packets, in wrapping byte arithmetic. */
  function Predictor(order2: bool, prev2: seq<byte>, prev: seq<byte>, i: nat): (p: byte)
    requires i < |prev| && (order2 ==> i < |prev2|)
  {
    if order2 then (2 * prev[i] as int - prev2[i] as int) % 256 else prev[i]
  }

  ghost predicate History(order2: bool, prev2: seq<byte>, prev: seq<byte>, n: nat) {
    |prev| == n && (order2 ==> |prev2| == n)
  }

  function DeltaEncode(order2: bool, prev2: seq<byte>, prev: seq<byte>, curr: seq<byte>): (r: seq<byte>)
    requires History(order2, prev2, prev, |curr|)
    ensures |r| == |curr|
  {
    seq(|curr|, i requires 0 <= i < |curr| => Residual(i, curr[i], Predictor(order2, prev2, prev, i)))
  }

  function DeltaDecode(order2: bool, prev2: seq<byte>, prev: seq<byte>, residual: seq<byte>): (r: seq<byte>)
    requires History(order2, prev2, prev, |residual|)
    ensures |r| == |residual|
  {
    seq(|residual|, i requires 0 <= i < |residual| => Restore(i, residual[i], Predictor(order2, prev2, prev, i)))
  }

  /** Delta of either order is undone for every packet and every history, in all four regions. */
  lemma DeltaRoundTrip(order2: bool, prev2: seq<byte>, prev: seq<byte>, curr: seq<byte>)
    requires History(order2, prev2, prev, |curr|)
    ensures DeltaDecode(order2, prev2, prev, DeltaEncode(order2, prev2, prev, curr)) == curr
  {
    hide Residual, Restore, Predictor;
    forall i | 0 <= i < |curr|
      ensures DeltaDecode(order2, prev2, prev, DeltaEncode(order2, prev2, prev, curr))[i] == curr[i]
    {
      RestoreResidual(i, curr[i], Predictor(order2, prev2, prev, i));
    }
  }

  /** A residual is zero exactly where the packet follows the prediction: the previous byte, or for
      order 2 the byte that continues the last step. */
  lemma ZeroResidual(order2: bool, prev2: seq<byte>, prev: seq<byte>, curr: seq<byte>, i: nat)
    requires History(order2, prev2, prev, |curr|) && i < |curr|
    ensures DeltaEncode(order2, prev2, prev, curr)[i] == 0 <==>
            if order2 then (curr[i] as int - prev[i] as int) % 256 == (prev[i] as int - prev2[i] as int) % 256
            else curr[i] == prev[i]
  {
    hide Residual;
    ResidualZero(i, curr[i], Predictor(order2, prev2, prev, i));
    if order2 {
      Continues(curr[i], prev[i], prev2[i]);
    }
  }

  /** Which offsets use which difference: XOR in the header (the first 16 bytes) and the body (64 to 255),
      wrapping subtraction in the subheader (16 to 63) and the tail (from 256 on). */
  lemma RegionLaw(order2: bool, prev2: seq<byte>, prev: seq<byte>, curr: seq<byte>, i: nat)
    requires History(order2, prev2, prev, |curr|) && i < |curr|
    ensures var r := DeltaEncode(order2, prev2, prev, curr)[i];
            var pred := if order2 then (2 * prev[i] as int - prev2[i] as int) % 256 else prev[i] as int;
            if i < 16 || 64 <= i < 256 then Xor(r, pred) == curr[i] else (r as int + pred) % 256 == curr[i]
  {
    hide Xor;
  }

  /** Residuals decode alike under both orders exactly when the two packets before are equal: a lost
      order mark is harmless nowhere else. */
  lemma MixedOrders(prev2: seq<byte>, prev: seq<byte>, residual: seq<byte>)
    requires |prev2| == |prev| == |residual|
    ensures DeltaDecode(false, prev2, prev, residual) == DeltaDecode(true, prev2, prev, residual) <==> prev2 == prev
  {
    hide Restore, Predictor;
    var a, b := DeltaDecode(false, prev2, prev, residual), DeltaDecode(true, prev2, prev, residual);
    forall i | 0 <= i < |residual|
      ensures a[i] == b[i] <==> prev2[i] == prev[i]
    {
      SamePredictor(prev2, prev, i);
      RestoreCancel(i, residual[i], Predictor(false, prev2, prev, i), Predictor(true, prev2, prev, i));
    }
  }

  lemma SamePredictor(prev2: seq<byte>, prev: seq<byte>, i: nat)
    requires |prev2| == |prev| && i < |prev|
    ensures Predictor(false, prev2, prev, i) == Predictor(true, prev2, prev, i) <==> prev2[i] == prev[i]
  {
  }

  /** With equal packets before it, a packet has the same residuals in both orders. */
  lemma SameResiduals(prev: seq<byte>, curr: seq<byte>)
    requires |prev| == |curr|
    ensures DeltaEncode(true, prev, prev, curr) == DeltaEncode(false, prev, prev, curr)
  {
    hide Residual;
  }

  /** Different predictions restore different bytes. */
  lemma RestoreCancel(i: nat, residual: byte, a: byte, b: byte)
    ensures Restore(i, residual, a) == Restore(i, residual, b) <==> a == b
  {
    hide Xor;
    if UsesXor(i) {
      XorCancel(residual, a, b);
    }
  }

  lemma {:induction false} XorCancel(x: nat, a: nat, b: nat)
    ensures Xor(x, a) == Xor(x, b) <==> a == b
    decreases x + a + b
  {
    if x + a + b != 0 {
      XorCancel(x / 2, a / 2, b / 2);
    }
  }

  lemma ResidualZero(i: nat, curr: byte, pred: byte)
    ensures Residual(i, curr, pred) == 0 <==> curr == pred
  {
    hide Xor;
    XorZero(curr, pred);
  }

  lemma Continues(c: int, p: int, q: int)
    requires 0 <= c < 256
    ensures c == (2 * p - q) % 256 <==> (c - p) % 256 == (p - q) % 256
  {
  }

  lemma {:induction false} XorZero(a: nat, b: nat)
    ensures Xor(a, b) == 0 <==> a == b
    decreases a + b
  {
    if a != 0 || b != 0 {
      XorZero(a / 2, b / 2);
    }
  }

  /** netc_delta_encode and netc_delta_encode_order2. */
  method EncodeDelta(order2: bool, prev2: seq<byte>, prev: seq<byte>, curr: seq<byte>) returns (residual: array<byte>)
    requires History(order2, prev2, prev, |curr|)
    ensures fresh(residual) && residual[..] == DeltaEncode(order2, prev2, prev, curr)
  {
    hide Residual, Predictor;
    residual := new byte[|curr|];
    for i := 0 to |curr|
      invariant residual[..i] == DeltaEncode(order2, prev2, prev, curr)[..i]
    {
      residual[i] := Residual(i, curr[i], Predictor(order2, prev2, prev, i));
      assert residual[..i + 1] == residual[..i] + [residual[i]];
    }
  }

  /** netc_delta_decode and netc_delta_decode_order2, in place: the residuals are overwritten. */
  method DecodeDeltaInPlace(order2: bool, prev2: seq<byte>, prev: seq<byte>, buf: array<byte>)
    requires History(order2, prev2, prev, buf.Length)
    modifies buf
    ensures buf[..] == DeltaDecode(order2, prev2, prev, old(buf[..]))
  {
    hide Restore, Predictor;
    for i := 0 to buf.Length
      invariant buf[..i] == DeltaDecode(order2, prev2, prev, old(buf[..]))[..i]
      invariant buf[i..] == old(buf[..])[i..]
    {
      assert buf[i] == buf[i..][0] == old(buf[..])[i];
      buf[i] := Restore(i, buf[i], Predictor(order2, prev2, prev, i));
      assert buf[..i + 1] == buf[..i] + [buf[i]];
    }
  }

  // ---------------------------------------------------------------- LZP

  const LZP_SIZE: nat := 131072

  /** `conf` is the valid flag of a trained table and the confidence counter of an adaptive one. */
  datatype LzpEntry = LzpEntry(value: byte, conf: byte)

  type LzpTable = seq<LzpEntry>

  /** The table slot for the byte before and the position in the packet. */
  function LzpSlot(prev: byte, pos: nat): (h: nat)
    ensures h < LZP_SIZE
  {
    FnvStep(FnvStep(FnvStep(FNV_OFFSET, prev), pos % 65536), pos / 65536) % LZP_SIZE
  }

  /** A published FNV-1a value pins the hash: byte 102 before, offset 111. */
  lemma LzpSlotVector()
    ensures LzpSlot(102, 111) == 106470
  {
    hide FnvStep;
    FnvVectors();
    FnvZero();
  }

  function Prediction(t: LzpTable, prev: byte, pos: nat): (p: byte)
    requires |t| == LZP_SIZE
  {
    var e := t[LzpSlot(prev, pos)];
    if e.conf != 0 then e.value else 0
  }

  function LzpFilter(t: LzpTable, src: seq<byte>): (r: seq<byte>)
    requires |t| == LZP_SIZE
    ensures |r| == |src|
  {
    seq(|src|, i requires 0 <= i < |src| => XorByte(src[i], Prediction(t, Before(src, i), i)))
  }

  /** Inverse filter: each prediction needs the original byte before, so it runs left to right. */
  function LzpUnfilter(t: LzpTable, filtered: seq<byte>): (r: seq<byte>)
    requires |t| == LZP_SIZE
    ensures |r| == |filtered|
  {
    if filtered == [] then []
    else
      var n := |filtered| - 1;
      var head := LzpUnfilter(t, filtered[..n]);
      head + [XorByte(filtered[n], Prediction(t, Before(head, n), n))]
  }

  lemma {:induction false} UnfilterPrefix(t: LzpTable, src: seq<byte>, n: nat)
    requires |t| == LZP_SIZE && n <= |src|
    ensures LzpUnfilter(t, LzpFilter(t, src)[..n]) == src[..n]
  {
    hide Prediction, Xor;
    if n > 0 {
      UnfilterPrefix(t, src, n - 1);
      var f := LzpFilter(t, src);
      assert f[..n][..n - 1] == f[..n - 1];
      assert src[..n] == src[..n - 1] + [src[n - 1]];
    }
  }

  /** The XOR filter is undone for every packet and every table. */
  lemma LzpRoundTrip(t: LzpTable, src: seq<byte>)
    requires |t| == LZP_SIZE
    ensures LzpUnfilter(t, LzpFilter(t, src)) == src
  {
    UnfilterPrefix(t, src, |src|);
    assert LzpFilter(t, src)[..|src|] == LzpFilter(t, src) && src[..|src|] == src;
  }

  /** Different filtered packets stand for different packets. */
  lemma {:induction false} UnfilterInjective(t: LzpTable, a: seq<byte>, b: seq<byte>)
    requires |t| == LZP_SIZE && |a| == |b| && LzpUnfilter(t, a) == LzpUnfilter(t, b)
    ensures a == b
  {
    hide Prediction, Xor;
    if a != [] {
      var n := |a| - 1;
      var x, y := LzpUnfilter(t, a[..n]), LzpUnfilter(t, b[..n]);
      assert LzpUnfilter(t, a)[..n] == x && LzpUnfilter(t, b)[..n] == y;
      UnfilterInjective(t, a[..n], b[..n]);
      assert LzpUnfilter(t, a)[n] == LzpUnfilter(t, b)[n];
      var p := Prediction(t, Before(x, n), n);
      XorCancelRight(a[n], b[n], p);
      assert a == a[..n] + [a[n]] && b == b[..n] + [b[n]];
    }
  }

  lemma XorCancelRight(a: byte, b: byte, p: byte)
    requires XorByte(a, p) == XorByte(b, p)
    ensures a == b
  {
    hide Xor;
  }

  /** A filtered byte is zero exactly when the table predicted it; an empty slot predicts zero. */
  lemma ZeroFiltered(t: LzpTable, src: seq<byte>, i: nat)
    requires |t| == LZP_SIZE && i < |src|
    ensures var e := t[LzpSlot(if i == 0 then 0 else src[i - 1], i)];
            LzpFilter(t, src)[i] == 0 <==> src[i] == if e.conf == 0 then 0 else e.value
  {
    hide LzpSlot;
    XorZero(src[i], Prediction(t, Before(src, i), i));
  }

  /** netc_lzp_xor_filter. */
  method FilterLzp(t: LzpTable, src: seq<byte>) returns (dst: array<byte>)
    requires |t| == LZP_SIZE
    ensures fresh(dst) && dst[..] == LzpFilter(t, src)
  {
    hide Prediction;
    dst := new byte[|src|];
    for i := 0 to |src|
      invariant dst[..i] == LzpFilter(t, src)[..i]
    {
      var prev := if i > 0 then src[i - 1] else 0;
      dst[i] := XorByte(src[i], Prediction(t, prev, i));
      assert dst[..i + 1] == dst[..i] + [dst[i]];
    }
  }

  /** netc_lzp_xor_unfilter with source and destination the same buffer. */
  method UnfilterLzpInPlace(t: LzpTable, buf: array<byte>)
    requires |t| == LZP_SIZE
    modifies buf
    ensures buf[..] == LzpUnfilter(t, old(buf[..]))
  {
    hide Prediction;
    for i := 0 to buf.Length
      invariant buf[..i] == LzpUnfilter(t, old(buf[..])[..i])
      invariant buf[i..] == old(buf[..])[i..]
    {
      assert buf[i] == buf[i..][0] == old(buf[..])[i];
      assert old(buf[..])[..i + 1][..i] == old(buf[..])[..i];
      var prev := if i > 0 then buf[i - 1] else 0;
      buf[i] := XorByte(buf[i], Prediction(t, prev, i));
      assert buf[..i + 1] == buf[..i] + [buf[i]];
    }
    assert old(buf[..])[..buf.Length] == old(buf[..]);
  }
}
