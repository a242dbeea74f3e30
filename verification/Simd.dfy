/** The AVX2 forms of delta and histogram against their scalar definitions (netc_simd_avx2.c,
    netc_simd_generic.c).  A vector operation is a parallel assignment to one block: all loads
    happen before the stores. */
module Simd {
  import opened Machine
  import opened Filters

  // ---------------------------------------------------------------- region-chunked delta

  function EncodeOp(xor: bool, c: byte, p: byte): byte {
    if xor then XorByte(c, p) else (c - p) % 256
  }

  function DecodeOp(xor: bool, r: byte, p: byte): byte {
    if xor then XorByte(r, p) else (r + p) % 256
  }

  /** The offsets `from..to` all belong to XOR regions, or all to the others. */
  ghost predicate OneClass(xor: bool, from: nat, to: nat) {
    forall k :: from <= k < to ==> UsesXor(k) == xor
  }

  /** The residuals of the first `i` bytes are in place. */
  ghost predicate EncodedTo(prev: seq<byte>, curr: seq<byte>, out: seq<byte>, i: nat) {
    && |out| == |curr| == |prev| && i <= |out|
    && forall k :: 0 <= k < i ==> out[k] == Residual(k, curr[k], prev[k])
  }

  /** One region: 32-byte blocks where allowed, then 16-byte blocks, then single bytes. */
  method EncodeRegion(xor: bool, prev: seq<byte>, curr: seq<byte>, out: array<byte>, start: nat, end: nat,
                      wide: bool, narrow: bool)
    returns (i: nat)
    requires EncodedTo(prev, curr, out[..], start) && start <= end <= out.Length && OneClass(xor, start, end)
    modifies out
    ensures i == end && EncodedTo(prev, curr, out[..], end)
  {
    hide XorByte;
    i := start;
    while wide && i + 32 <= end
      invariant start <= i <= end && EncodedTo(prev, curr, out[..], i)
    {
      forall j | i <= j < i + 32 {
        out[j] := EncodeOp(xor, curr[j], prev[j]);
      }
      i := i + 32;
    }
    while narrow && i + 16 <= end
      invariant start <= i <= end && EncodedTo(prev, curr, out[..], i)
    {
      forall j | i <= j < i + 16 {
        out[j] := EncodeOp(xor, curr[j], prev[j]);
      }
      i := i + 16;
    }
    while i < end
      invariant start <= i <= end && EncodedTo(prev, curr, out[..], i)
    {
      out[i] := EncodeOp(xor, curr[i], prev[i]);
      i := i + 1;
    }
  }

  /** netc_delta_encode_avx2 agrees with the per-byte definition on every length. */
  method EncodeAvx2(prev: seq<byte>, curr: seq<byte>) returns (out: array<byte>)
    requires |prev| == |curr|
    ensures fresh(out) && out[..] == DeltaEncode(false, [], prev, curr)
  {
    hide Residual;
    var len := |curr|;
    out := new byte[len];
    var i := EncodeRegion(true, prev, curr, out, 0, Min(len, HEADER_END), false, false);
    i := EncodeRegion(false, prev, curr, out, i, Min(len, SUBHEADER_END), false, true);
    i := EncodeRegion(true, prev, curr, out, i, Min(len, BODY_END), true, true);
    i := EncodeRegion(false, prev, curr, out, i, len, true, true);
  }

  /** The first `i` bytes are restored, the others still hold residuals. */
  ghost predicate DecodedTo(prev: seq<byte>, residual: seq<byte>, buf: seq<byte>, i: nat) {
    && |buf| == |residual| == |prev| && i <= |buf|
    && (forall k :: 0 <= k < i ==> buf[k] == Restore(k, residual[k], prev[k]))
    && (forall k :: i <= k < |buf| ==> buf[k] == residual[k])
  }

  method DecodeRegion(xor: bool, prev: seq<byte>, ghost residual: seq<byte>, buf: array<byte>, start: nat, end: nat,
                      wide: bool, narrow: bool)
    returns (i: nat)
    requires DecodedTo(prev, residual, buf[..], start) && start <= end <= buf.Length && OneClass(xor, start, end)
    modifies buf
    ensures i == end && DecodedTo(prev, residual, buf[..], end)
  {
    hide XorByte;
    i := start;
    while wide && i + 32 <= end
      invariant start <= i <= end && DecodedTo(prev, residual, buf[..], i)
    {
      forall j | i <= j < i + 32 {
        buf[j] := DecodeOp(xor, buf[j], prev[j]);
      }
      i := i + 32;
    }
    while narrow && i + 16 <= end
      invariant start <= i <= end && DecodedTo(prev, residual, buf[..], i)
    {
      forall j | i <= j < i + 16 {
        buf[j] := DecodeOp(xor, buf[j], prev[j]);
      }
      i := i + 16;
    }
    while i < end
      invariant start <= i <= end && DecodedTo(prev, residual, buf[..], i)
    {
      buf[i] := DecodeOp(xor, buf[i], prev[i]);
      i := i + 1;
    }
  }

  /** netc_delta_decode_avx2 with source and destination the same buffer. */
  method DecodeAvx2InPlace(prev: seq<byte>, buf: array<byte>)
    requires |prev| == buf.Length
    modifies buf
    ensures buf[..] == DeltaDecode(false, [], prev, old(buf[..]))
  {
    hide Restore;
    ghost var residual := buf[..];
    var len := buf.Length;
    var i := DecodeRegion(true, prev, residual, buf, 0, Min(len, HEADER_END), false, false);
    i := DecodeRegion(false, prev, residual, buf, i, Min(len, SUBHEADER_END), false, true);
    i := DecodeRegion(true, prev, residual, buf, i, Min(len, BODY_END), true, true);
    i := DecodeRegion(false, prev, residual, buf, i, len, true, true);
  }

  // ---------------------------------------------------------------- histogram

  function Occurrences(data: seq<byte>, k: nat): (n: nat)
    ensures n <= |data|
  {
    if data == [] then 0
    else Occurrences(data[..|data| - 1], k) + (if data[|data| - 1] == k then 1 else 0)
  }

  lemma OccurrencesAppend(data: seq<byte>, b: byte, k: nat)
    ensures Occurrences(data + [b], k) == Occurrences(data, k) + (if b == k then 1 else 0)
  {
    assert (data + [b])[..|data|] == data;
  }

  lemma {:induction false} OccurrencesConcat(a: seq<byte>, b: seq<byte>, k: nat)
    ensures Occurrences(a + b, k) == Occurrences(a, k) + Occurrences(b, k)
  {
    if b == [] {
      assert a + b == a;
    } else {
      var n := |b| - 1;
      OccurrencesConcat(a, b[..n], k);
      assert (a + b)[..|a| + n] == a + b[..n];
    }
  }

  lemma OccurrencesNext(data: seq<byte>, i: nat, k: nat)
    requires i < |data|
    ensures Occurrences(data[..i + 1], k) == Occurrences(data[..i], k) + (if data[i] == k then 1 else 0)
  {
    assert data[..i + 1][..i] == data[..i];
  }

  /** The four partial histograms together count the first `i` bytes. */
  ghost predicate Counted(h: seq<nat>, h1: seq<nat>, h2: seq<nat>, h3: seq<nat>, data: seq<byte>, i: nat) {
    && i <= |data| && |h| == |h1| == |h2| == |h3| == 256
    && forall k :: 0 <= k < 256 ==> h[k] + h1[k] + h2[k] + h3[k] == Occurrences(data[..i], k)
  }

  lemma CountNext(h: seq<nat>, h1: seq<nat>, h2: seq<nat>, h3: seq<nat>, data: seq<byte>, i: nat)
    requires Counted(h, h1, h2, h3, data, i) && i < |data|
    ensures Counted(h[data[i] := h[data[i]] + 1], h1, h2, h3, data, i + 1)
    ensures Counted(h, h1[data[i] := h1[data[i]] + 1], h2, h3, data, i + 1)
    ensures Counted(h, h1, h2[data[i] := h2[data[i]] + 1], h3, data, i + 1)
    ensures Counted(h, h1, h2, h3[data[i] := h3[data[i]] + 1], data, i + 1)
  {
    hide Occurrences;
    forall k | 0 <= k < 256
      ensures Occurrences(data[..i + 1], k) == Occurrences(data[..i], k) + (if data[i] == k then 1 else 0)
    {
      OccurrencesNext(data, i, k);
    }
  }

  /** netc_freq_count_generic: 32-bit counters. */
  method CountGeneric(data: seq<byte>, freq: array<nat>)
    requires freq.Length == 256 && forall k :: 0 <= k < 256 ==> freq[k] < WORD
    modifies freq
    ensures forall k :: 0 <= k < 256 ==> freq[k] == (old(freq[k]) + Occurrences(data, k)) % WORD
  {
    hide Occurrences;
    OccurrencesNone();
    for i := 0 to |data|
      invariant forall k :: 0 <= k < 256 ==> freq[k] == (old(freq[k]) + Occurrences(data[..i], k)) % WORD
    {
      forall k | 0 <= k < 256
        ensures Occurrences(data[..i + 1], k) == Occurrences(data[..i], k) + (if data[i] == k then 1 else 0)
      {
        OccurrencesNext(data, i, k);
      }
      freq[data[i]] := (freq[data[i]] + 1) % WORD;
    }
    assert data[..|data|] == data;
  }

  lemma OccurrencesNone()
    ensures forall k :: Occurrences([], k) == 0
  {
  }

  /** netc_freq_count_avx2: every fourth byte to its own histogram, the tail to the first, merged at
      the end; the same result as the scalar count. */
  method CountAvx2(data: seq<byte>, freq: array<nat>)
    requires freq.Length == 256 && forall k :: 0 <= k < 256 ==> freq[k] < WORD
    modifies freq
    ensures forall k :: 0 <= k < 256 ==> freq[k] == (old(freq[k]) + Occurrences(data, k)) % WORD
  {
    hide Occurrences, Counted;
    var h := FourWay(data);
    for k := 0 to 256
      invariant forall j :: 0 <= j < k ==> freq[j] == (old(freq[j]) + Occurrences(data, j)) % WORD
      invariant forall j :: k <= j < 256 ==> freq[j] == old(freq[j])
    {
      freq[k] := (freq[k] + (h[0][k] + h[1][k] + h[2][k] + h[3][k])) % WORD;
    }
  }

  lemma CountedNone(zero: seq<nat>, data: seq<byte>)
    requires |zero| == 256 && forall k :: 0 <= k < 256 ==> zero[k] == 0
    ensures Counted(zero, zero, zero, zero, data, 0)
  {
    assert data[..0] == [];
  }

  lemma CountedSize(h: seq<nat>, h1: seq<nat>, h2: seq<nat>, h3: seq<nat>, data: seq<byte>, i: nat)
    requires Counted(h, h1, h2, h3, data, i)
    ensures |h| == |h1| == |h2| == |h3| == 256
    ensures i == |data| ==> forall k :: 0 <= k < 256 ==> h[k] + h1[k] + h2[k] + h3[k] == Occurrences(data, k)
  {
    if i == |data| {
      assert data[..i] == data;
    }
  }

  method FourWay(data: seq<byte>) returns (h: seq<seq<nat>>)
    ensures |h| == 4 && |h[0]| == |h[1]| == |h[2]| == |h[3]| == 256
    ensures forall k :: 0 <= k < 256 ==> h[0][k] + h[1][k] + h[2][k] + h[3][k] == Occurrences(data, k)
  {
    hide Occurrences, Counted;
    var zero: seq<nat> := seq(256, _ => 0);
    var h0, h1, h2, h3 := zero, zero, zero, zero;
    var i := 0;
    CountedNone(zero, data);
    while i + 32 <= |data|
      invariant 0 <= i <= |data| && Counted(h0, h1, h2, h3, data, i)
    {
      for j := 0 to 8
        invariant Counted(h0, h1, h2, h3, data, i + 4 * j)
      {
        var b := i + 4 * j;
        CountNext(h0, h1, h2, h3, data, b);
        CountedSize(h0, h1, h2, h3, data, b);
        h0 := h0[data[b] := h0[data[b]] + 1];
        CountNext(h0, h1, h2, h3, data, b + 1);
        h1 := h1[data[b + 1] := h1[data[b + 1]] + 1];
        CountNext(h0, h1, h2, h3, data, b + 2);
        h2 := h2[data[b + 2] := h2[data[b + 2]] + 1];
        CountNext(h0, h1, h2, h3, data, b + 3);
        h3 := h3[data[b + 3] := h3[data[b + 3]] + 1];
      }
      i := i + 32;
    }
    while i < |data|
      invariant 0 <= i <= |data| && Counted(h0, h1, h2, h3, data, i)
    {
      CountNext(h0, h1, h2, h3, data, i);
      CountedSize(h0, h1, h2, h3, data, i);
      h0 := h0[data[i] := h0[data[i]] + 1];
      i := i + 1;
    }
    CountedSize(h0, h1, h2, h3, data, i);
    h := [h0, h1, h2, h3];
  }

  function Histogram(data: seq<byte>): (h: seq<nat>)
    ensures |h| == 256
  {
    seq(256, k requires 0 <= k < 256 => Occurrences(data, k))
  }

  /** The counts of all byte values total the length of the data. */
  lemma {:induction false} CountsTotal(data: seq<byte>)
    ensures Sum(Histogram(data)) == |data|
  {
    var s := Histogram(data);
    if data == [] {
      SumZeros(s);
    } else {
      var n := |data| - 1;
      var t := Histogram(data[..n]);
      CountsTotal(data[..n]);
      assert s == t[data[n] := t[data[n]] + 1];
      SumUpdate(t, data[n], t[data[n]] + 1);
    }
  }

  lemma {:induction false} SumZeros(s: seq<nat>)
    requires forall i :: 0 <= i < |s| ==> s[i] == 0
    ensures Sum(s) == 0
  {
    if s != [] {
      SumZeros(s[..|s| - 1]);
    }
  }
}
