/** The dual-state coder: two states take turns on one bit stream.

    The encoder gives the last byte of an odd packet to state 0; the decoder takes the first
    byte of an odd packet from state 0.  Even packets round-trip; for odd ones the second decoded
    byte is the third source byte, so the coder is lossless exactly on even lengths. */
module TansX2 {
  import opened Machine
  import opened Bitstream
  import opened TansTable
  import opened TansCoder

  datatype Coded2 = Coded2(x0: nat, x1: nat, bits: Bits)

  ghost predicate Coded2Ok(p: Params, c: Coded2) {
    && p.Size() <= c.x0 < 2 * p.Size()
    && p.Size() <= c.x1 < 2 * p.Size()
    && c.bits.Valid()
  }

  ghost predicate Supported(t: Table, src: seq<byte>) {
    |t.freq| == SYMBOLS && forall i :: 0 <= i < |src| ==> t.freq[src[i]] > 0
  }

  ghost function Step0(p: Params, t: Table, s: byte, c: Coded2): (r: Coded2)
    requires Built(p, t) && t.freq[s] > 0 && Coded2Ok(p, c)
    ensures Coded2Ok(p, r) && r.x1 == c.x1 && r.bits.width >= c.bits.width
  {
    var n := Step(p, t, s, Coded(c.x0, c.bits));
    Coded2(n.state, c.x1, n.bits)
  }

  ghost function Step1(p: Params, t: Table, s: byte, c: Coded2): (r: Coded2)
    requires Built(p, t) && t.freq[s] > 0 && Coded2Ok(p, c)
    ensures Coded2Ok(p, r) && r.x0 == c.x0 && r.bits.width >= c.bits.width
  {
    var n := Step(p, t, s, Coded(c.x1, c.bits));
    Coded2(c.x0, n.state, n.bits)
  }

  /** The pairs at positions `i..n`, coded right to left: state 1 then state 0. */
  ghost function EncodePairs(p: Params, t: Table, src: seq<byte>, i: nat, n: nat, c: Coded2): (r: Coded2)
    requires Built(p, t) && Supported(t, src) && Coded2Ok(p, c)
    requires i <= n <= |src| && (n - i) % 2 == 0
    ensures Coded2Ok(p, r)
    decreases n - i
  {
    if i == n then c
    else Step0(p, t, src[i], Step1(p, t, src[i + 1], EncodePairs(p, t, src, i + 2, n, c)))
  }

  ghost function Start2(p: Params): (c: Coded2)
    ensures Coded2Ok(p, c)
  {
    Pow2Succ(0);
    Coded2(p.Size(), p.Size(), EMPTY)
  }

  /** State 0 codes the last byte of an odd packet before the pairs. */
  ghost function OddTail(p: Params, t: Table, src: seq<byte>): (c: Coded2)
    requires Built(p, t) && Supported(t, src)
    ensures Coded2Ok(p, c)
  {
    if |src| % 2 == 1 then Step0(p, t, src[|src| - 1], Start2(p)) else Start2(p)
  }

  ghost function EncodeX2(p: Params, t: Table, src: seq<byte>): (c: Coded2)
    requires Built(p, t) && Supported(t, src)
    ensures Coded2Ok(p, c)
  {
    EncodePairs(p, t, src, 0, |src| - |src| % 2, OddTail(p, t, src))
  }

  ghost function Unstep0(p: Params, t: Table, c: Coded2): (r: Option<(byte, Coded2)>)
    requires Built(p, t) && Coded2Ok(p, c)
    ensures r.Some? ==> Coded2Ok(p, r.value.1)
  {
    var u := Unstep(p, t, Coded(c.x0, c.bits));
    if u.None? then None else Some((u.value.0, Coded2(u.value.1.state, c.x1, u.value.1.bits)))
  }

  ghost function Unstep1(p: Params, t: Table, c: Coded2): (r: Option<(byte, Coded2)>)
    requires Built(p, t) && Coded2Ok(p, c)
    ensures r.Some? ==> Coded2Ok(p, r.value.1)
  {
    var u := Unstep(p, t, Coded(c.x1, c.bits));
    if u.None? then None else Some((u.value.0, Coded2(c.x0, u.value.1.state, u.value.1.bits)))
  }

  /** `k` pairs decoded left to right: state 0 then state 1. */
  ghost function DecodePairs(p: Params, t: Table, k: nat, c: Coded2): (r: Option<seq<byte>>)
    requires Built(p, t) && Coded2Ok(p, c)
    ensures r.Some? ==> |r.value| == 2 * k
    decreases k
  {
    if k == 0 then Some([])
    else
      var u0 := Unstep0(p, t, c);
      if u0.None? then None
      else
        var u1 := Unstep1(p, t, u0.value.1);
        if u1.None? then None
        else
          var rest := DecodePairs(p, t, k - 1, u1.value.1);
          if rest.None? then None else Some([u0.value.0, u1.value.0] + rest.value)
  }

  /** State 0 decodes the first byte of an odd packet before the pairs. */
  ghost function DecodeX2(p: Params, t: Table, n: nat, c: Coded2): (r: Option<seq<byte>>)
    requires Built(p, t) && Coded2Ok(p, c)
    ensures r.Some? ==> |r.value| == n
  {
    if n % 2 == 0 then DecodePairs(p, t, n / 2, c)
    else
      var u := Unstep0(p, t, c);
      if u.None? then None
      else
        var rest := DecodePairs(p, t, n / 2, u.value.1);
        if rest.None? then None else Some([u.value.0] + rest.value)
  }

  lemma {:induction false} PairsRoundTrip(p: Params, t: Table, src: seq<byte>, i: nat, n: nat, c: Coded2)
    requires Built(p, t) && Supported(t, src) && Coded2Ok(p, c)
    requires i <= n <= |src| && (n - i) % 2 == 0
    ensures DecodePairs(p, t, (n - i) / 2, EncodePairs(p, t, src, i, n, c)) == Some(src[i..n])
    decreases n - i
  {
    hide Step, Unstep, Built;
    if i < n {
      var c2 := EncodePairs(p, t, src, i + 2, n, c);
      var c1 := Step1(p, t, src[i + 1], c2);
      UnstepStep(p, t, src[i + 1], Coded(c2.x1, c2.bits));
      UnstepStep(p, t, src[i], Coded(c1.x0, c1.bits));
      PairsRoundTrip(p, t, src, i + 2, n, c);
      assert (n - i) / 2 - 1 == (n - (i + 2)) / 2;
      assert src[i..n] == [src[i], src[i + 1]] + src[i + 2..n];
    } else {
      assert src[i..n] == [];
    }
  }

  /** Two interleaved states decode every even packet, because the decoder pops state 0 then
      state 1 where the encoder pushed state 1 then state 0. */
  lemma EvenRoundTrip(p: Params, t: Table, src: seq<byte>)
    requires Built(p, t) && Supported(t, src) && |src| % 2 == 0
    ensures DecodeX2(p, t, |src|, EncodeX2(p, t, src)) == Some(src)
  {
    PairsRoundTrip(p, t, src, 0, |src|, Start2(p));
    assert src[0..|src|] == src;
  }

  /** On an odd packet the second decoded byte is the third source byte. */
  lemma OddDecodesThirdByte(p: Params, t: Table, src: seq<byte>)
    requires Built(p, t) && Supported(t, src) && |src| % 2 == 1 && |src| >= 3
    ensures var d := DecodeX2(p, t, |src|, EncodeX2(p, t, src));
            d.Some? ==> d.value[1] == src[2]
  {
    hide Step, Unstep, Built, Shows;
    var n := |src| - 1;
    var c0 := OddTail(p, t, src);
    var c2 := EncodePairs(p, t, src, 2, n, c0);
    var c1 := Step1(p, t, src[1], c2);
    var c := Step0(p, t, src[0], c1);
    assert EncodeX2(p, t, src) == c;
    UnstepStep(p, t, src[0], Coded(c1.x0, c1.bits));
    assert Unstep0(p, t, c) == Some((src[0], c1));
    if n == 2 {
      SymbolOfStep(p, t, src[2], Start2(p));
    } else {
      PairsHoldSymbol(p, t, src, 2, n, c0);
    }
    FirstOfPairs(p, t, |src| / 2, c1, src[2]);
  }

  /** State `x` sits on a slot of symbol `s`. */
  ghost predicate Shows(p: Params, t: Table, x: nat, s: byte) {
    Built(p, t) && InRange(p, x) && EntryAt(p, t, x).symbol == s
  }

  lemma FirstOfPairs(p: Params, t: Table, k: nat, c: Coded2, s: byte)
    requires Built(p, t) && Coded2Ok(p, c) && k > 0 && Shows(p, t, c.x0, s)
    ensures var d := DecodePairs(p, t, k, c);
            d.Some? ==> d.value[0] == s
  {
    hide Built, EntryAt;
  }

  lemma SymbolOfStep(p: Params, t: Table, s: byte, c: Coded2)
    requires Built(p, t) && t.freq[s] > 0 && Coded2Ok(p, c)
    ensures Shows(p, t, Step0(p, t, s, c).x0, s)
  {
    hide Step, Built, EntryAt, Pow2;
    UnstepStep(p, t, s, Coded(c.x0, c.bits));
  }

  lemma SupportedAt(t: Table, src: seq<byte>, i: nat)
    requires Supported(t, src) && i < |src|
    ensures |t.freq| == SYMBOLS && t.freq[src[i]] > 0
  {
  }

  /** After the pairs from position `i` on, state 0 sits on a slot of the symbol at `i`. */
  lemma PairsHoldSymbol(p: Params, t: Table, src: seq<byte>, i: nat, n: nat, c: Coded2)
    requires Built(p, t) && Supported(t, src) && Coded2Ok(p, c)
    requires i + 2 <= n <= |src| && (n - i) % 2 == 0
    ensures Shows(p, t, EncodePairs(p, t, src, i, n, c).x0, src[i])
  {
    hide Step0, Step1, Built, Shows, Coded2Ok, Supported;
    SupportedAt(t, src, i);
    SupportedAt(t, src, i + 1);
    SymbolOfStep(p, t, src[i], Step1(p, t, src[i + 1], EncodePairs(p, t, src, i + 2, n, c)));
  }

  ghost predicate LosslessAt(p: Params, t: Table, n: nat)
    requires Built(p, t)
  {
    forall src: seq<byte> :: |src| == n && Supported(t, src) ==>
      DecodeX2(p, t, n, EncodeX2(p, t, src)) == Some(src)
  }

  /** With at least two symbols in the table, the dual-state coder is lossless on the packets of a
      length exactly when that length is even. */
  lemma LosslessExactlyWhenEven(p: Params, t: Table, n: nat, a: byte, b: byte)
    requires Built(p, t) && n >= 2
    requires |t.freq| == SYMBOLS && a != b && t.freq[a] > 0 && t.freq[b] > 0
    ensures LosslessAt(p, t, n) <==> n % 2 == 0
  {
    hide EncodeX2, DecodeX2, Built;
    if n % 2 == 0 {
      forall src: seq<byte> | |src| == n && Supported(t, src)
        ensures DecodeX2(p, t, n, EncodeX2(p, t, src)) == Some(src)
      {
        EvenRoundTrip(p, t, src);
      }
    } else {
      var bad: seq<byte> := seq(n, i requires 0 <= i < n => if i == 2 then b else a);
      assert Supported(t, bad);
      OddDecodesThirdByte(p, t, bad);
      assert DecodeX2(p, t, n, EncodeX2(p, t, bad)) != Some(bad);
    }
  }

  // ---------------------------------------------------------------- the coding loops

  lemma {:induction false} EncodePairsWidth(p: Params, t: Table, src: seq<byte>, i: nat, j: nat, n: nat, c: Coded2)
    requires Built(p, t) && Supported(t, src) && Coded2Ok(p, c)
    requires i <= j <= n <= |src| && (n - i) % 2 == 0 && (n - j) % 2 == 0
    ensures EncodePairs(p, t, src, j, n, c).bits.width <= EncodePairs(p, t, src, i, n, c).bits.width
    decreases j - i
  {
    hide Step0, Step1, Built;
    if i < j {
      EncodePairsWidth(p, t, src, i + 2, j, n, c);
    }
  }

  method EncodeWithState0(p: Params, t: Table, s: byte, x0: nat, ghost x1: nat, w: BitWriter)
    returns (ok: bool, y0: nat)
    requires Built(p, t) && t.freq[s] > 0 && w.Valid() && Coded2Ok(p, Coded2(x0, x1, w.Content()))
    modifies w, w.buf
    ensures ok ==> w.Valid() && Coded2(y0, x1, w.Content()) == Step0(p, t, s, Coded2(x0, x1, old(w.Content())))
    ensures 8 * w.buf.Length >= Step0(p, t, s, Coded2(x0, x1, old(w.Content()))).bits.width ==> ok
  {
    hide Step, Built, Pow2;
    ok, y0 := EncodeSymbol(p, t, s, x0, w);
  }

  /** One round of the pair loop: state 1 first, then state 0. */
  method EncodePair(p: Params, t: Table, s0: byte, s1: byte, x0: nat, x1: nat, w: BitWriter)
    returns (ok: bool, y0: nat, y1: nat)
    requires Built(p, t) && t.freq[s0] > 0 && t.freq[s1] > 0 && w.Valid()
    requires Coded2Ok(p, Coded2(x0, x1, w.Content()))
    modifies w, w.buf
    ensures var c := Step0(p, t, s0, Step1(p, t, s1, Coded2(x0, x1, old(w.Content()))));
            && (ok ==> w.Valid() && Coded2(y0, y1, w.Content()) == c)
            && (8 * w.buf.Length >= c.bits.width ==> ok)
  {
    hide Step, Built, Pow2;
    ghost var c1 := Step1(p, t, s1, Coded2(x0, x1, w.Content()));
    ghost var c := Step0(p, t, s0, c1);
    y0 := x0;
    ok, y1 := EncodeSymbol(p, t, s1, x1, w);
    if ok {
      assert c1 == Coded2(x0, y1, w.Content());
      ok, y0 := EncodeSymbol(p, t, s0, x0, w);
    }
  }

  /** The pair loop of the encoder, right to left. */
  method EncodePairLoop(p: Params, t: Table, src: seq<byte>, n: nat, x0: nat, x1: nat, w: BitWriter)
    returns (ok: bool, y0: nat, y1: nat)
    requires Built(p, t) && Supported(t, src) && n <= |src| && n % 2 == 0
    requires w.Valid() && Coded2Ok(p, Coded2(x0, x1, w.Content()))
    modifies w, w.buf
    ensures var c := EncodePairs(p, t, src, 0, n, Coded2(x0, x1, old(w.Content())));
            && (ok ==> w.Valid() && Coded2(y0, y1, w.Content()) == c)
            && (8 * w.buf.Length >= c.bits.width ==> ok)
  {
    hide Step0, Step1, Built, Pow2, Coded2Ok;
    ghost var c0 := Coded2(x0, x1, w.Content());
    y0, y1, ok := x0, x1, true;
    var i := n;
    while i >= 2
      invariant 0 <= i <= n && (n - i) % 2 == 0 && w.Valid()
      invariant Coded2(y0, y1, w.Content()) == EncodePairs(p, t, src, i, n, c0)
    {
      i := i - 2;
      EncodePairsWidth(p, t, src, 0, i, n, c0);
      ok, y0, y1 := EncodePair(p, t, src[i], src[i + 1], y0, y1, w);
      if !ok {
        return;
      }
    }
    ok := true;
  }

  /** netc_tans_encode_x2 followed by the flush: fails on packets shorter than two bytes and when
      the stream does not fit. */
  method EncodeX2Stream(p: Params, t: Table, src: seq<byte>, capacity: nat)
    returns (r: Option<(nat, nat, seq<byte>)>)
    requires Built(p, t) && Supported(t, src)
    ensures r.Some? <==> |src| >= 2 && |ToBytes(EncodeX2(p, t, src).bits)| <= capacity
    ensures r.Some? ==> var c := EncodeX2(p, t, src); r.value == (c.x0, c.x1, ToBytes(c.bits))
  {
    hide Step0, Built, LeBytes, Pow2, EncodePairs;
    if |src| < 2 {
      return None;
    }
    BuiltParams(p, t);
    var w := new BitWriter(capacity);
    var x0: nat, x1: nat, n := p.Size(), p.Size(), |src|;
    ghost var c0 := OddTail(p, t, src);
    EncodePairsGrow(p, t, src, |src| - |src| % 2, c0);
    var ok;
    if n % 2 == 1 {
      n := n - 1;
      ok, x0 := EncodeWithState0(p, t, src[n], x0, x1, w);
      if !ok {
        return None;
      }
    }
    ok, x0, x1 := EncodePairLoop(p, t, src, n, x0, x1, w);
    if !ok {
      return None;
    }
    var size := w.Flush();
    if size.None? {
      return None;
    }
    r := Some((x0, x1, w.buf[..size.value]));
  }

  lemma EncodePairsGrow(p: Params, t: Table, src: seq<byte>, n: nat, c: Coded2)
    requires Built(p, t) && Supported(t, src) && Coded2Ok(p, c) && n <= |src| && n % 2 == 0
    ensures c.bits.width <= EncodePairs(p, t, src, 0, n, c).bits.width
  {
    EncodePairsWidth(p, t, src, 0, n, n, c);
  }

  ghost function GlueBytes(prefix: seq<byte>, r: Option<seq<byte>>): Option<seq<byte>> {
    if r.None? then None else Some(prefix + r.value)
  }

  lemma GluePair(p: Params, t: Table, prefix: seq<byte>, s0: byte, s1: byte, k: nat, c: Coded2, c2: Coded2)
    requires Built(p, t) && Coded2Ok(p, c) && Coded2Ok(p, c2)
    requires PairDecodes(p, t, c, s0, s1, c2)
    ensures GlueBytes(prefix, DecodePairs(p, t, k + 1, c)) == GlueBytes(prefix + [s0, s1], DecodePairs(p, t, k, c2))
  {
    hide Built, Unstep, Pow2;
    var rest := DecodePairs(p, t, k, c2);
    if rest.Some? {
      assert prefix + ([s0, s1] + rest.value) == (prefix + [s0, s1]) + rest.value;
    }
  }

  ghost predicate PairDecodes(p: Params, t: Table, c: Coded2, s0: byte, s1: byte, c2: Coded2)
    requires Built(p, t) && Coded2Ok(p, c)
  {
    var u0 := Unstep0(p, t, c);
    u0.Some? && u0.value.0 == s0 && Unstep1(p, t, u0.value.1) == Some((s1, c2))
  }

  /** One round of the pair loop: state 0 first, then state 1. */
  method DecodePair(p: Params, t: Table, x0: nat, x1: nat, r: BitReader, ghost bits: Bits, ghost good: bool)
    returns (ok: bool, s0: byte, s1: byte, y0: nat, y1: nat, ghost left: Bits)
    requires Built(p, t) && r.Valid() && Coded2Ok(p, Coded2(x0, x1, bits))
    requires good ==> r.Pending() == Some(bits)
    modifies r
    ensures r.Valid() && (ok ==> Coded2Ok(p, Coded2(y0, y1, left)))
    ensures good ==> (if ok then r.Pending() == Some(left) &&
                                 PairDecodes(p, t, Coded2(x0, x1, bits), s0, s1, Coded2(y0, y1, left))
                      else forall k: nat :: k > 0 ==> DecodePairs(p, t, k, Coded2(x0, x1, bits)).None?)
  {
    hide Built, Unstep, Pow2;
    left, s1, y0, y1 := bits, 0, x0, x1;
    ok, s0, y0 := DecodeSymbol(p, t, x0, r, bits);
    if ok {
      if good {
        left := Unstep(p, t, Coded(x0, bits)).value.1.bits;
      }
      ghost var mid := left;
      ok, s1, y1 := DecodeSymbol(p, t, x1, r, mid);
      if ok && good {
        left := Unstep(p, t, Coded(x1, mid)).value.1.bits;
      }
    }
  }

  lemma GlueNothing(r: Option<seq<byte>>)
    ensures GlueBytes([], r) == r
  {
    assert r.Some? ==> [] + r.value == r.value;
  }

  /** The pair loop of the decoder. */
  method DecodePairLoop(p: Params, t: Table, x0: nat, x1: nat, r: BitReader, k: nat, ghost bits0: Bits,
                        ghost good: bool)
    returns (out: Option<seq<byte>>)
    requires Built(p, t) && r.Valid() && Coded2Ok(p, Coded2(x0, x1, bits0))
    requires good ==> r.Pending() == Some(bits0)
    modifies r
    ensures out.Some? ==> |out.value| == 2 * k
    ensures good ==> out == DecodePairs(p, t, k, Coded2(x0, x1, bits0))
  {
    hide Unstep, Built, Pow2, PairDecodes, Coded2Ok;
    var a, b := x0, x1;
    ghost var bits := bits0;
    var dst := new byte[2 * k];
    ghost var whole := DecodePairs(p, t, k, Coded2(a, b, bits));
    GlueNothing(whole);
    var i := 0;
    while i < k
      invariant 0 <= i <= k && r.Valid() && Coded2Ok(p, Coded2(a, b, bits))
      invariant good ==> r.Pending() == Some(bits)
      invariant good ==> whole == GlueBytes(dst[..2 * i], DecodePairs(p, t, k - i, Coded2(a, b, bits)))
    {
      ghost var was, c := dst[..2 * i], Coded2(a, b, bits);
      var ok, s0, s1;
      ok, s0, s1, a, b, bits := DecodePair(p, t, a, b, r, bits, good);
      if !ok {
        return None;
      }
      dst[2 * i], dst[2 * i + 1] := s0, s1;
      assert dst[..2 * i + 2] == was + [s0, s1];
      i := i + 1;
      if good {
        GluePair(p, t, was, s0, s1, k - i, c, Coded2(a, b, bits));
      }
    }
    assert dst[..2 * k] == dst[..] == dst[..] + [];
    out := Some(dst[..]);
  }

  /** netc_tans_decode_x2 on a stream: both states are range-checked once. */
  method DecodeX2Stream(p: Params, t: Table, x0: nat, x1: nat, stream: seq<byte>, n: nat)
    returns (out: Option<seq<byte>>)
    requires Built(p, t)
    ensures out.Some? ==> |out.value| == n
    ensures OfBytes(stream).Some? ==> out == DecodedX2(p, t, x0, x1, stream, n)
    ensures n < 2 || !InRange(p, x0) || !InRange(p, x1) ==> out.None?
  {
    hide Unstep, Built, OfBytes, Pow2, DecodePairs;
    if n < 2 || !InRange(p, x0) || !InRange(p, x1) {
      return None;
    }
    var r := new BitReader(stream);
    ghost var good := OfBytes(stream).Some?;
    ghost var bits := if good then OfBytes(stream).value else EMPTY;
    EmptyValid();
    if n % 2 == 0 {
      out := DecodePairLoop(p, t, x0, x1, r, n / 2, bits, good);
      return;
    }
    ghost var c := Coded2(x0, x1, bits);
    var ok, first, y0 := DecodeSymbol(p, t, x0, r, bits);
    if !ok {
      return None;
    }
    if good {
      bits := Unstep(p, t, Coded(x0, bits)).value.1.bits;
    }
    var rest := DecodePairLoop(p, t, y0, x1, r, n / 2, bits, good);
    out := if rest.None? then None else Some([first] + rest.value);
  }

  lemma EmptyValid()
    ensures EMPTY.Valid()
  {
    Pow2Succ(0);
  }

  predicate InRange(p: Params, x: nat) {
    p.Size() <= x < 2 * p.Size()
  }

  ghost function DecodedX2(p: Params, t: Table, x0: nat, x1: nat, stream: seq<byte>, n: nat): (r: Option<seq<byte>>)
    requires Built(p, t)
    ensures r.Some? ==> |r.value| == n
  {
    if n < 2 || !InRange(p, x0) || !InRange(p, x1) || OfBytes(stream).None? then None
    else DecodeX2(p, t, n, Coded2(x0, x1, OfBytes(stream).value))
  }
}
