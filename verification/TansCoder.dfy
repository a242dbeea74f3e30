/** The tANS coders: single table, per-position tables (PCTX), per-position bigram tables and
    the 10-bit coder.  They share one step and differ only in the table used at each position,
    which a `Selector` captures. */
module TansCoder {
  import opened Machine
  import opened Bitstream
  import opened TansTable

  const BUCKETS: nat := 16
  const CLASSES: nat := 8

  /** netc_ctx_bucket: the context bucket of a byte offset. */
  function Bucket(offset: nat): (b: nat)
    ensures b < BUCKETS
  {
    if offset < 32 then offset / 8
    else if offset < 64 then 4 + (offset - 32) / 16
    else if offset < 128 then 6 + (offset - 64) / 32
    else if offset < 256 then 8 + (offset - 128) / 64
    else if offset < 384 then 10
    else if offset < 512 then 11
    else if offset < 1024 then 12
    else if offset < 4096 then 13
    else if offset < 16384 then 14
    else 15
  }

  /** netc_bigram_class: the trained class of the previous byte, or its two top bits. */
  function BigramClass(prev: byte, classMap: Option<seq<byte>>): (c: nat)
    requires classMap.Some? ==> |classMap.value| == 256
  {
    if classMap.Some? then classMap.value[prev] else prev / 64
  }

  datatype Selector =
    | Single(table: Table)
    | Pctx(tables: seq<Table>)
    | Bigram(bigram: seq<seq<Table>>, unigram: seq<Table>, classMap: Option<seq<byte>>)

  /** A table marked valid is the one its frequencies determine. */
  ghost predicate Built(p: Params, t: Table) {
    p.Valid() && FreqFits(p, t.freq) && t == TableOf(p, t.freq)
  }

  ghost predicate BuiltIfValid(p: Params, t: Table) {
    t.valid ==> Built(p, t)
  }

  ghost predicate TablesOk(p: Params, tables: seq<Table>) {
    |tables| == BUCKETS && forall b :: 0 <= b < BUCKETS ==> BuiltIfValid(p, tables[b])
  }

  ghost predicate BigramOk(p: Params, bigram: seq<seq<Table>>) {
    && |bigram| == BUCKETS
    && forall b :: 0 <= b < BUCKETS ==>
         |bigram[b]| == CLASSES && forall c :: 0 <= c < CLASSES ==> BuiltIfValid(p, bigram[b][c])
  }

  ghost predicate ClassMapOk(classMap: Option<seq<byte>>) {
    classMap.Some? ==>
      |classMap.value| == 256 && forall i :: 0 <= i < 256 ==> classMap.value[i] < CLASSES
  }

  ghost predicate SelectorOk(p: Params, sel: Selector) {
    && p.Valid()
    && match sel
       case Single(t) => BuiltIfValid(p, t)
       case Pctx(ts) => TablesOk(p, ts)
       case Bigram(bs, us, cm) => BigramOk(p, bs) && TablesOk(p, us) && ClassMapOk(cm)
  }

  /** The table for position `i` after byte `prev`; an untrained bigram table falls back to the
      unigram table of the bucket. */
  function Pick(ghost p: Params, sel: Selector, i: nat, prev: byte): (t: Table)
    requires SelectorOk(p, sel)
    ensures BuiltIfValid(p, t)
  {
    match sel
    case Single(t) => t
    case Pctx(ts) => ts[Bucket(i)]
    case Bigram(bs, us, cm) =>
      var t := bs[Bucket(i)][BigramClass(prev, cm)];
      if t.valid then t else us[Bucket(i)]
  }

  // ---------------------------------------------------------------- one symbol

  datatype Coded = Coded(state: nat, bits: Bits)

  ghost predicate CodedOk(p: Params, c: Coded) {
    p.Size() <= c.state < 2 * p.Size() && c.bits.Valid()
  }

  ghost function Step(p: Params, t: Table, s: byte, c: Coded): (r: Coded)
    requires Built(p, t) && t.freq[s] > 0 && CodedOk(p, c)
    ensures CodedOk(p, r)
    ensures r.bits.width >= c.bits.width
  {
    var e := t.encode[s];
    var nb := StepBits(e, c.state);
    StepInverse(p, t.freq, s, c.state);
    var i := e.cumul + Shr(c.state, nb) - e.freq;
    EntriesFit(p, t.freq, i);
    PopPush(c.bits, Low(c.state, nb), nb);
    Coded(t.encodeState[i], if nb > 0 then Push(c.bits, Low(c.state, nb), nb) else c.bits)
  }

  /** Every slot holds an entry whose base and bits stay inside the state range. */
  ghost function EntryAt(p: Params, t: Table, x: nat): (d: DecodeEntry)
    requires Built(p, t) && p.Size() <= x < 2 * p.Size()
    ensures p.Size() <= d.base && d.base + Pow2(d.nbBits) <= 2 * p.Size() && d.nbBits <= p.log
  {
    SpreadIsPermutation(p, x - p.Size());
    EntriesFit(p, t.freq, SpreadIndex(p, x - p.Size()));
    t.decode[x - p.Size()]
  }

  ghost function Unstep(p: Params, t: Table, c: Coded): (r: Option<(byte, Coded)>)
    requires Built(p, t) && CodedOk(p, c)
    ensures r.Some? ==> CodedOk(p, r.value.1)
  {
    UnstepEntry(EntryAt(p, t, c.state), c.bits)
  }

  function UnstepEntry(d: DecodeEntry, bits: Bits): (r: Option<(byte, Coded)>)
    requires bits.Valid()
    ensures r.Some? ==> d.base <= r.value.1.state < d.base + Pow2(d.nbBits) && r.value.1.bits.Valid()
  {
    if d.nbBits == 0 then Some((d.symbol, Coded(d.base, bits)))
    else if d.nbBits > bits.width then None
    else
      PopValid(bits, d.nbBits);
      Some((d.symbol, Coded(d.base + Top(bits, d.nbBits), Pop(bits, d.nbBits))))
  }

  /** Decoding the slot an encoding step reached returns the symbol and the state before it. */
  lemma UnstepStep(p: Params, t: Table, s: byte, c: Coded)
    requires Built(p, t) && t.freq[s] > 0 && CodedOk(p, c)
    ensures Unstep(p, t, Step(p, t, s, c)) == Some((s, c))
  {
    hide Shl, Shr, Low, FloorLog2, Slot, SpreadIndex, SymbolAt, DecodeEntryAt;
    var e := t.encode[s];
    var nb := StepBits(e, c.state);
    StepInverse(p, t.freq, s, c.state);
    var i := e.cumul + Shr(c.state, nb) - e.freq;
    SlotBound(p, i);
    SpreadIsPermutation(p, i);
    PopPush(c.bits, Low(c.state, nb), nb);
    LowZero(c.state);
  }

  lemma LowZero(x: nat)
    ensures Low(x, 0) == 0
  {
  }

  // ---------------------------------------------------------------- packets

  /** The tables at positions `i..` are built and contain the symbols there. */
  ghost predicate EncodableFrom(p: Params, sel: Selector, src: seq<byte>, i: nat)
    requires SelectorOk(p, sel)
  {
    forall k :: i <= k < |src| ==>
      Pick(p, sel, k, Before(src, k)).valid && Pick(p, sel, k, Before(src, k)).freq[src[k]] > 0
  }

  ghost predicate Encodable(p: Params, sel: Selector, src: seq<byte>)
    requires SelectorOk(p, sel)
  {
    EncodableFrom(p, sel, src, 0)
  }

  /** State and bits after coding `src[i..]` from right to left. */
  ghost function EncodeFrom(p: Params, sel: Selector, src: seq<byte>, i: nat, c: Coded): (r: Coded)
    requires SelectorOk(p, sel) && i <= |src| && EncodableFrom(p, sel, src, i) && CodedOk(p, c)
    ensures CodedOk(p, r)
    decreases |src| - i
  {
    if i == |src| then c
    else Step(p, Pick(p, sel, i, Before(src, i)), src[i], EncodeFrom(p, sel, src, i + 1, c))
  }

  /** Bytes decoded at positions `i..n`, left to right, each table chosen by the byte before. */
  ghost function DecodeFrom(p: Params, sel: Selector, i: nat, n: nat, prev: byte, c: Coded)
    : (r: Option<(seq<byte>, Coded)>)
    requires SelectorOk(p, sel) && i <= n && CodedOk(p, c)
    ensures r.Some? ==> |r.value.0| == n - i && CodedOk(p, r.value.1)
    decreases n - i
  {
    if i == n then Some(([], c))
    else
      var t := Pick(p, sel, i, prev);
      if !t.valid then None
      else
        var u := Unstep(p, t, c);
        if u.None? then None
        else
          var rest := DecodeFrom(p, sel, i + 1, n, u.value.0, u.value.1);
          if rest.None? then None else Some(([u.value.0] + rest.value.0, rest.value.1))
  }

  /** Every packet over the support of its tables comes back, and the decoder ends in the state
      and with the bits the encoder started from. */
  lemma {:induction false} RoundTripFrom(p: Params, sel: Selector, src: seq<byte>, i: nat, c: Coded)
    requires SelectorOk(p, sel) && i <= |src| && EncodableFrom(p, sel, src, i) && CodedOk(p, c)
    ensures DecodeFrom(p, sel, i, |src|, Before(src, i), EncodeFrom(p, sel, src, i, c)) == Some((src[i..], c))
    decreases |src| - i
  {
    hide Step, Unstep, Pick, SelectorOk, Built, CodedOk, Bucket, BigramClass;
    if i < |src| {
      UnstepStep(p, Pick(p, sel, i, Before(src, i)), src[i], EncodeFrom(p, sel, src, i + 1, c));
      RoundTripFrom(p, sel, src, i + 1, c);
      assert src[i..] == [src[i]] + src[i + 1..];
    } else {
      assert src[i..] == [];
    }
  }

  ghost function Start(p: Params): Coded {
    Coded(p.Size(), EMPTY)
  }

  /** What the encoder hands over: the final state and the flushed stream. */
  ghost function Encoded(p: Params, sel: Selector, src: seq<byte>): (r: (nat, seq<byte>))
    requires SelectorOk(p, sel) && Encodable(p, sel, src)
    ensures p.Size() <= r.0 < 2 * p.Size() && r.1 != []
  {
    Pow2Positive(p);
    var c := EncodeFrom(p, sel, src, 0, Start(p));
    (c.state, ToBytes(c.bits))
  }

  lemma Pow2Positive(p: Params)
    ensures CodedOk(p, Start(p))
  {
    Pow2Succ(0);
  }

  /** What the decoder makes of a state and a stream; a stream without sentinel is not covered. */
  ghost function Decoded(p: Params, sel: Selector, state: nat, stream: seq<byte>, n: nat): (r: Option<seq<byte>>)
    requires SelectorOk(p, sel)
    ensures r.Some? ==> |r.value| == n
  {
    if n == 0 || !(p.Size() <= state < 2 * p.Size()) || OfBytes(stream).None? then None
    else
      var r := DecodeFrom(p, sel, 0, n, 0, Coded(state, OfBytes(stream).value));
      if r.None? then None else Some(r.value.0)
  }

  /** Lossless coding through the byte buffer, for every selector: single table, PCTX, bigram
      PCTX with its unigram fallback, and 10-bit. */
  lemma RoundTrip(p: Params, sel: Selector, src: seq<byte>)
    requires SelectorOk(p, sel) && Encodable(p, sel, src) && src != []
    ensures var (state, stream) := Encoded(p, sel, src);
            Decoded(p, sel, state, stream, |src|) == Some(src)
  {
    Pow2Positive(p);
    var c := EncodeFrom(p, sel, src, 0, Start(p));
    OfBytesToBytes(c.bits);
    RoundTripFrom(p, sel, src, 0, Start(p));
    assert src[0..] == src;
  }

  lemma {:induction false} EncodeFromWidth(p: Params, sel: Selector, src: seq<byte>, i: nat, j: nat, c: Coded)
    requires SelectorOk(p, sel) && i <= j <= |src| && EncodableFrom(p, sel, src, i) && CodedOk(p, c)
    ensures EncodeFrom(p, sel, src, j, c).bits.width <= EncodeFrom(p, sel, src, i, c).bits.width
    decreases j - i
  {
    hide Step, Pick, SelectorOk, Built, CodedOk;
    if i < j {
      EncodeFromWidth(p, sel, src, i + 1, j, c);
    }
  }

  /** The bits the symbols from `i` on cost at most: for each, the logarithm of table size over frequency,
      rounded up. */
  ghost function CostFrom(p: Params, sel: Selector, src: seq<byte>, i: nat): (bits: nat)
    requires SelectorOk(p, sel) && i <= |src| && EncodableFrom(p, sel, src, i)
    decreases |src| - i
  {
    if i == |src| then 0
    else FlushBits(p, Pick(p, sel, i, Before(src, i)).freq[src[i]]) + CostFrom(p, sel, src, i + 1)
  }

  /** Every symbol costs its rounded logarithm or one bit less. */
  lemma {:induction false} WidthIsCost(p: Params, sel: Selector, src: seq<byte>, i: nat, c: Coded)
    requires SelectorOk(p, sel) && i <= |src| && EncodableFrom(p, sel, src, i) && CodedOk(p, c)
    ensures var w := EncodeFrom(p, sel, src, i, c).bits.width - c.bits.width;
            CostFrom(p, sel, src, i) - (|src| - i) <= w <= CostFrom(p, sel, src, i)
    decreases |src| - i
  {
    hide Step, Pick, SelectorOk, Built, FlushBits;
    if i < |src| {
      WidthIsCost(p, sel, src, i + 1, c);
      StepCost(p, Pick(p, sel, i, Before(src, i)), src[i], EncodeFrom(p, sel, src, i + 1, c));
    }
  }

  lemma StepCost(p: Params, t: Table, s: byte, c: Coded)
    requires Built(p, t) && t.freq[s] > 0 && CodedOk(p, c)
    ensures var w := Step(p, t, s, c).bits.width - c.bits.width;
            FlushBits(p, t.freq[s]) - 1 <= w <= FlushBits(p, t.freq[s])
  {
    hide Shl, Shr, Low, FloorLog2;
    StepInverse(p, t.freq, s, c.state);
  }

  /** The size of an encoding: the cost of its symbols in bytes, and a byte for the sentinel. */
  lemma EncodedSize(p: Params, sel: Selector, src: seq<byte>)
    requires SelectorOk(p, sel) && Encodable(p, sel, src)
    ensures |Encoded(p, sel, src).1| <= CostFrom(p, sel, src, 0) / 8 + 1
    ensures CostFrom(p, sel, src, 0) <= 8 * |Encoded(p, sel, src).1| + |src|
  {
    hide SelectorOk, EncodableFrom, EncodeFrom, CostFrom, LeBytes;
    Pow2Positive(p);
    WidthIsCost(p, sel, src, 0, Start(p));
  }

  /** Decoding ends where encoding began: in the lowest state, with no bits left. */
  lemma RoundTripEnds(p: Params, sel: Selector, src: seq<byte>)
    requires SelectorOk(p, sel) && Encodable(p, sel, src)
    ensures CodedOk(p, Coded(p.Size(), EMPTY))
    ensures DecodeFrom(p, sel, 0, |src|, 0, EncodeFrom(p, sel, src, 0, Coded(p.Size(), EMPTY)))
            == Some((src, Coded(p.Size(), EMPTY)))
  {
    hide SelectorOk, Step, Unstep, Pick;
    Pow2Positive(p);
    RoundTripFrom(p, sel, src, 0, Coded(p.Size(), EMPTY));
    assert src[0..] == src;
  }

  // ---------------------------------------------------------------- the coding loops

  /** tans_encode_step: flush the low bits of the state, then take the table transition. */
  method EncodeSymbol(p: Params, t: Table, s: byte, x: nat, w: BitWriter) returns (ok: bool, next: nat)
    requires Built(p, t) && t.freq[s] > 0 && p.Size() <= x < 2 * p.Size() && w.Valid()
    modifies w, w.buf
    ensures ok ==> w.Valid() && Coded(next, w.Content()) == Step(p, t, s, Coded(x, old(w.Content())))
    ensures 8 * w.buf.Length >= Step(p, t, s, Coded(x, old(w.Content()))).bits.width ==> ok
  {
    hide Shl, Shr, Low, FloorLog2, Slot, SpreadIndex, SymbolAt, DecodeEntryAt;
    var e := t.encode[s];
    StepInverse(p, t.freq, s, x);
    var nb := StepBits(e, x);
    var j := Shr(x, nb) - e.freq;
    if nb > 0 {
      ok := w.Write(Low(x, nb), nb);
      if !ok {
        return false, 0;
      }
    }
    ok, next := true, t.encodeState[e.cumul + j];
  }

  /** netc_tans_encode, _pctx, _pctx_bigram and _10: zero is the error return.  Only the 12-bit
      single-table coder leaves out the test for absent symbols, so its callers must not pass
      any. */
  method Encode(p: Params, sel: Selector, src: seq<byte>, w: BitWriter, initial: nat) returns (state: nat)
    requires SelectorOk(p, sel) && w.Valid() && initial < 2 * p.Size()
    requires sel.Single? && p == PARAMS_12 && sel.table.valid ==> Encodable(p, sel, src)
    modifies w, w.buf
    ensures state != 0 ==> src != [] && Encodable(p, sel, src) && w.Valid()
    ensures src != [] && Encodable(p, sel, src) ==>
              var c := EncodeFrom(p, sel, src, 0, EntryState(p, initial, old(w.Content())));
              && (state != 0 ==> Coded(state, w.Content()) == c)
              && (8 * w.buf.Length >= c.bits.width ==> state != 0)
  {
    hide Shl, Step, Pick, SelectorOk, Built, Bucket, BigramClass;
    if src == [] {
      return 0;
    }
    var x: nat := if initial < p.Size() then p.Size() else initial;
    ghost var c0 := EntryState(p, initial, w.Content());
    var i := |src|;
    while i > 0
      invariant 0 <= i <= |src| && w.Valid() && EncodableFrom(p, sel, src, i)
      invariant CodedOk(p, Coded(x, w.Content())) && Coded(x, w.Content()) == EncodeFrom(p, sel, src, i, c0)
    {
      i := i - 1;
      var t := Pick(p, sel, i, Before(src, i));
      if !t.valid {
        return 0;
      }
      BuiltParams(p, t);
      if t.freq[src[i]] == 0 {
        return 0;
      }
      var ok;
      ok, x := EncodeSymbol(p, t, src[i], x, w);
      if !ok {
        if Encodable(p, sel, src) {
          EncodeFromWidth(p, sel, src, 0, i, c0);
        }
        return 0;
      }
    }
    Pow2Succ(0);
    state := x;
  }

  ghost function EntryState(p: Params, initial: nat, bits: Bits): (c: Coded)
    requires initial < 2 * p.Size() && bits.Valid()
    ensures CodedOk(p, c)
  {
    Pow2Succ(0);
    Coded(if initial < p.Size() then p.Size() else initial, bits)
  }

  /** A decoded prefix followed by the decoding of the rest. */
  ghost function Glue(prefix: seq<byte>, r: Option<(seq<byte>, Coded)>): Option<(seq<byte>, Coded)> {
    if r.None? then None else Some((prefix + r.value.0, r.value.1))
  }

  lemma BuiltParams(p: Params, t: Table)
    requires Built(p, t)
    ensures p.Valid() && |t.freq| == SYMBOLS && |t.encode| == SYMBOLS && |t.decode| == p.Size()
  {
  }

  /** One symbol taken from a state: what the x2 decoder does twice per round. */
  method DecodeSymbol(p: Params, t: Table, x: nat, r: BitReader, ghost bits: Bits)
    returns (ok: bool, s: byte, next: nat)
    requires Built(p, t) && p.Size() <= x < 2 * p.Size() && r.Valid() && bits.Valid()
    modifies r
    ensures r.Valid() && (ok ==> p.Size() <= next < 2 * p.Size())
    ensures old(r.Pending()) == Some(bits) ==>
              var u := Unstep(p, t, Coded(x, bits));
              && (ok <==> u.Some?)
              && (ok ==> u.value.0 == s && u.value.1.state == next && r.Pending() == Some(u.value.1.bits))
  {
    hide Built, Pow2, SpreadIndex, EntryAt, Top, Pop, Shl, LeValue, Shr, Low;
    BuiltParams(p, t);
    var d := t.decode[x - p.Size()];
    EntryAtIs(p, t, x);
    assert d == EntryAt(p, t, x);
    var v := 0;
    ok := true;
    if d.nbBits > 0 {
      ok, v := r.Read(d.nbBits);
    }
    s, next := d.symbol, d.base + v;
  }

  lemma EntryAtIs(p: Params, t: Table, x: nat)
    requires Built(p, t) && p.Size() <= x < 2 * p.Size()
    ensures |t.decode| == p.Size() && EntryAt(p, t, x) == t.decode[x - p.Size()]
    ensures EntryAt(p, t, x).nbBits == 0 ==> Pow2(EntryAt(p, t, x).nbBits) == 1
  {
    Pow2Succ(0);
  }

  /** netc_tans_decode, _pctx, _pctx_bigram and _10.  The initial state is range-checked once; the
      loop keeps every later state in `[size, 2 * size)` on any stream, corrupt or not, so every
      table index is in bounds. */
  method Decode(p: Params, sel: Selector, r: BitReader, n: nat, initial: nat)
    returns (out: Option<seq<byte>>, last: nat)
    requires SelectorOk(p, sel) && r.Valid()
    modifies r
    ensures out.Some? ==> |out.value| == n && p.Size() <= last < 2 * p.Size()
    ensures n == 0 || !(p.Size() <= initial < 2 * p.Size()) ==> out.None?
    ensures old(r.Pending()).Some? && n > 0 && p.Size() <= initial < 2 * p.Size() ==>
              old(r.Pending()).value.Valid() &&
              var d := DecodeFrom(p, sel, 0, n, 0, Coded(initial, old(r.Pending()).value));
              out == if d.None? then None else Some(d.value.0)
  {
    hide Shl, Shr, Low, Step, Unstep, Pick, SelectorOk, Built, Bucket, BigramClass, LeValue, Pow2;
    last := 0;
    ghost var good := r.Pending().Some?;
    ghost var bits := if good then r.Pending().value else EMPTY;
    if good {
      r.PendingValid();
    } else {
      Pow2Succ(0);
    }
    if n == 0 || initial < p.Size() || initial >= 2 * p.Size() {
      return None, 0;
    }
    var x: nat := initial;
    var dst := new byte[n];
    ghost var whole := DecodeFrom(p, sel, 0, n, 0, Coded(x, bits));
    assert whole.Some? ==> [] + whole.value.0 == whole.value.0;
    for i := 0 to n
      invariant r.Valid() && CodedOk(p, Coded(x, bits))
      invariant good ==> r.Pending() == Some(bits)
      invariant good ==> var prev := if i == 0 then 0 else dst[i - 1];
                         whole == Glue(dst[..i], DecodeFrom(p, sel, i, n, prev, Coded(x, bits)))
    {
      var t := Pick(p, sel, i, if i > 0 then dst[i - 1] else 0);
      if !t.valid {
        return None, 0;
      }
      ghost var was := dst[..i];
      var ok, s;
      ghost var u := Unstep(p, t, Coded(x, bits));
      ok, s, x := DecodeSymbol(p, t, x, r, bits);
      if !ok {
        return None, 0;
      }
      dst[i] := s;
      assert dst[..i + 1] == was + [s];
      if good {
        bits := u.value.1.bits;
        GlueStep(was, s, DecodeFrom(p, sel, i + 1, n, s, Coded(x, bits)));
      }
    }
    assert dst[..n] == dst[..] == dst[..] + [];
    out, last := Some(dst[..]), x;
  }

  lemma GlueStep(prefix: seq<byte>, s: byte, rest: Option<(seq<byte>, Coded)>)
    ensures Glue(prefix, if rest.None? then None else Some(([s] + rest.value.0, rest.value.1)))
            == Glue(prefix + [s], rest)
  {
    if rest.Some? {
      assert prefix + ([s] + rest.value.0) == (prefix + [s]) + rest.value.0;
    }
  }

  /** Encode into a fresh buffer and flush: succeeds exactly when the packet is encodable and the
      stream fits the capacity. */
  method EncodeStream(p: Params, sel: Selector, src: seq<byte>, capacity: nat)
    returns (r: Option<(nat, seq<byte>)>)
    requires SelectorOk(p, sel)
    requires sel.Single? && p == PARAMS_12 && sel.table.valid ==> Encodable(p, sel, src)
    ensures r.Some? <==> src != [] && Encodable(p, sel, src) && |Encoded(p, sel, src).1| <= capacity
    ensures r.Some? ==> r.value == Encoded(p, sel, src)
  {
    hide Shl, Step, Pick, SelectorOk, EncodeFrom, LeBytes;
    Pow2Positive(p);
    var w := new BitWriter(capacity);
    var state := Encode(p, sel, src, w, p.Size());
    if state == 0 {
      return None;
    }
    var size := w.Flush();
    if size.None? {
      return None;
    }
    r := Some((state, w.buf[..size.value]));
  }

  method DecodeStream(p: Params, sel: Selector, state: nat, stream: seq<byte>, n: nat) returns (out: Option<seq<byte>>)
    requires SelectorOk(p, sel)
    ensures out.Some? ==> |out.value| == n
    ensures n == 0 || !(p.Size() <= state < 2 * p.Size()) ==> out.None?
    ensures OfBytes(stream).Some? ==> out == Decoded(p, sel, state, stream, n)
  {
    hide Shl, Step, Pick, SelectorOk, DecodeFrom, OfBytes;
    var r := new BitReader(stream);
    var last;
    out, last := Decode(p, sel, r, n, state);
  }
}
