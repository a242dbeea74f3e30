/** The encoder's choice of codec for one packet: pre-filters, the tANS variants, LZ77 within and
    across packets, and passthrough (netc_compress and its helpers).

    Whatever the heuristics decide, every candidate carries the packet; the heuristics themselves
    (zero counts, symbol diversity, prefix similarity) are left nondeterministic. */
module Competition {
  import opened Machine
  import opened Bitstream
  import opened TansTable
  import opened TansCoder
  import opened TansX2
  import opened Frequencies
  import opened Adaptive
  import opened Filters
  import opened Header
  import opened Connection
  import Lz77
  import Simd

  // ---------------------------------------------------------------- tANS candidates

  /** `mode` is 0 for a single table, 2 for PCTX and 3 for bigram PCTX. */
  datatype TansOut = TansOut(payload: seq<byte>, mode: nat, x2: bool, bucket: nat)

  /** The dual-state payload: two state words and the shared stream. */
  ghost function X2Bytes(t: Table, src: seq<byte>, compact: bool): (r: seq<byte>)
    requires FullTable(t)
  {
    FullTableEncodes(t, src);
    FullTableBuilt(t);
    var w := if compact then 2 else 4;
    var c := EncodeX2(PARAMS_12, t, src);
    LeBytes(c.x0, w) + (LeBytes(c.x1, w) + ToBytes(c.bits))
  }

  /** Decoding the payload gives `src`; an odd dual-state payload is the dual-state encoding, which
      the decoder does not undo. */
  ghost predicate TansCarries(d: Dict, tables: seq<Table>, bigram: bool, compact: bool, src: seq<byte>, o: TansOut)
    requires DictOk(d) && FullTables(tables)
  {
    && o.bucket < BUCKETS && |o.payload| > 0
    && (o.mode == 0 || o.mode == 2 || o.mode == 3)
    && (o.x2 ==> o.mode == 0 && !bigram && |src| >= 256)
    && (o.mode == 3 ==> bigram)
    && if o.mode == 0 then
         SelectTableFull(d, tables, o.bucket, bigram);
         var t := SelectTable(d, tables, o.bucket, bigram);
         if o.x2 && |src| % 2 == 1 then o.payload == X2Bytes(t, src, compact)
         else DecodeTans(t, o.x2, compact, o.payload, |src|) == Some(src)
       else DecodePctx(d, tables, o.mode == 3, compact, o.payload, |src|) == Some(src)
  }

  lemma FullTableEncodes(t: Table, src: seq<byte>)
    requires FullTable(t)
    ensures SelectorOk(PARAMS_12, Single(t)) && Encodable(PARAMS_12, Single(t), src) && Supported(t, src)
  {
    Params10Valid();
  }

  /** The single-state payload: the state word and the stream. */
  ghost function SingleBytes(t: Table, src: seq<byte>, compact: bool): (r: seq<byte>)
    requires FullTable(t)
  {
    FullTableEncodes(t, src);
    var e := Encoded(PARAMS_12, Single(t), src);
    LeBytes(e.0, if compact then 2 else 4) + e.1
  }

  /** The single-table payload for a capacity, and whether it is dual-state. */
  ghost function SinglePayload(t: Table, src: seq<byte>, capacity: nat, allowX2: bool, compact: bool)
    : (r: Option<(seq<byte>, bool)>)
    requires FullTable(t)
  {
    if allowX2 && |src| >= 256 && |X2Bytes(t, src, compact)| <= capacity then Some((X2Bytes(t, src, compact), true))
    else if src != [] && |SingleBytes(t, src, compact)| <= capacity then Some((SingleBytes(t, src, compact), false))
    else None
  }

  /** Dual state is used whenever it is allowed, the packet has 256 bytes and the payload fits. */
  lemma DualStateFrom256(t: Table, src: seq<byte>, capacity: nat, compact: bool)
    requires FullTable(t) && |src| >= 256 && |X2Bytes(t, src, compact)| <= capacity
    ensures SinglePayload(t, src, capacity, true, compact) == Some((X2Bytes(t, src, compact), true))
  {
    hide FullTable;
  }

  /** try_tans_single_with_table: dual-state for 256 bytes and more unless suppressed, single-state
      otherwise or when dual-state does not fit. */
  method TrySingle(t: Table, src: seq<byte>, capacity: nat, allowX2: bool, compact: bool)
    returns (r: Option<(seq<byte>, bool)>)
    requires FullTable(t) && src != []
    ensures r == SinglePayload(t, src, capacity, allowX2, compact)
    ensures r.Some? ==>
              var (p, x2) := r.value;
              && 0 < |p| <= capacity
              && (x2 ==> allowX2 && |src| >= 256)
              && (x2 ==> p == X2Bytes(t, src, compact))
              && ((x2 && |src| % 2 == 1) || DecodeTans(t, x2, compact, p, |src|) == Some(src))
  {
    hide FullTable, Encoded, Decoded, EncodeX2, DecodedX2, Encodable, SelectorOk, Supported;
    hide LeValue, LeBytes, ToBytes, OfBytes;
    FullTableEncodes(t, src);
    FullTableBuilt(t);
    Params10Valid();
    var w := if compact then 2 else 4;
    if allowX2 && |src| >= 256 && capacity >= 2 * w {
      var e := EncodeX2Stream(PARAMS_12, t, src, capacity - 2 * w);
      if e.Some? {
        var (x0, x1, stream) := e.value;
        var p := LeBytes(x0, w) + (LeBytes(x1, w) + stream);
        if |src| % 2 == 0 {
          X2EvenPayload(t, src, compact);
        }
        return Some((p, true));
      }
    }
    if capacity < w {
      return None;
    }
    var e := EncodeStream(PARAMS_12, Single(t), src, capacity - w);
    if e.None? {
      return None;
    }
    var (state, stream) := e.value;
    StateBytes(state, w, stream);
    RoundTrip(PARAMS_12, Single(t), src);
    r := Some((LeBytes(state, w) + stream, false));
  }

  /** The receiver reads the states and the stream back, whatever the length. */
  lemma X2Payload(t: Table, src: seq<byte>, compact: bool)
    requires FullTable(t) && Supported(t, src) && |src| >= 2 && Built(PARAMS_12, t)
    ensures DecodeTans(t, true, compact, X2Bytes(t, src, compact), |src|)
            == DecodeX2(PARAMS_12, t, |src|, EncodeX2(PARAMS_12, t, src))
  {
    hide FullTable, Built, EncodeX2, Supported, LeValue, LeBytes, ToBytes, DecodeX2, OfBytes;
    Params10Valid();
    var w := if compact then 2 else 4;
    var c := EncodeX2(PARAMS_12, t, src);
    StateBytes(c.x1, w, ToBytes(c.bits));
    var tail := LeBytes(c.x1, w) + ToBytes(c.bits);
    StateBytes(c.x0, w, tail);
    var p := LeBytes(c.x0, w) + tail;
    assert p[w..2 * w] == tail[..w] && p[2 * w..] == tail[w..];
    OfBytesToBytes(c.bits);
  }

  lemma X2EvenPayload(t: Table, src: seq<byte>, compact: bool)
    requires FullTable(t) && |src| >= 2 && |src| % 2 == 0
    ensures DecodeTans(t, true, compact, X2Bytes(t, src, compact), |src|) == Some(src)
  {
    hide FullTable, Built, EncodeX2, Supported, X2Bytes, DecodeX2, DecodeTans, Encodable, SelectorOk;
    FullTableEncodes(t, src);
    FullTableBuilt(t);
    X2Payload(t, src, compact);
    EvenRoundTrip(PARAMS_12, t, src);
  }

  /** An odd dual-state payload decodes to bytes whose second one is the third of the input. */
  lemma X2OddPayload(t: Table, src: seq<byte>, compact: bool)
    requires FullTable(t) && |src| >= 3 && |src| % 2 == 1
    ensures var d := DecodeTans(t, true, compact, X2Bytes(t, src, compact), |src|);
            d.Some? ==> d.value[1] == src[2]
  {
    hide FullTable, Built, EncodeX2, Supported, X2Bytes, DecodeX2, DecodeTans, Encodable, SelectorOk;
    FullTableEncodes(t, src);
    FullTableBuilt(t);
    X2Payload(t, src, compact);
    OddDecodesThirdByte(PARAMS_12, t, src);
  }

  /** The size of a trial payload, if it fits the 520 bytes. */
  ghost function TrialSize(t: Table, src: seq<byte>, allowX2: bool, compact: bool): (r: Option<nat>)
    requires FullTable(t)
  {
    var p := SinglePayload(t, src, 520, allowX2, compact);
    if p.None? then None else Some(|p.value.0|)
  }

  predicate Beats(a: Option<nat>, b: Option<nat>) {
    a.Some? && (b.None? || a.value < b.value)
  }

  /** `best` is the first bucket below `n` with the smallest trial payload, if any trial fits. */
  ghost predicate BestOf(tables: seq<Table>, src: seq<byte>, n: nat, allowX2: bool, compact: bool, best: Option<nat>)
    requires FullTables(tables) && n <= BUCKETS
  {
    match best
    case None => forall b :: 0 <= b < n ==> TrialSize(tables[b], src, allowX2, compact).None?
    case Some(m) =>
      && m < n && TrialSize(tables[m], src, allowX2, compact).Some?
      && var least := TrialSize(tables[m], src, allowX2, compact);
         && (forall b :: 0 <= b < n ==> !Beats(TrialSize(tables[b], src, allowX2, compact), least))
         && forall b :: 0 <= b < m ==> Beats(least, TrialSize(tables[b], src, allowX2, compact))
  }

  lemma BestStart(tables: seq<Table>, src: seq<byte>, allowX2: bool, compact: bool)
    requires FullTables(tables)
    ensures BestOf(tables, src, 0, allowX2, compact, None)
  {
  }

  lemma BestNext(tables: seq<Table>, src: seq<byte>, n: nat, allowX2: bool, compact: bool, best: Option<nat>)
    requires FullTables(tables) && n < BUCKETS && BestOf(tables, src, n, allowX2, compact, best)
    ensures best.Some? ==> best.value < n
    ensures var a := TrialSize(tables[n], src, allowX2, compact);
            var b := if best.Some? then TrialSize(tables[best.value], src, allowX2, compact) else None;
            BestOf(tables, src, n + 1, allowX2, compact, if Beats(a, b) then Some(n) else best)
  {
    hide FullTable, TrialSize;
  }

  /** The bucket whose table codes a small packet best, by trial encoding into 520 bytes. */
  method BestBucket(tables: seq<Table>, src: seq<byte>, last: nat, allowX2: bool, compact: bool)
    returns (best: Option<nat>)
    requires FullTables(tables) && src != [] && last < BUCKETS
    ensures best.Some? ==> best.value <= last
    ensures BestOf(tables, src, last + 1, allowX2, compact, best)
  {
    hide FullTable, SinglePayload, DecodeTans, BestOf;
    BestStart(tables, src, allowX2, compact);
    var size := 0;
    best := None;
    for b := 0 to last + 1
      invariant BestOf(tables, src, b, allowX2, compact, best)
      invariant best.Some? ==> best.value < b && TrialSize(tables[best.value], src, allowX2, compact) == Some(size)
    {
      BestNext(tables, src, b, allowX2, compact, best);
      var r := TrySingle(tables[b], src, 520, allowX2, compact);
      if r.Some? && (best.None? || |r.value.0| < size) {
        best, size := Some(b), |r.value.0|;
      }
    }
  }

  function Region(p: Option<(seq<byte>, bool)>, bucket: nat): (r: Option<TansOut>) {
    if p.None? then None else Some(TansOut(p.value.0, 0, p.value.1, bucket))
  }

  /** The trial scan: small multi-bucket packets without bigrams. */
  predicate Scans(src: seq<byte>, bigram: bool) {
    !bigram && 0 < |src| <= 512 && Bucket(|src| - 1) > 0
  }

  /** try_tans_single_region: the payload of the best bucket, or of bucket 0. */
  method TrySingleRegion(d: Dict, tables: seq<Table>, src: seq<byte>, capacity: nat, bigram: bool, noX2: bool,
                         compact: bool)
    returns (r: Option<TansOut>)
    requires DictOk(d) && FullTables(tables) && src != []
    ensures r.Some? ==> r.value.mode == 0 && |r.value.payload| <= capacity
    ensures r.Some? ==> TansCarries(d, tables, bigram, compact, src, r.value)
    ensures r.Some? && noX2 ==> !r.value.x2
    ensures !Scans(src, bigram) ==>
              && FullTable(SelectTable(d, tables, 0, bigram))
              && r == Region(SinglePayload(SelectTable(d, tables, 0, bigram), src, capacity, !bigram && !noX2, compact),
                             0)
    ensures Scans(src, bigram) ==> exists best: Option<nat> ::
              && BestOf(tables, src, Bucket(|src| - 1) + 1, !noX2, compact, best)
              && r == if best.None? then None
                      else Region(SinglePayload(tables[best.value], src, capacity, !noX2, compact), best.value)
  {
    hide FullTable, DecodeTans, DecodePctx, SinglePayload, X2Bytes;
    var bucket := 0;
    if !bigram && |src| <= 512 && Bucket(|src| - 1) > 0 {
      var best := BestBucket(tables, src, Bucket(|src| - 1), !noX2, compact);
      if best.None? {
        return None;
      }
      bucket := best.value;
    }
    SelectTableFull(d, tables, bucket, bigram);
    var t := SelectTable(d, tables, bucket, bigram);
    var e := TrySingle(t, src, capacity, !bigram && !noX2, compact);
    if e.None? {
      return None;
    }
    r := Some(TansOut(e.value.0, 0, e.value.1, bucket));
  }

  /** The per-position payload, whatever its size. */
  ghost function PctxPayload(d: Dict, tables: seq<Table>, src: seq<byte>, bigram: bool, compact: bool)
    : (r: Option<seq<byte>>)
    requires DictOk(d) && FullTables(tables)
  {
    DictShape(d);
    PctxSelectorOk(d, tables, bigram);
    var sel := PctxSelector(d, tables, bigram);
    if src == [] || !Encodable(PARAMS_12, sel, src) then None
    else
      var e := Encoded(PARAMS_12, sel, src);
      Some(LeBytes(e.0, if compact then 2 else 4) + e.1)
  }

  /** A per-position encoding with its state prefix, when it fits. */
  method TryPctx(d: Dict, tables: seq<Table>, src: seq<byte>, capacity: nat, bigram: bool, compact: bool)
    returns (r: Option<seq<byte>>)
    requires DictOk(d) && FullTables(tables) && src != []
    ensures r.Some? ==> 0 < |r.value| <= capacity && DecodePctx(d, tables, bigram, compact, r.value, |src|) == Some(src)
    ensures var p := PctxPayload(d, tables, src, bigram, compact);
            r == if p.Some? && |p.value| <= capacity then p else None
  {
    hide FullTable, DictOk, FullTables, Encoded, Decoded, Encodable, SelectorOk, PctxSelector, LeValue, LeBytes;
    var w := if compact then 2 else 4;
    if capacity < w {
      return None;
    }
    Params10Valid();
    PctxSelectorOk(d, tables, bigram);
    DictShape(d);
    var sel := PctxSelector(d, tables, bigram);
    PctxNotSingle(d, tables, bigram);
    var e := EncodeStream(PARAMS_12, sel, src, capacity - w);
    if e.None? {
      return None;
    }
    var (state, stream) := e.value;
    StateBytes(state, w, stream);
    RoundTrip(PARAMS_12, sel, src);
    r := Some(LeBytes(state, w) + stream);
  }

  /** The bigram trial goes to a buffer of its own, after the state. */
  const BIGRAM_TRIAL: nat := 65599

  lemma PctxNotSingle(d: Dict, tables: seq<Table>, bigram: bool)
    requires |d.bigram| == BUCKETS && |d.bigram[0]| == CLASSES
    ensures !PctxSelector(d, tables, bigram).Single?
  {
  }

  lemma UntrainedBigrams(d: Dict, tables: seq<Table>, src: seq<byte>, compact: bool)
    requires DictOk(d) && FullTables(tables)
    requires |d.bigram| == BUCKETS && |d.bigram[0]| == CLASSES && !d.bigram[0][0].valid
    ensures PctxPayload(d, tables, src, true, compact) == PctxPayload(d, tables, src, false, compact)
  {
    hide DictOk, FullTables, Encoded, Encodable;
  }

  ghost predicate PctxFits(d: Dict, tables: seq<Table>, src: seq<byte>, compact: bool, capacity: nat)
    requires DictOk(d) && FullTables(tables)
  {
    var p := PctxPayload(d, tables, src, false, compact);
    p.Some? && |p.value| <= capacity
  }

  lemma SmallPayload(t: Table, src: seq<byte>, capacity: nat, allowX2: bool, compact: bool)
    requires FullTable(t) && 0 < |src| < 256
    ensures SinglePayload(t, src, capacity, allowX2, compact) ==
            if |SingleBytes(t, src, compact)| <= capacity then Some((SingleBytes(t, src, compact), false)) else None
  {
    hide FullTable;
  }

  /** A per-position payload that fits is not beaten by a larger result. */
  ghost predicate NoLarger(p: Option<seq<byte>>, capacity: nat, r: Option<TansOut>) {
    p.Some? && |p.value| <= capacity ==> r.Some? && |r.value.payload| <= |p.value|
  }

  /** try_tans_compress: a single table for single-bucket packets, otherwise PCTX, bigram PCTX when
      smaller, and for small unfiltered packets the best single table when smaller still. */
  method TryTans(d: Dict, tables: seq<Table>, src: seq<byte>, capacity: nat, bigram: bool, noX2: bool,
                 skipSr: bool, compact: bool)
    returns (r: Option<TansOut>)
    requires DictOk(d) && FullTables(tables)
    ensures r.Some? ==> src != [] && |r.value.payload| <= (if capacity > 520 then capacity else 520)
    ensures r.Some? ==> TansCarries(d, tables, bigram, compact, src, r.value)
    ensures r.Some? && noX2 ==> !r.value.x2
    ensures r.Some? && skipSr && r.value.mode == 0 ==> |src| <= 8
    ensures |src| > 8 ==> NoLarger(PctxPayload(d, tables, src, false, compact), capacity, r)
    ensures |src| > 8 && bigram && PctxFits(d, tables, src, compact, capacity) ==>
              NoLarger(PctxPayload(d, tables, src, true, compact), Min(capacity, BIGRAM_TRIAL), r)
    ensures 0 < |src| <= 8 ==>
              && FullTable(SelectTable(d, tables, 0, bigram))
              && NoLarger(Some(SingleBytes(SelectTable(d, tables, 0, bigram), src, compact)), capacity, r)
  {
    hide FullTable, DictOk, FullTables, DecodePctx, DecodeTans, PctxPayload, SinglePayload, SingleBytes, SelectTable;
    DictShape(d);
    if src == [] {
      return None;
    }
    if Bucket(|src| - 1) == 0 {
      r := TrySingleRegion(d, tables, src, capacity, bigram, noX2, compact);
      SelectTableFull(d, tables, 0, bigram);
      FullTablesSize(tables);
      SmallPayload(SelectTable(d, tables, 0, bigram), src, capacity, !bigram && !noX2, compact);
      return;
    }
    var uni := TryPctx(d, tables, src, capacity, false, compact);
    if uni.Some? {
      var out := TansOut(uni.value, 2, false, 0);
      if bigram && !d.bigram[0][0].valid {
        UntrainedBigrams(d, tables, src, compact);
      }
      if bigram && d.bigram[0][0].valid {
        var w := if compact then 2 else 4;
        var bi := TryPctx(d, tables, src, Min(capacity, w + BIGRAM_TRIAL), true, compact);
        if bi.Some? && |bi.value| < |uni.value| {
          out := TansOut(bi.value, 3, false, 0);
        }
      }
      if |src| <= 512 && !skipSr {
        var sr := TrySingleRegion(d, tables, src, 520, bigram, noX2, compact);
        if sr.Some? && |sr.value.payload| < |out.payload| {
          return sr;
        }
      }
      return Some(out);
    }
    if skipSr {
      return None;
    }
    r := TrySingleRegion(d, tables, src, capacity, bigram, noX2, compact);
  }

  /** The ten-bit payload: exists when the table is rescalable and the stream fits 134 bytes. */
  ghost function TenBytes(t: Table, src: seq<byte>): (r: Option<seq<byte>>)
    requires FullTable(t)
  {
    FreqFull(t);
    Params10Valid();
    var freq := Rescale(t.freq);
    if !FreqFits(PARAMS_10, freq) then None
    else
      var sel := Single(TableOf(PARAMS_10, freq));
      if src == [] || !Encodable(PARAMS_10, sel, src) then None
      else
        var e := Encoded(PARAMS_10, sel, src);
        if |e.1| > 134 then None else Some(LeBytes(e.0, 2) + e.1)
  }

  /** The ten-bit coder on a table rescaled for the purpose, into a buffer of 136 bytes. */
  method TryTen(t: Table, src: seq<byte>) returns (r: Option<seq<byte>>)
    requires FullTable(t) && src != []
    ensures r == TenBytes(t, src)
    ensures r.Some? ==> DecodeTen(t, r.value, |src|) == Some(src)
  {
    hide Encoded, Decoded, Encodable, LeValue, LeBytes, Rescale, Rescalable, TableOf;
    Params10Valid();
    FreqFull(t);
    var f := RescaleTable(t.freq);
    if f.None? {
      assert false;
    }
    RescaleExact(t.freq);
    var b := Build(PARAMS_10, f.value);
    if b.None? {
      return None;
    }
    TenSelector(b.value, f.value);
    var e := EncodeStream(PARAMS_10, Single(b.value), src, 134);
    if e.None? {
      return None;
    }
    var (state, stream) := e.value;
    StateBytes(state, 2, stream);
    RoundTrip(PARAMS_10, Single(b.value), src);
    r := Some(LeBytes(state, 2) + stream);
  }

  lemma FreqFull(t: Table)
    requires FullTable(t)
    ensures |t.freq| == SYMBOLS && Sum(t.freq) == TOTAL_12
  {
    Params10Valid();
  }

  lemma TenSelector(t: Table, freq: seq<nat>)
    requires PARAMS_10.Valid() && FreqFits(PARAMS_10, freq) && t == TableOf(PARAMS_10, freq)
    ensures SelectorOk(PARAMS_10, Single(t)) && PARAMS_10 != PARAMS_12
  {
  }

  // ---------------------------------------------------------------- whole-packet candidates

  /** A packet before its header is written. */
  datatype Candidate = Candidate(flags: Flags, alg: byte, payload: seq<byte>)

  /** Dual-state packets of odd length are the ones the decoder does not undo. */
  predicate OddX2(f: Flags, n: nat) {
    f.x2 && n % 2 == 1
  }

  /** How the bytes to be coded were obtained from the packet. */
  datatype Prefilter = Raw | Delta(order2: bool) | Lzp

  /** Order 2 is only chosen with two packets of this size behind that differ: with equal ones its
      residuals are those of order 1 and have no more zeros. */
  ghost predicate Order2State(cfg: Config, st: State, n: nat) {
    cfg.adaptive && cfg.delta && |st.prev| == |st.prev2| == n && st.prev != st.prev2
  }

  ghost predicate PrefilterOk(cfg: Config, st: State, n: nat, pre: Prefilter) {
    match pre
    case Raw => true
    case Delta(o2) => cfg.delta && |st.prev| == n && (o2 ==> Order2State(cfg, st, n))
    case Lzp => ActiveLzp(cfg, st).Some? && cfg.dict.Some?
  }

  function Filtered(cfg: Config, st: State, src: seq<byte>, pre: Prefilter): (r: seq<byte>)
    requires ConfigOk(cfg) && StateOk(cfg, st) && PrefilterOk(cfg, st, |src|, pre)
    ensures |r| == |src|
  {
    ActiveOk(cfg, st);
    match pre
    case Raw => src
    case Delta(o2) => DeltaEncode(o2, st.prev2, st.prev, src)
    case Lzp => LzpFilter(ActiveLzp(cfg, st).value, src)
  }

  function PrefilterFlags(pre: Prefilter): Flags {
    BASE.(delta := pre.Delta?, rle := pre.Delta? && pre.order2)
  }

  /** The candidate decodes to `src` on a receiver in the same state that learns its flags.  A
      dual-state one of odd length does so only if two bytes happen to be equal. */
  ghost predicate Carries(cfg: Config, st: State, src: seq<byte>, c: Candidate)
    requires ConfigOk(cfg) && StateOk(cfg, st)
  {
    && |c.payload| <= |src|
    && (cfg.compact ==> Emitted(c.flags, c.alg))
    && (c.flags.x2 ==> !c.flags.passthru && !c.flags.delta && |src| >= 256)
    && (c.flags.rle ==> c.flags.delta && Order2State(cfg, st, |src|))
    && var d := DecodeBody(cfg, st, c.flags, c.alg, c.payload, |src|);
       if OddX2(c.flags, |src|) then d == Some(src) ==> RepeatedByte(cfg, st, src, c.alg) else d == Some(src)
  }

  /** The second and third of the bytes that were coded are equal. */
  ghost predicate RepeatedByte(cfg: Config, st: State, src: seq<byte>, alg: byte)
    requires ConfigOk(cfg) && StateOk(cfg, st)
  {
    var pre := if alg % 16 == ALG_LZP then Lzp else Raw;
    |src| >= 3 && PrefilterOk(cfg, st, |src|, pre) && Filtered(cfg, st, src, pre)[1] == Filtered(cfg, st, src, pre)[2]
  }

  // ---------------------------------------------------------------- when the risky forms can occur

  /** The delta pre-pass runs: the previous packet had the same size. */
  predicate DeltaApplies(cfg: Config, before: nat, n: nat) {
    cfg.delta && before == n && n >= 8 && cfg.arenaSize >= n
  }

  predicate HasTable(cfg: Config) {
    cfg.dict.Some? && cfg.dict.value.lzp.Some?
  }

  /** The guards on the way to a dual-state packet of `n` bytes after one of `before` bytes. */
  predicate X2Possible(cfg: Config, before: nat, n: nat) {
    && cfg.dict.Some? && !cfg.bigram && n >= 256
    && if DeltaApplies(cfg, before, n) then !(cfg.compact && HasTable(cfg))
       else !cfg.fast && !(HasTable(cfg) && cfg.arenaSize >= n)
  }

  /** The guards on the way to order-2 residuals outside PCTX, after packets of `before2` and then
      `before` bytes. */
  predicate Order2Possible(cfg: Config, before: nat, before2: nat, n: nat) {
    cfg.adaptive && DeltaApplies(cfg, before, n) && before2 == n && (n == 8 || !HasTable(cfg))
  }

  /** The order-2 trial runs and has strictly more zeros. */
  ghost predicate Order2Wins(cfg: Config, st: State, src: seq<byte>) {
    && cfg.adaptive && DeltaApplies(cfg, |st.prev|, |src|) && |st.prev2| == |src|
    && Simd.Occurrences(DeltaEncode(true, st.prev2, st.prev, src), 0) >
       Simd.Occurrences(DeltaEncode(false, st.prev2, st.prev, src), 0)
  }

  /** Order 2 wins only over two packets that differ. */
  lemma Order2WinsState(cfg: Config, st: State, src: seq<byte>)
    requires Order2Wins(cfg, st, src)
    ensures Order2State(cfg, st, |src|)
  {
    hide DeltaEncode, Simd.Occurrences;
    if st.prev2 == st.prev {
      SameResiduals(st.prev, src);
      assert false;
    }
  }

  ghost predicate Guarded(cfg: Config, st: State, n: nat, c: Candidate) {
    && (c.flags.x2 ==> X2Possible(cfg, |st.prev|, n))
    && (!KeepsOrder2(c.flags, c.alg) ==> Order2Possible(cfg, |st.prev|, |st.prev2|, n))
  }

  /** The pre-filter the guards of the source lead to. */
  ghost predicate Prepared(cfg: Config, st: State, n: nat, pre: Prefilter) {
    && PrefilterOk(cfg, st, n, pre)
    && (pre.Delta? <==> DeltaApplies(cfg, |st.prev|, n))
    && (pre.Lzp? <==> !DeltaApplies(cfg, |st.prev|, n) && HasTable(cfg) && cfg.arenaSize >= n)
  }

  lemma ActiveTable(cfg: Config, st: State)
    requires ConfigOk(cfg) && StateOk(cfg, st)
    ensures ActiveLzp(cfg, st).Some? <==> HasTable(cfg)
  {
  }

  /** A tANS packet carries an order mark outside PCTX only when a single table coded residuals. */
  lemma TansGuarded(cfg: Config, st: State, n: nat, pre: Prefilter, o: TansOut)
    requires o.bucket < BUCKETS && PrefilterOk(cfg, st, n, pre)
    requires o.x2 ==> X2Possible(cfg, |st.prev|, n)
    requires pre.Delta? && o.mode < 2 ==> n == 8 && DeltaApplies(cfg, |st.prev|, n)
    ensures Guarded(cfg, st, n, TansCandidate(cfg, pre, o))
  {
  }

  /** Undoing the filter: what the receiver does after decoding. */
  lemma UndoFilter(cfg: Config, st: State, src: seq<byte>, pre: Prefilter, f: Flags)
    requires ConfigOk(cfg) && StateOk(cfg, st) && PrefilterOk(cfg, st, |src|, pre)
    requires f.delta == pre.Delta? && f.rle == (pre.Delta? && pre.order2)
    ensures var x := Filtered(cfg, st, src, pre);
            var y := if pre.Lzp? then LzpUnfilter(ActiveLzp(cfg, st).value, x) else x;
            Undelta(cfg, st, f, y) == src
  {
    hide DeltaEncode, DeltaDecode, LzpFilter, LzpUnfilter;
    ActiveOk(cfg, st);
    match pre
    case Raw =>
    case Delta(o2) =>
      DeltaRoundTrip(o2, st.prev2, st.prev, src);
      var x := Filtered(cfg, st, src, pre);
      if !o2 {
        Order1Ignores(st.prev2, [], st.prev, x);
      }
    case Lzp => LzpRoundTrip(ActiveLzp(cfg, st).value, src);
  }

  lemma Order1Ignores(a: seq<byte>, b: seq<byte>, prev: seq<byte>, x: seq<byte>)
    requires |prev| == |x|
    ensures DeltaDecode(false, a, prev, x) == DeltaDecode(false, b, prev, x)
  {
  }

  /** A tANS result on filtered bytes, with the flags and algorithm byte the encoder writes. */
  function TansCandidate(cfg: Config, pre: Prefilter, o: TansOut): (c: Candidate)
    requires o.bucket < BUCKETS
  {
    var f := PrefilterFlags(pre).(x2 := o.x2, bigram := o.mode == 3 || (o.mode <= 1 && cfg.bigram));
    var alg := if o.mode >= 2 then (if pre.Lzp? then ALG_PCTX + 16 else ALG_PCTX)
               else (if pre.Lzp? then ALG_LZP else ALG_TANS) + 16 * o.bucket;
    Candidate(f, alg, o.payload)
  }

  lemma TansCandidateCarries(cfg: Config, st: State, src: seq<byte>, pre: Prefilter, o: TansOut)
    requires ConfigOk(cfg) && StateOk(cfg, st) && PrefilterOk(cfg, st, |src|, pre) && cfg.dict.Some?
    requires FullTables(ActiveTables(cfg, st))
    requires TansCarries(cfg.dict.value, ActiveTables(cfg, st), cfg.bigram, cfg.compact, Filtered(cfg, st, src, pre), o)
    requires |o.payload| < |src| && (cfg.compact && pre.Lzp? ==> !o.x2) && (o.x2 ==> !pre.Delta?)
    ensures Carries(cfg, st, src, TansCandidate(cfg, pre, o))
  {
    hide DecodeTans, DecodePctx, DecodeTen, FullTable, FullTables, DictOk, Filtered, Undelta, LzpUnfilter;
    hide StateOk, ConfigOk, X2Bytes, Order2State, RepeatedByte;
    var c := TansCandidate(cfg, pre, o);
    UndoFilter(cfg, st, src, pre, c.flags);
    assert c.alg / 16 == (if o.mode >= 2 then (if pre.Lzp? then 1 else 0) else o.bucket);
    if o.x2 && |src| % 2 == 1 {
      OddCandidate(cfg, st, src, pre, o);
    }
  }

  /** If an odd dual-state packet is received as sent, the coded bytes repeat. */
  lemma OddCandidate(cfg: Config, st: State, src: seq<byte>, pre: Prefilter, o: TansOut)
    requires ConfigOk(cfg) && StateOk(cfg, st) && PrefilterOk(cfg, st, |src|, pre) && cfg.dict.Some?
    requires FullTables(ActiveTables(cfg, st)) && o.x2 && |src| % 2 == 1 && !pre.Delta?
    requires TansCarries(cfg.dict.value, ActiveTables(cfg, st), cfg.bigram, cfg.compact, Filtered(cfg, st, src, pre), o)
    ensures var c := TansCandidate(cfg, pre, o);
            DecodeBody(cfg, st, c.flags, c.alg, c.payload, |src|) == Some(src) ==> RepeatedByte(cfg, st, src, c.alg)
  {
    hide DecodeTans, DecodePctx, DecodeTen, FullTable, FullTables, DictOk, LzpUnfilter, LzpFilter;
    hide StateOk, ConfigOk, X2Bytes;
    ActiveOk(cfg, st);
    DictOf(cfg);
    DictShape(cfg.dict.value);
    var c, x := TansCandidate(cfg, pre, o), Filtered(cfg, st, src, pre);
    assert c.alg / 16 == o.bucket && c.alg % 16 == if pre.Lzp? then ALG_LZP else ALG_TANS;
    SelectTableFull(cfg.dict.value, ActiveTables(cfg, st), o.bucket, cfg.bigram);
    var t := SelectTable(cfg.dict.value, ActiveTables(cfg, st), o.bucket, cfg.bigram);
    X2OddPayload(t, x, cfg.compact);
    var d := DecodeTans(t, true, cfg.compact, o.payload, |src|);
    if d.Some? && pre.Lzp? && LzpUnfilter(ActiveLzp(cfg, st).value, d.value) == src {
      LzpRoundTrip(ActiveLzp(cfg, st).value, src);
      UnfilterInjective(ActiveLzp(cfg, st).value, d.value, x);
    }
  }

  lemma LzCandidateCarries(cfg: Config, st: State, src: seq<byte>, pre: Prefilter, lz: seq<byte>)
    requires ConfigOk(cfg) && StateOk(cfg, st) && PrefilterOk(cfg, st, |src|, pre) && !pre.Lzp?
    requires |lz| < |src| && Lz77.Expand(Lz77.Plain, lz, |src|) == Some(Filtered(cfg, st, src, pre))
    ensures Carries(cfg, st, src, LzCandidate(pre, lz))
  {
    hide Filtered, Undelta, StateOk, ConfigOk, Lz77.Expand, Order2State;
    UndoFilter(cfg, st, src, pre, LzCandidate(pre, lz).flags);
  }

  /** Within-packet LZ77 travels as passthrough with the LZ77 flag. */
  function LzCandidate(pre: Prefilter, lz: seq<byte>): Candidate {
    Candidate(PrefilterFlags(pre).(passthru := true, lz77 := true), ALG_PASSTHRU, lz)
  }

  /** There is history and room to look for it in a packet of `n` bytes. */
  predicate CrossTried(cfg: Config, st: State, n: nat) {
    cfg.ringSize > 0 && |st.prev| > 0 && n >= 64 && cfg.arenaSize >= n
  }

  ghost function CrossStream(cfg: Config, st: State, src: seq<byte>): (lz: seq<byte>)
    requires StateOk(cfg, st) && cfg.ringSize > 0
  {
    Lz77.Greedy(Lz77.Cross(st.ring.data, st.ring.pos), |st.prev|, src, 0, 0)
  }

  ghost function PlainStream(src: seq<byte>): (lz: seq<byte>) {
    Lz77.Greedy(Lz77.Plain, 0, src, 0, 0)
  }

  /** Cross-packet LZ77 on the raw bytes, tried when tANS leaves more than half of the packet, or when
      the packet looks repetitive.  It writes to the arena. */
  method TryCross(cfg: Config, st: State, src: seq<byte>, limit: nat, room: nat)
    returns (r: Option<Candidate>, usedArena: bool)
    requires ConfigOk(cfg) && StateOk(cfg, st)
    ensures r.Some? ==> |r.value.payload| < limit && Carries(cfg, st, src, r.value)
    ensures r.Some? ==> !r.value.flags.x2 && !r.value.flags.rle
    ensures r.Some? ==> r.value.alg == ALG_LZ77X
    ensures usedArena ==> |src| >= 64
    ensures r.None? && room >= |src| && limit <= |src| && limit * 2 > |src| && CrossTried(cfg, st, |src|) ==>
              limit <= |CrossStream(cfg, st, src)|
  {
    hide ConfigOk, Lz77.Expand, Lz77.Greedy;
    r, usedArena := None, false;
    if cfg.ringSize > 0 && |st.prev| > 0 && |src| >= 64 && cfg.arenaSize >= |src| {
      var repeats: bool := *;
      if limit * 2 > |src| || repeats {
        usedArena := true;
        var lz := Lz77.EncodeCross(src, st.ring.data, st.ring.pos, |st.prev|, cfg.arenaSize);
        if lz.Some? && |lz.value| < limit && |lz.value| <= room {
          r := Some(Candidate(BASE, ALG_LZ77X, lz.value));
        }
      }
    }
  }

  /** The ten-bit competition for small single-table packets in compact mode. */
  method TryTenCandidate(cfg: Config, st: State, src: seq<byte>, pre: Prefilter, bytes: seq<byte>, o: TansOut)
    returns (r: Option<Candidate>)
    requires ConfigOk(cfg) && StateOk(cfg, st) && cfg.dict.Some? && PrefilterOk(cfg, st, |src|, pre)
    requires o.bucket < BUCKETS && o.mode == 0 && !pre.Lzp? && !cfg.bigram && src != []
    requires bytes == Filtered(cfg, st, src, pre)
    ensures o.bucket < |ActiveTables(cfg, st)| && FullTable(ActiveTables(cfg, st)[o.bucket])
    ensures var p := TenBytes(ActiveTables(cfg, st)[o.bucket], bytes);
            && (r.Some? <==> p.Some? && |p.value| < |o.payload|)
            && (r.Some? ==> r.value.payload == p.value && r.value.alg == ALG_TANS_10 + 16 * o.bucket)
    ensures r.Some? && |o.payload| < |src| ==> Carries(cfg, st, src, r.value)
    ensures r.Some? ==> !r.value.flags.x2 && r.value.flags.rle == (pre.Delta? && pre.order2)
  {
    hide DecodeTen, DecodeTans, DecodePctx, FullTable, DictOk, Filtered, Undelta, ConfigOk, StateOk, Order2State;
    hide TenBytes;
    ActiveOk(cfg, st);
    var t := ActiveTables(cfg, st)[o.bucket];
    var p := TryTen(t, bytes);
    if p.None? || |p.value| >= |o.payload| {
      return None;
    }
    var c := Candidate(PrefilterFlags(pre), ALG_TANS_10 + 16 * o.bucket, p.value);
    UndoFilter(cfg, st, src, pre, c.flags);
    assert c.alg / 16 == o.bucket && c.alg % 16 == ALG_TANS_10;
    r := Some(c);
  }

  /** The tANS payload every attempt is measured against: PCTX, or the table of bucket 0 up to 8 bytes. */
  ghost function TansBytes(cfg: Config, st: State, src: seq<byte>, pre: Prefilter): (r: Option<seq<byte>>)
    requires ConfigOk(cfg) && StateOk(cfg, st) && PrefilterOk(cfg, st, |src|, pre) && cfg.dict.Some?
  {
    ActiveOk(cfg, st);
    DictShape(cfg.dict.value);
    var d, tables, bytes := cfg.dict.value, ActiveTables(cfg, st), Filtered(cfg, st, src, pre);
    SelectTableFull(d, tables, 0, cfg.bigram);
    if src == [] then None
    else if |src| > 8 then PctxPayload(d, tables, bytes, false, cfg.compact)
    else Some(SingleBytes(SelectTable(d, tables, 0, cfg.bigram), bytes, cfg.compact))
  }

  /** Sizes at which LZP always competes with delta. */
  predicate LzpTried(cfg: Config, n: nat) {
    n <= 256 && !cfg.fast
  }

  /** Delta against LZP for small packets: an LZP encoding replaces a larger delta encoding. */
  method PreferLzp(cfg: Config, st: State, src: seq<byte>, o: TansOut) returns (r: Option<TansOut>)
    requires ConfigOk(cfg) && StateOk(cfg, st) && cfg.dict.Some? && ActiveLzp(cfg, st).Some?
    requires FullTables(ActiveTables(cfg, st))
    ensures r.Some? ==> |r.value.payload| < |o.payload| && !r.value.x2
    ensures r.Some? ==> TansCarries(cfg.dict.value, ActiveTables(cfg, st), cfg.bigram, cfg.compact,
                                    Filtered(cfg, st, src, Lzp), r.value)
    ensures LzpTried(cfg, |src|) && PrefilterOk(cfg, st, |src|, Lzp) ==>
              var p := TansBytes(cfg, st, src, Lzp);
              p.Some? && |p.value| < |o.payload| && |p.value| <= 520 ==> r.Some? && |r.value.payload| <= |p.value|
  {
    hide LzpFilter, FullTables, DictOk, StateOk, DecodeTans, DecodePctx, X2Bytes, SelectTable, PctxPayload, SingleBytes;
    r := None;
    if |src| <= 512 && !cfg.fast && (|src| <= 256 || |o.payload| >= |src| / 2) {
      ActiveOk(cfg, st);
      var filtered := FilterLzp(ActiveLzp(cfg, st).value, src);
      var e := TryTans(cfg.dict.value, ActiveTables(cfg, st), filtered[..], 520, cfg.bigram, cfg.compact, true,
                       cfg.compact);
      if e.Some? && |e.value.payload| < |o.payload| {
        r := e;
      }
    }
  }

  /** Sizes at which LZ77 competes with tANS. */
  predicate LzTried(cfg: Config, n: nat) {
    n >= (if cfg.fast then 512 else 256) && cfg.arenaSize >= n
  }

  /** LZ77 against tANS: on the raw bytes into the arena when no delta is pending, otherwise on the
      order-1 residuals of small packets. */
  method TryLz(cfg: Config, st: State, src: seq<byte>, pre: Prefilter, bytes: seq<byte>, limit: nat, room: nat)
    returns (r: Option<Candidate>, usedArena: bool)
    requires ConfigOk(cfg) && StateOk(cfg, st) && PrefilterOk(cfg, st, |src|, pre)
    requires pre.Delta? ==> bytes == Filtered(cfg, st, src, pre)
    ensures r.Some? ==> |r.value.payload| < limit && Carries(cfg, st, src, r.value)
    ensures r.Some? ==> !r.value.flags.x2 && !r.value.flags.rle && r.value.flags.passthru
    ensures usedArena ==> !pre.Delta?
    ensures r.None? && room >= |src| && limit <= |src| && limit * 2 > |src| && !pre.Delta? && LzTried(cfg, |src|) ==>
              limit <= |PlainStream(src)|
  {
    hide Filtered, Lz77.Expand, Lz77.Greedy, ConfigOk, StateOk, Carries, DeltaEncode;
    r, usedArena := None, false;
    if |src| >= (if cfg.fast then 512 else 256) && limit * 2 > |src| {
      if !pre.Delta? && cfg.arenaSize >= |src| {
        usedArena := true;
        var lz := Lz77.Encode(src, cfg.arenaSize);
        if lz.Some? && |lz.value| < limit && |lz.value| <= room {
          RawFiltered(cfg, st, src);
          LzCandidateCarries(cfg, st, src, Raw, lz.value);
          r := Some(LzCandidate(Raw, lz.value));
        }
      } else if pre.Delta? && |src| <= 1024 && !pre.order2 {
        var repetitive: bool := *;
        if repetitive {
          var lz := Lz77.Encode(bytes, room);
          if lz.Some? && |lz.value| < limit {
            FilteredSize(cfg, st, src, pre);
            LzCandidateCarries(cfg, st, src, pre, lz.value);
            r := Some(LzCandidate(pre, lz.value));
          }
        }
      }
    }
  }

  lemma RawFiltered(cfg: Config, st: State, src: seq<byte>)
    requires ConfigOk(cfg) && StateOk(cfg, st)
    ensures PrefilterOk(cfg, st, |src|, Raw) && Filtered(cfg, st, src, Raw) == src
  {
  }

  lemma FilteredSize(cfg: Config, st: State, src: seq<byte>, pre: Prefilter)
    requires ConfigOk(cfg) && StateOk(cfg, st) && PrefilterOk(cfg, st, |src|, pre)
    ensures |Filtered(cfg, st, src, pre)| == |src|
  {
  }

  /** What a tANS result must be for the rest of the competition. */
  ghost predicate TansFit(cfg: Config, st: State, src: seq<byte>, pre: Prefilter, o: TansOut)
    requires ConfigOk(cfg) && StateOk(cfg, st)
  {
    && PrefilterOk(cfg, st, |src|, pre) && |o.payload| < |src| && o.bucket < BUCKETS
    && Carries(cfg, st, src, TansCandidate(cfg, pre, o)) && Guarded(cfg, st, |src|, TansCandidate(cfg, pre, o))
    && (pre.Delta? && o.mode == 0 ==> |src| == 8 && DeltaApplies(cfg, |st.prev|, |src|))
  }

  /** tANS on the filtered bytes, and on LZP-filtered ones instead of delta residuals when smaller. */
  method TansAttempt(cfg: Config, st: State, src: seq<byte>, pre0: Prefilter, bytes: seq<byte>, room: nat)
    returns (r: Option<(Prefilter, TansOut)>)
    requires ConfigOk(cfg) && StateOk(cfg, st) && cfg.dict.Some? && src != [] && room >= |src|
    requires Prepared(cfg, st, |src|, pre0) && bytes == Filtered(cfg, st, src, pre0)
    ensures r.Some? ==> TansFit(cfg, st, src, r.value.0, r.value.1)
    ensures r.Some? ==> r.value.0 == pre0 || (pre0.Delta? && r.value.0.Lzp?)
    ensures var p := TansBytes(cfg, st, src, pre0);
            p.Some? && |p.value| < |src| ==> r.Some? && |r.value.1.payload| <= |p.value|
    ensures r.Some? && pre0.Delta? && HasTable(cfg) && LzpTried(cfg, |src|) && PrefilterOk(cfg, st, |src|, Lzp) ==>
              var p := TansBytes(cfg, st, src, Lzp);
              p.Some? && |p.value| < |src| ==> |r.value.1.payload| <= |p.value|
  {
    hide PctxPayload, SingleBytes, SelectTable;
    hide Filtered, TansCarries, Carries, StateOk, ConfigOk, FullTables, DictOk, PrefilterOk, ActiveLzp, ActiveTables;
    hide Guarded;
    ActiveOk(cfg, st);
    ActiveTable(cfg, st);
    DictOf(cfg);
    FilteredSize(cfg, st, src, pre0);
    var d, tables := cfg.dict.value, ActiveTables(cfg, st);
    var pre := pre0;
    var t := TryTans(d, tables, bytes, room, cfg.bigram, pre.Lzp? && cfg.compact, !pre.Raw? || cfg.fast, cfg.compact);
    if t.None? || |t.value.payload| >= |src| {
      return None;
    }
    var o := t.value;
    X2Facts(d, tables, cfg.bigram, cfg.compact, bytes, o);
    if pre.Delta? && ActiveLzp(cfg, st).Some? {
      var l := PreferLzp(cfg, st, src, o);
      if l.Some? {
        o, pre := l.value, Lzp;
        LzpUsable(cfg, st, |src|);
      }
    }
    TansCandidateCarries(cfg, st, src, pre, o);
    TansBucket(d, tables, cfg.bigram, cfg.compact, Filtered(cfg, st, src, pre), o);
    TansGuarded(cfg, st, |src|, pre, o);
    r := Some((pre, o));
  }

  /** An attempt gives something at most as large as the tANS payload, if that is smaller than the packet. */
  ghost predicate AtMost(cfg: Config, st: State, src: seq<byte>, pre: Prefilter, r: Option<Candidate>)
    requires ConfigOk(cfg) && StateOk(cfg, st) && PrefilterOk(cfg, st, |src|, pre) && cfg.dict.Some?
  {
    var p := TansBytes(cfg, st, src, pre);
    p.Some? && |p.value| < |src| ==> r.Some? && |r.value.payload| <= |p.value|
  }

  predicate IsTans(c: Candidate) {
    !c.flags.passthru && c.alg != ALG_LZ77X
  }

  /** A tANS packet is at most half of the source, or no larger than cross-packet LZ77. */
  ghost predicate HalfOrHistory(cfg: Config, st: State, src: seq<byte>, c: Candidate)
    requires StateOk(cfg, st)
  {
    IsTans(c) && CrossTried(cfg, st, |src|) && 2 * |c.payload| > |src| ==> |c.payload| <= |CrossStream(cfg, st, src)|
  }

  /** A tANS packet is at most half of the source, or no larger than LZ77. */
  ghost predicate HalfOrPlain(cfg: Config, src: seq<byte>, c: Candidate) {
    IsTans(c) && LzTried(cfg, |src|) && 2 * |c.payload| > |src| ==> |c.payload| <= |PlainStream(src)|
  }

  /** The first attempt: tANS on the filtered bytes, then every competitor.  `arena` holds the
      filtered bytes when there was a filter; a competitor that uses it leaves anything there. */
  method FirstAttempt(cfg: Config, st: State, src: seq<byte>, pre0: Prefilter, arena0: seq<byte>, room: nat)
    returns (r: Option<Candidate>)
    requires ConfigOk(cfg) && StateOk(cfg, st) && cfg.dict.Some? && src != [] && room >= |src|
    requires Prepared(cfg, st, |src|, pre0)
    requires !pre0.Raw? ==> arena0 == Filtered(cfg, st, src, pre0)
    ensures r.Some? ==> |r.value.payload| < |src| && Carries(cfg, st, src, r.value)
    ensures r.Some? ==> Guarded(cfg, st, |src|, r.value)
    ensures AtMost(cfg, st, src, pre0, r)
    ensures r.Some? ==> HalfOrHistory(cfg, st, src, r.value)
    ensures r.Some? && !pre0.Delta? ==> HalfOrPlain(cfg, src, r.value)
  {
    hide Filtered, Carries, StateOk, ConfigOk, PrefilterOk, DeltaApplies, TansBytes, PlainStream, CrossStream, TenBytes;
    RawFiltered(cfg, st, src);
    var arena := arena0;
    var bytes := if pre0.Raw? then src else arena;
    var t := TansAttempt(cfg, st, src, pre0, bytes, room);
    if t.None? {
      return None;
    }
    var (pre, o) := t.value;
    var lz, used := TryLz(cfg, st, src, pre, bytes, |o.payload|, room);
    if lz.Some? {
      return lz;
    }
    var cross, usedAgain := TryCross(cfg, st, src, |o.payload|, room);
    if cross.Some? {
      return cross;
    }
    if used || usedAgain {
      arena := *;
    }
    if |src| <= 128 && o.mode == 0 && !pre.Lzp? && !cfg.bigram && cfg.compact {
      bytes := if pre.Raw? then src else arena;
      var ten := TryTenCandidate(cfg, st, src, pre, bytes, o);
      if ten.Some? {
        TenGuarded(cfg, st, src, pre, o, ten.value);
        return ten;
      }
    }
    r := Some(TansCandidate(cfg, pre, o));
  }

  lemma TenGuarded(cfg: Config, st: State, src: seq<byte>, pre: Prefilter, o: TansOut, c: Candidate)
    requires ConfigOk(cfg) && StateOk(cfg, st) && TansFit(cfg, st, src, pre, o) && o.mode == 0
    requires !c.flags.x2 && c.flags.rle == (pre.Delta? && pre.order2)
    ensures Guarded(cfg, st, |src|, c)
  {
    hide Carries, StateOk, ConfigOk, TansCandidate;
  }

  lemma X2Facts(d: Dict, tables: seq<Table>, bigram: bool, compact: bool, src: seq<byte>, o: TansOut)
    requires DictOk(d) && FullTables(tables) && TansCarries(d, tables, bigram, compact, src, o)
    ensures o.x2 ==> o.mode == 0 && !bigram && |src| >= 256
    ensures o.mode == 0 || o.mode >= 2
  {
  }

  lemma DictOf(cfg: Config)
    requires ConfigOk(cfg) && cfg.dict.Some?
    ensures DictOk(cfg.dict.value)
  {
  }

  lemma LzpUsable(cfg: Config, st: State, n: nat)
    requires cfg.dict.Some? && ActiveLzp(cfg, st).Some?
    ensures PrefilterOk(cfg, st, n, Lzp)
  {
  }

  lemma LzpFiltered(cfg: Config, st: State, src: seq<byte>)
    requires ConfigOk(cfg) && StateOk(cfg, st) && PrefilterOk(cfg, st, |src|, Lzp)
    ensures |ActiveLzp(cfg, st).value| == LZP_SIZE
    ensures Filtered(cfg, st, src, Lzp) == LzpFilter(ActiveLzp(cfg, st).value, src)
  {
    hide LzpFilter;
    ActiveOk(cfg, st);
  }

  lemma TansBucket(d: Dict, tables: seq<Table>, bigram: bool, compact: bool, src: seq<byte>, o: TansOut)
    requires DictOk(d) && FullTables(tables) && TansCarries(d, tables, bigram, compact, src, o)
    ensures o.bucket < BUCKETS
  {
  }

  /** The filter of the second attempt. */
  function RetryFilter(cfg: Config): (pre: Prefilter) {
    if HasTable(cfg) then Lzp else Raw
  }

  /** The second attempt, after delta residuals did not compress: tANS on the packet itself or on
      its LZP-filtered form. */
  method RawAttempt(cfg: Config, st: State, src: seq<byte>, room: nat) returns (r: Option<Candidate>)
    requires ConfigOk(cfg) && StateOk(cfg, st) && cfg.dict.Some? && src != [] && room >= |src|
    requires DeltaApplies(cfg, |st.prev|, |src|)
    ensures r.Some? ==> |r.value.payload| < |src| && Carries(cfg, st, src, r.value)
    ensures r.Some? ==> Guarded(cfg, st, |src|, r.value)
    ensures PrefilterOk(cfg, st, |src|, RetryFilter(cfg)) && AtMost(cfg, st, src, RetryFilter(cfg), r)
    ensures r.Some? ==> HalfOrHistory(cfg, st, src, r.value)
  {
    hide TansCarries, Carries, StateOk, ConfigOk, FullTables, DictOk, DeltaEncode, LzpFilter, ActiveLzp, ActiveTables;
    hide PctxPayload, SingleBytes, SelectTable, CrossStream, TenBytes, Filtered, Order2State;
    ActiveOk(cfg, st);
    RawFiltered(cfg, st, src);
    ActiveTable(cfg, st);
    DictOf(cfg);
    var d, tables := cfg.dict.value, ActiveTables(cfg, st);
    var pre, bytes := Raw, src;
    if ActiveLzp(cfg, st).Some? && cfg.arenaSize >= |src| {
      var filtered := FilterLzp(ActiveLzp(cfg, st).value, src);
      pre, bytes := Lzp, filtered[..];
      LzpUsable(cfg, st, |src|);
      LzpFiltered(cfg, st, src);
    }
    var t := TryTans(d, tables, bytes, room, cfg.bigram, pre.Lzp? && cfg.compact, false, cfg.compact);
    if t.None? || |t.value.payload| >= |src| {
      return None;
    }
    var o := t.value;
    X2Facts(d, tables, cfg.bigram, cfg.compact, bytes, o);
    TansCandidateCarries(cfg, st, src, pre, o);
    TansBucket(d, tables, cfg.bigram, cfg.compact, bytes, o);
    TansGuarded(cfg, st, |src|, pre, o);
    var cross, usedArena := TryCross(cfg, st, src, |o.payload|, room);
    if cross.Some? {
      return cross;
    }
    if |src| <= 128 && o.mode == 0 && !pre.Lzp? && !cfg.bigram && cfg.compact {
      var ten := TryTenCandidate(cfg, st, src, pre, src, o);
      if ten.Some? {
        return ten;
      }
    }
    r := Some(TansCandidate(cfg, pre, o));
  }

  /** What the last attempts give: the LZ77 stream of the packet or its residuals if it is smaller than
      the packet, else the cross-packet one if that is. */
  ghost function LzOutcome(cfg: Config, st: State, src: seq<byte>, pre: Prefilter): (r: Option<Candidate>)
    requires ConfigOk(cfg) && StateOk(cfg, st) && PrefilterOk(cfg, st, |src|, pre)
  {
    var kept := if pre.Delta? then pre else Raw;
    var lz := Lz77.Greedy(Lz77.Plain, 0, Filtered(cfg, st, src, kept), 0, 0);
    if |lz| < |src| then Some(LzCandidate(kept, lz))
    else if |src| >= 64 && cfg.ringSize > 0 && |st.prev| > 0 then
      var x := Lz77.Greedy(Lz77.Cross(st.ring.data, st.ring.pos), |st.prev|, src, 0, 0);
      if |x| < |src| then Some(Candidate(BASE, ALG_LZ77X, x)) else None
    else None
  }

  /** The last attempts before passthrough: LZ77 on the packet or its residuals, then on the
      history. */
  method LzAttempt(cfg: Config, st: State, src: seq<byte>, pre: Prefilter, arena: seq<byte>, room: nat)
    returns (r: Option<Candidate>)
    requires ConfigOk(cfg) && StateOk(cfg, st) && PrefilterOk(cfg, st, |src|, pre) && room >= |src|
    requires pre.Delta? ==> arena == Filtered(cfg, st, src, pre)
    requires pre.Delta? ==> DeltaApplies(cfg, |st.prev|, |src|) && !HasTable(cfg)
    ensures r == LzOutcome(cfg, st, src, pre)
    ensures r.Some? ==> !IsTans(r.value)
    ensures r.Some? ==> |r.value.payload| < |src| && Carries(cfg, st, src, r.value)
    ensures r.Some? ==> Guarded(cfg, st, |src|, r.value)
  {
    hide ConfigOk, Lz77.Expand, Lz77.Greedy, DeltaEncode, LzpFilter;
    FilteredSize(cfg, st, src, pre);
    RawFiltered(cfg, st, src);
    var kept := if pre.Delta? then pre else Raw;
    var lz := Lz77.Encode(if pre.Delta? then arena else src, room);
    if lz.Some? {
      LzCandidateCarries(cfg, st, src, kept, lz.value);
      return Some(LzCandidate(kept, lz.value));
    }
    r := None;
    if |src| >= 64 && cfg.ringSize > 0 && |st.prev| > 0 {
      var x := Lz77.EncodeCross(src, st.ring.data, st.ring.pos, |st.prev|, room);
      if x.Some? {
        r := Some(Candidate(BASE, ALG_LZ77X, x.value));
      }
    }
  }

  /** Order-1 residuals through the dispatch table: the block loops or the scalar loop. */
  method DispatchDelta(prev: seq<byte>, curr: seq<byte>) returns (residual: array<byte>)
    requires |prev| == |curr|
    ensures fresh(residual) && forall prev2 :: residual[..] == DeltaEncode(false, prev2, prev, curr)
  {
    hide Residual;
    var avx2: bool := *;
    if avx2 {
      residual := Simd.EncodeAvx2(prev, curr);
    } else {
      residual := EncodeDelta(false, [], prev, curr);
    }
    forall prev2
      ensures DeltaEncode(false, prev2, prev, curr) == DeltaEncode(false, [], prev, curr)
    {
    }
  }

  /** The order-2 trial: its residuals win with strictly more zeros. */
  method MoreZeros(o1: seq<byte>, o2: seq<byte>) returns (better: bool)
    requires |o1| == |o2|
    ensures better <==> Simd.Occurrences(o2, 0) > Simd.Occurrences(o1, 0)
  {
    hide Simd.Occurrences;
    Simd.OccurrencesNone();
    var zeros1, zeros2 := 0, 0;
    for i := 0 to |o1|
      invariant zeros1 == Simd.Occurrences(o1[..i], 0) && zeros2 == Simd.Occurrences(o2[..i], 0)
    {
      Simd.OccurrencesNext(o1, i, 0);
      Simd.OccurrencesNext(o2, i, 0);
      if o1[i] == 0 {
        zeros1 := zeros1 + 1;
      }
      if o2[i] == 0 {
        zeros2 := zeros2 + 1;
      }
    }
    assert o1[..|o1|] == o1 && o2[..|o2|] == o2;
    better := zeros2 > zeros1;
  }

  /** Delta when the previous packet has the same size, LZP when there is a table and no delta. */
  method Prepare(cfg: Config, st: State, src: seq<byte>) returns (pre: Prefilter, arena: seq<byte>)
    requires ConfigOk(cfg) && StateOk(cfg, st)
    ensures Prepared(cfg, st, |src|, pre)
    ensures pre == Delta(true) <==> Order2Wins(cfg, st, src)
    ensures !pre.Raw? ==> arena == Filtered(cfg, st, src, pre)
  {
    hide DeltaEncode, LzpFilter, Order2State, Simd.Occurrences;
    ActiveOk(cfg, st);
    ActiveTable(cfg, st);
    pre, arena := Raw, [];
    if cfg.delta && |st.prev| == |src| && |src| >= 8 && cfg.arenaSize >= |src| {
      var residual := DispatchDelta(st.prev, src);
      assert residual[..] == DeltaEncode(false, st.prev2, st.prev, src);
      pre, arena := Delta(false), residual[..];
      if cfg.adaptive && |st.prev2| == |src| {
        var residual2 := EncodeDelta(true, st.prev2, st.prev, src);
        var better := MoreZeros(residual[..], residual2[..]);
        if better {
          Order2WinsState(cfg, st, src);
          pre, arena := Delta(true), residual2[..];
        }
      }
    } else if cfg.dict.Some? && ActiveLzp(cfg, st).Some? && cfg.arenaSize >= |src| {
      var filtered := FilterLzp(ActiveLzp(cfg, st).value, src);
      pre, arena := Lzp, filtered[..];
    }
  }

  function Passthrough(src: seq<byte>): Candidate {
    Candidate(BASE.(passthru := true), ALG_PASSTHRU, src)
  }

  /** The pre-filter without a dictionary. */
  ghost function PlainPrefilter(cfg: Config, st: State, src: seq<byte>): (pre: Prefilter)
    ensures PrefilterOk(cfg, st, |src|, pre)
  {
    if Order2Wins(cfg, st, src) then
      Order2WinsState(cfg, st, src);
      Delta(true)
    else if DeltaApplies(cfg, |st.prev|, |src|) then Delta(false)
    else Raw
  }

  /** The candidate a context without a dictionary sends. */
  ghost function PlainChoice(cfg: Config, st: State, src: seq<byte>): (c: Candidate)
    requires ConfigOk(cfg) && StateOk(cfg, st)
  {
    var r := LzOutcome(cfg, st, src, PlainPrefilter(cfg, st, src));
    if r.Some? then r.value else Passthrough(src)
  }

  /** Order 2 wins and its residuals shrink under LZ77. */
  ghost predicate SendsOrder2(cfg: Config, st: State, src: seq<byte>) {
    && Order2Wins(cfg, st, src)
    && |Lz77.Greedy(Lz77.Plain, 0, DeltaEncode(true, st.prev2, st.prev, src), 0, 0)| < |src|
  }

  /** Without a dictionary, order-2 residuals outside PCTX are sent exactly when they win and shrink;
      dual state never is. */
  lemma PlainChoiceExact(cfg: Config, st: State, src: seq<byte>)
    requires ConfigOk(cfg) && StateOk(cfg, st)
    ensures var c := PlainChoice(cfg, st, src);
            !c.flags.x2 && (KeepsOrder2(c.flags, c.alg) <==> !SendsOrder2(cfg, st, src))
  {
    hide ConfigOk, StateOk, Order2Wins, DeltaApplies, DeltaEncode, Lz77.Greedy;
  }

  /** The pre-filter with a dictionary, and what is left of it after the second attempt. */
  ghost function DictPrefilter(cfg: Config, st: State, src: seq<byte>): (pre: Prefilter)
    requires ConfigOk(cfg) && StateOk(cfg, st)
    ensures PrefilterOk(cfg, st, |src|, pre)
  {
    ActiveTable(cfg, st);
    if Order2Wins(cfg, st, src) then
      Order2WinsState(cfg, st, src);
      Delta(true)
    else if DeltaApplies(cfg, |st.prev|, |src|) then Delta(false)
    else if HasTable(cfg) && cfg.arenaSize >= |src| then Lzp
    else Raw
  }

  ghost function LastPrefilter(cfg: Config, pre: Prefilter): (r: Prefilter) {
    if pre.Delta? && HasTable(cfg) then Raw else pre
  }

  /** What an encoder with a dictionary achieves: at most the size of the tANS payload of the filtered
      packet if that is smaller than the packet; a tANS packet above half of the packet only if LZ77 is
      no smaller; and passthrough only if no tANS payload and no LZ77 stream is smaller than the packet. */
  ghost predicate Compresses(cfg: Config, st: State, src: seq<byte>, c: Candidate)
    requires ConfigOk(cfg) && StateOk(cfg, st) && cfg.dict.Some?
  {
    var pre := DictPrefilter(cfg, st, src);
    && AtMost(cfg, st, src, pre, Some(c))
    && HalfOrHistory(cfg, st, src, c)
    && (!pre.Delta? ==> HalfOrPlain(cfg, src, c))
    && (|c.payload| == |src| ==> Incompressible(cfg, st, src))
  }

  ghost predicate Incompressible(cfg: Config, st: State, src: seq<byte>)
    requires ConfigOk(cfg) && StateOk(cfg, st) && cfg.dict.Some?
  {
    var pre := DictPrefilter(cfg, st, src);
    && (src != [] ==> !Smaller(TansBytes(cfg, st, src, pre), src))
    && (src != [] && pre.Delta? ==>
          PrefilterOk(cfg, st, |src|, RetryFilter(cfg)) && !Smaller(TansBytes(cfg, st, src, RetryFilter(cfg)), src))
    && PrefilterOk(cfg, st, |src|, LastPrefilter(cfg, pre))
    && LzOutcome(cfg, st, src, LastPrefilter(cfg, pre)).None?
  }

  predicate Smaller(p: Option<seq<byte>>, src: seq<byte>) {
    p.Some? && |p.value| < |src|
  }

  lemma NothingToSend(cfg: Config, st: State, src: seq<byte>)
    requires ConfigOk(cfg) && StateOk(cfg, st)
    ensures src == [] ==> LzOutcome(cfg, st, src, PlainPrefilter(cfg, st, src)).None?
    ensures src == [] ==> var pre := LastPrefilter(cfg, DictPrefilter(cfg, st, src));
              PrefilterOk(cfg, st, 0, pre) && LzOutcome(cfg, st, src, pre).None?
  {
    hide Lz77.Greedy, DeltaEncode;
  }

  /** The pre-filter is determined. */
  lemma PreparedIs(cfg: Config, st: State, src: seq<byte>, pre: Prefilter)
    requires ConfigOk(cfg) && StateOk(cfg, st) && Prepared(cfg, st, |src|, pre)
    requires pre == Delta(true) <==> Order2Wins(cfg, st, src)
    ensures cfg.dict.Some? ==> pre == DictPrefilter(cfg, st, src)
    ensures cfg.dict.None? ==> pre == PlainPrefilter(cfg, st, src)
  {
    hide ConfigOk, StateOk, DeltaEncode, PrefilterOk;
  }

  /** The two tANS stages.  When both fail, the last stage continues with the residuals only if the
      second one has not replaced them in the arena. */
  method TansStages(cfg: Config, st: State, src: seq<byte>, pre0: Prefilter, arena0: seq<byte>, room: nat)
    returns (r: Option<Candidate>, pre: Prefilter, arena: seq<byte>)
    requires ConfigOk(cfg) && StateOk(cfg, st) && cfg.dict.Some? && src != [] && room >= |src|
    requires Prepared(cfg, st, |src|, pre0)
    requires !pre0.Raw? ==> arena0 == Filtered(cfg, st, src, pre0)
    ensures r.Some? ==> |r.value.payload| < |src| && Carries(cfg, st, src, r.value)
    ensures r.Some? ==> Guarded(cfg, st, |src|, r.value)
    ensures r.Some? ==> HalfOrHistory(cfg, st, src, r.value) && (!pre0.Delta? ==> HalfOrPlain(cfg, src, r.value))
    ensures AtMost(cfg, st, src, pre0, r)
    ensures r.None? ==> !Smaller(TansBytes(cfg, st, src, pre0), src)
    ensures r.None? && pre0.Delta? ==>
              && PrefilterOk(cfg, st, |src|, RetryFilter(cfg))
              && !Smaller(TansBytes(cfg, st, src, RetryFilter(cfg)), src)
    ensures r.None? ==> pre == LastPrefilter(cfg, pre0) && PrefilterOk(cfg, st, |src|, pre)
    ensures r.None? && pre.Delta? ==> arena == Filtered(cfg, st, src, pre) && !HasTable(cfg)
  {
    hide Filtered, StateOk, ConfigOk, Carries, Guarded, TansBytes, CrossStream, PlainStream, DeltaApplies;
    ActiveTable(cfg, st);
    pre, arena := pre0, arena0;
    r := FirstAttempt(cfg, st, src, pre, arena, room);
    if r.Some? {
      return;
    }
    if pre.Delta? {
      r := RawAttempt(cfg, st, src, room);
      if r.Some? {
        return;
      }
      if ActiveLzp(cfg, st).Some? {
        // The raw attempt has replaced the residuals in the arena.
        pre, arena := Raw, *;
      }
    }
  }

  /** The codec competition of netc_compress for a payload area of `room` bytes: some candidate
      always results, never larger than the packet, and it carries the packet. */
  method Choose(cfg: Config, st: State, src: seq<byte>, room: nat) returns (c: Candidate)
    requires ConfigOk(cfg) && StateOk(cfg, st) && room >= |src|
    ensures Carries(cfg, st, src, c)
    ensures c.payload == src || |c.payload| < |src|
    ensures Guarded(cfg, st, |src|, c)
    ensures cfg.dict.None? ==> c == PlainChoice(cfg, st, src)
    ensures cfg.dict.Some? ==> Compresses(cfg, st, src, c)
  {
    hide Filtered, ConfigOk, StateOk, Order2Wins, DeltaApplies, LzOutcome, TansBytes, Carries, PlainPrefilter;
    hide CrossStream, PlainStream, DictPrefilter, PrefilterOk;
    NothingToSend(cfg, st, src);
    PassthroughCarries(cfg, st, src);
    var pre, arena := Prepare(cfg, st, src);
    PreparedIs(cfg, st, src, pre);
    var r: Option<Candidate> := None;
    if cfg.dict.Some? && |src| > 0 {
      r, pre, arena := TansStages(cfg, st, src, pre, arena, room);
      if r.Some? {
        return r.value;
      }
    }
    if |src| > 0 && room > 0 {
      r := LzAttempt(cfg, st, src, pre, arena, room);
      if r.Some? {
        return r.value;
      }
    }
    c := Passthrough(src);
  }

  lemma PassthroughCarries(cfg: Config, st: State, src: seq<byte>)
    requires ConfigOk(cfg) && StateOk(cfg, st)
    ensures Carries(cfg, st, src, Passthrough(src)) && Guarded(cfg, st, |src|, Passthrough(src))
  {
    hide ConfigOk, StateOk;
  }
}
