/** One side of a connection: its configuration, the state both sides carry from packet to packet,
    and what a received payload means in a given state. */
module Connection {
  import opened Machine
  import opened TansTable
  import opened TansCoder
  import opened TansX2
  import opened Frequencies
  import opened Adaptive
  import opened Filters
  import opened RingHistory
  import opened Header
  import Lz77

  // ---------------------------------------------------------------- dictionary

  datatype Dict = Dict(version: byte, modelId: byte, dictFlags: byte, tables: seq<Table>, bigram: seq<seq<Table>>,
                       classMap: seq<byte>, lzp: Option<LzpTable>, checksum: nat)

  ghost predicate BigramRowOk(row: seq<Table>) {
    |row| == CLASSES && forall c :: 0 <= c < CLASSES ==> row[c].valid ==> FullTable(row[c])
  }

  /** A dictionary as training leaves it: every built table contains every byte value. */
  ghost predicate DictOk(d: Dict) {
    && FullTables(d.tables)
    && |d.bigram| == BUCKETS
    && (forall b :: 0 <= b < BUCKETS ==> BigramRowOk(d.bigram[b]))
    && ClassMapOk(Some(d.classMap))
    && (d.lzp.Some? ==> |d.lzp.value| == LZP_SIZE)
  }

  lemma DictShape(d: Dict)
    requires DictOk(d)
    ensures |d.bigram| == BUCKETS && |d.bigram[0]| == CLASSES && |d.classMap| == 256 && d.classMap[0] < CLASSES
  {
  }

  // ---------------------------------------------------------------- configuration and state

  /** `ringSize` is zero exactly for a context without history. */
  datatype Config = Config(dict: Option<Dict>, stateful: bool, delta: bool, bigram: bool, compact: bool,
                           fast: bool, adaptive: bool, ringSize: nat, arenaSize: nat)

  ghost predicate ConfigOk(cfg: Config) {
    && (cfg.dict.Some? ==> DictOk(cfg.dict.value))
    && (cfg.stateful <==> cfg.ringSize > 0)
    && (cfg.adaptive ==> cfg.stateful)
  }

  datatype Adapt = Adapt(counters: Counters, tables: seq<Table>, lzp: Option<LzpTable>, count: nat)

  datatype State = State(ring: Ring, prev: seq<byte>, prev2: seq<byte>, seqNo: byte, adapt: Option<Adapt>)

  ghost predicate AdaptOk(cfg: Config, a: Adapt) {
    && a.counters.Valid() && a.count < INTERVAL
    && (cfg.dict.Some? ==> FullTables(a.tables) && (a.lzp.Some? <==> cfg.dict.value.lzp.Some?))
    && (cfg.dict.None? ==> a.lzp.None?)
    && (a.lzp.Some? ==> |a.lzp.value| == LZP_SIZE)
  }

  ghost predicate StateOk(cfg: Config, st: State) {
    && st.ring.Valid() && |st.ring.data| == cfg.ringSize
    && (!cfg.stateful ==> st.prev == [])
    && (!cfg.adaptive ==> st.prev2 == [])
    && (st.adapt.Some? <==> cfg.adaptive)
    && (st.adapt.Some? ==> AdaptOk(cfg, st.adapt.value))
  }

  /** Dictionary predictions enter an adaptive table with confidence 4. */
  function BoostLzp(t: LzpTable): (r: LzpTable)
    ensures |r| == |t|
  {
    seq(|t|, i requires 0 <= i < |t| => if t[i].conf != 0 then t[i].(conf := 4) else t[i])
  }

  /** The adaptive state cloned from the dictionary. */
  function FreshAdapt(cfg: Config): (a: Adapt) {
    Adapt(NoCounts(),
          if cfg.dict.Some? then cfg.dict.value.tables else [],
          if cfg.dict.Some? && cfg.dict.value.lzp.Some? then Some(BoostLzp(cfg.dict.value.lzp.value)) else None,
          0)
  }

  /** netc_ctx_create, and what netc_ctx_reset returns to. */
  function Initial(cfg: Config): (st: State)
  {
    State(Ring(Zeros(cfg.ringSize), 0), [], [], 0, if cfg.adaptive then Some(FreshAdapt(cfg)) else None)
  }

  lemma InitialOk(cfg: Config)
    requires ConfigOk(cfg)
    ensures StateOk(cfg, Initial(cfg))
  {
  }

  /** netc_get_tables and netc_get_lzp_table. */
  function ActiveTables(cfg: Config, st: State): (ts: seq<Table>)
    requires cfg.dict.Some?
  {
    if st.adapt.Some? then st.adapt.value.tables else cfg.dict.value.tables
  }

  function ActiveLzp(cfg: Config, st: State): (t: Option<LzpTable>)
  {
    if st.adapt.Some? && st.adapt.value.lzp.Some? then st.adapt.value.lzp
    else if cfg.dict.Some? then cfg.dict.value.lzp
    else None
  }

  lemma ActiveOk(cfg: Config, st: State)
    requires ConfigOk(cfg) && StateOk(cfg, st)
    ensures cfg.dict.Some? ==> FullTables(ActiveTables(cfg, st))
    ensures ActiveLzp(cfg, st).Some? ==> |ActiveLzp(cfg, st).value| == LZP_SIZE && cfg.dict.Some?
  {
  }

  ghost function AdaptNext(cfg: Config, a: Adapt, data: seq<byte>): (r: Adapt)
    requires ConfigOk(cfg) && AdaptOk(cfg, a)
    ensures AdaptOk(cfg, r)
  {
    var c := CountBytes(a.counters, data);
    var due := a.count + 1 >= INTERVAL;
    Adapt(c,
          if due && cfg.dict.Some? then RebuiltTables(c, cfg.dict.value.tables) else a.tables,
          if a.lzp.Some? then Some(LzpLearn(a.lzp.value, data)) else None,
          if due then 0 else a.count + 1)
  }

  /** What both sides make of a transmitted packet: history, predictors, sequence number and
      adaptive models, all from the original bytes. */
  ghost function Advance(cfg: Config, st: State, data: seq<byte>): (r: State)
    requires ConfigOk(cfg) && StateOk(cfg, st)
    ensures StateOk(cfg, r)
  {
    State(Append(st.ring, data),
          if cfg.stateful then data else [],
          if cfg.adaptive then st.prev else [],
          (st.seqNo + 1) % 256,
          if st.adapt.Some? then Some(AdaptNext(cfg, st.adapt.value, data)) else None)
  }

  // ---------------------------------------------------------------- what a payload means

  /** select_tans_table and decomp_select_tbl at the start of a packet. */
  function SelectTable(d: Dict, tables: seq<Table>, bucket: nat, bigram: bool): (t: Table)
    requires |tables| == BUCKETS && bucket < BUCKETS
    requires |d.bigram| == BUCKETS && |d.bigram[bucket]| == CLASSES && |d.classMap| == 256 && d.classMap[0] < CLASSES
  {
    if bigram then
      var t := d.bigram[bucket][BigramClass(0, Some(d.classMap))];
      if t.valid then t else tables[bucket]
    else tables[bucket]
  }

  lemma SelectTableFull(d: Dict, tables: seq<Table>, bucket: nat, bigram: bool)
    requires DictOk(d) && FullTables(tables) && bucket < BUCKETS
    ensures |d.bigram[bucket]| == CLASSES && FullTable(SelectTable(d, tables, bucket, bigram))
  {
  }

  /** The single-table coder uses the table the per-position coder would use in that bucket after byte 0. */
  lemma SelectIsPick(d: Dict, tables: seq<Table>, i: nat, bigram: bool)
    requires DictOk(d) && FullTables(tables) && (bigram ==> |d.bigram[0]| == CLASSES && d.bigram[0][0].valid)
    ensures |d.bigram[0]| == CLASSES && |d.bigram[Bucket(i)]| == CLASSES
    ensures SelectorOk(PARAMS_12, PctxSelector(d, tables, bigram))
    ensures SelectTable(d, tables, Bucket(i), bigram) == Pick(PARAMS_12, PctxSelector(d, tables, bigram), i, 0)
  {
    hide FullTable, Bucket, SelectorOk;
    PctxSelectorOk(d, tables, bigram);
    SelectTableFull(d, tables, Bucket(i), bigram);
  }

  /** Single-table payload: one or two little-endian states, then the stream. */
  ghost function DecodeTans(t: Table, x2: bool, compact: bool, payload: seq<byte>, n: nat): (r: Option<seq<byte>>)
    requires FullTable(t)
    ensures r.Some? ==> |r.value| == n
  {
    var w := if compact then 2 else 4;
    if x2 then
      if |payload| < 2 * w then None
      else DecodedX2(PARAMS_12, t, LeValue(payload[..w]), LeValue(payload[w..2 * w]), payload[2 * w..], n)
    else
      if |payload| < w then None
      else Decoded(PARAMS_12, Single(t), LeValue(payload[..w]), payload[w..], n)
  }

  /** The selector of a per-position packet; the bigram flag needs trained bigram tables. */
  function PctxSelector(d: Dict, tables: seq<Table>, bigram: bool): (sel: Selector)
    requires |d.bigram| == BUCKETS && |d.bigram[0]| == CLASSES
  {
    if bigram && d.bigram[0][0].valid then Bigram(d.bigram, tables, Some(d.classMap)) else Pctx(tables)
  }

  lemma PctxSelectorOk(d: Dict, tables: seq<Table>, bigram: bool)
    requires DictOk(d) && FullTables(tables)
    ensures |d.bigram[0]| == CLASSES && SelectorOk(PARAMS_12, PctxSelector(d, tables, bigram))
  {
    hide FullTable;
    forall b | 0 <= b < BUCKETS
      ensures BuiltIfValid(PARAMS_12, tables[b])
    {
      FullTableBuilt(tables[b]);
    }
    forall b, c | 0 <= b < BUCKETS && 0 <= c < CLASSES
      ensures BuiltIfValid(PARAMS_12, d.bigram[b][c])
    {
      if d.bigram[b][c].valid {
        FullTableBuilt(d.bigram[b][c]);
      }
    }
  }

  lemma FullTableBuilt(t: Table)
    requires FullTable(t)
    ensures Built(PARAMS_12, t) && t.valid && PARAMS_12.Valid()
  {
  }

  ghost function DecodePctx(d: Dict, tables: seq<Table>, bigram: bool, compact: bool, payload: seq<byte>, n: nat)
    : (r: Option<seq<byte>>)
    requires DictOk(d) && FullTables(tables)
    ensures r.Some? ==> |r.value| == n
  {
    var w := if compact then 2 else 4;
    PctxSelectorOk(d, tables, bigram);
    if |payload| < w then None
    else Decoded(PARAMS_12, PctxSelector(d, tables, bigram), LeValue(payload[..w]), payload[w..], n)
  }

  lemma Params10Valid()
    ensures PARAMS_10.Valid() && PARAMS_10.Size() == TOTAL_10 && PARAMS_12.Valid() && PARAMS_12.Size() == TOTAL_12
  {
    Pow2Values();
  }

  /** Ten-bit payload: the receiver rescales the 12-bit table and refuses when that misses 1024. */
  ghost function DecodeTen(t: Table, payload: seq<byte>, n: nat): (r: Option<seq<byte>>)
    requires |t.freq| == SYMBOLS
    ensures r.Some? ==> |r.value| == n
  {
    var freq := Rescale(t.freq);
    Params10Valid();
    if |payload| < 2 || Sum(freq) != TOTAL_10 then None
    else
      Decoded(PARAMS_10, Single(TableOf(PARAMS_10, freq)), LeValue(payload[..2]), payload[2..], n)
  }

  /** A rescalable table codes every packet over its own symbols in ten bits; the others are refused
      by the table builder, on both sides. */
  lemma TenBitRoundTrip(t: Table, src: seq<byte>)
    requires |t.freq| == SYMBOLS && Sum(t.freq) == TOTAL_12 && src != []
    requires forall i :: 0 <= i < |src| ==> t.freq[src[i]] > 0
    ensures FreqFits(PARAMS_10, Rescale(t.freq)) <==> Rescalable(t.freq)
    ensures Rescalable(t.freq) ==>
              && PARAMS_10.Valid()
              && var sel := Single(TableOf(PARAMS_10, Rescale(t.freq)));
              && SelectorOk(PARAMS_10, sel) && Encodable(PARAMS_10, sel, src)
              && var e := Encoded(PARAMS_10, sel, src);
              DecodeTen(t, LeBytes(e.0, 2) + e.1, |src|) == Some(src)
    ensures !Rescalable(t.freq) ==> forall payload :: DecodeTen(t, payload, |src|).None?
  {
    hide Rescale, Rescalable, Encoded, Decoded, LeBytes, LeValue;
    Params10Valid();
    RescaleExact(t.freq);
    if Rescalable(t.freq) {
      var sel := Single(TableOf(PARAMS_10, Rescale(t.freq)));
      RoundTrip(PARAMS_10, sel, src);
      var e := Encoded(PARAMS_10, sel, src);
      StateBytes(e.0, 2, e.1);
    }
  }

  /** A state word in front of a stream is read back. */
  lemma StateBytes(state: nat, w: nat, rest: seq<byte>)
    requires state < 65536 && w >= 2
    ensures var s := LeBytes(state, w) + rest;
            LeValue(s[..w]) == state && s[w..] == rest
  {
    Pow2Values();
    Pow2Mono(16, 8 * w);
    LeValueOfBytes(state, w);
    var s := LeBytes(state, w) + rest;
    assert s[..w] == LeBytes(state, w);
  }

  /** decomp_delta_postpass: the reused RLE bit asks for order 2, which needs a second packet of
      the same size. */
  function Undelta(cfg: Config, st: State, f: Flags, bytes: seq<byte>): (r: seq<byte>)
    ensures |r| == |bytes|
  {
    if !f.delta || |st.prev| != |bytes| then bytes
    else DeltaDecode(f.rle && cfg.adaptive && |st.prev2| == |bytes|, st.prev2, st.prev, bytes)
  }

  /** The original bytes a payload stands for in state `st`: the switch of netc_decompress, without
      MREG packets and RLE passthrough, which no encoder here produces. */
  ghost function DecodeBody(cfg: Config, st: State, f: Flags, alg: byte, payload: seq<byte>, n: nat)
    : (r: Option<seq<byte>>)
    requires ConfigOk(cfg) && StateOk(cfg, st)
    ensures r.Some? ==> |r.value| == n
  {
    ActiveOk(cfg, st);
    var kind, bucket := alg % 16, alg / 16;
    if alg == ALG_PASSTHRU then
      if f.lz77 then
        var x := Lz77.Expand(Lz77.Plain, payload, n);
        if x.None? then None else Some(Undelta(cfg, st, f, x.value))
      else if f.rle || |payload| != n then None
      else Some(payload)
    else if alg == ALG_LZ77X then
      if cfg.ringSize == 0 then None
      else Lz77.Expand(Lz77.Cross(st.ring.data, st.ring.pos), payload, n)
    else if cfg.dict.None? then None
    else
      var d, tables, lzp := cfg.dict.value, ActiveTables(cfg, st), ActiveLzp(cfg, st);
      if kind == ALG_PCTX then
        var x := DecodePctx(d, tables, f.bigram, cfg.compact, payload, n);
        if x.None? then None
        else
          var y := if bucket != 0 && lzp.Some? then LzpUnfilter(lzp.value, x.value) else x.value;
          Some(Undelta(cfg, st, f, y))
      else if kind == ALG_TANS || kind == ALG_LZP then
        if f.mreg || (kind == ALG_LZP && lzp.None?) then None
        else
          SelectTableFull(d, tables, bucket, f.bigram);
          var x := DecodeTans(SelectTable(d, tables, bucket, f.bigram), f.x2, cfg.compact, payload, n);
          if x.None? then None
          else
            var y := if kind == ALG_LZP then LzpUnfilter(lzp.value, x.value) else x.value;
            Some(Undelta(cfg, st, f, y))
      else if kind == ALG_TANS_10 then
        assert FullTable(tables[bucket]);
        var x := DecodeTen(tables[bucket], payload, n);
        if x.None? then None else Some(Undelta(cfg, st, f, x.value))
      else None
  }

  /** What is refused: truncated headers and payloads, packets larger than the room, entropy-coded packets
      without a dictionary or with a foreign model, and history references without history. */
  lemma Refused(cfg: Config, st: State, pkt: seq<byte>, room: nat)
    requires ConfigOk(cfg) && StateOk(cfg, st)
    ensures |pkt| < (if cfg.compact then 2 else 8) ==> Received(cfg, st, pkt, room).None?
    ensures !cfg.compact && |pkt| >= 8 ==>
              var origSize, compSize := pkt[0] as int + 256 * pkt[1] as int, pkt[2] as int + 256 * pkt[3] as int;
              var entropy := !FlagsOf(pkt[4]).passthru && pkt[5] != ALG_LZ77X;
              && (origSize > room || 8 + compSize > |pkt| ==> Received(cfg, st, pkt, room).None?)
              && (cfg.dict.Some? && entropy && pkt[6] != cfg.dict.value.modelId ==> Received(cfg, st, pkt, room).None?)
              && (cfg.dict.None? && pkt[5] != ALG_PASSTHRU && pkt[5] != ALG_LZ77X ==>
                    Received(cfg, st, pkt, room).None?)
              && (cfg.ringSize == 0 && pkt[5] == ALG_LZ77X ==> Received(cfg, st, pkt, room).None?)
  {
    hide ConfigOk, StateOk, FlagsOf, DecodeTans, DecodePctx, DecodeTen, LzpUnfilter, Undelta, Lz77.Expand, TypeEntry;
  }

  /** The bytes netc_decompress returns for a packet, given room for `room` of them. */
  ghost function Received(cfg: Config, st: State, pkt: seq<byte>, room: nat): (r: Option<seq<byte>>)
    requires ConfigOk(cfg) && StateOk(cfg, st)
  {
    var model := if cfg.dict.Some? then cfg.dict.value.modelId else 0;
    var read := ReadHeader(cfg.compact, pkt, model, st.seqNo);
    if read.None? then None
    else
      var (h, at) := read.value;
      if h.origSize > room || at + h.compSize > |pkt| then None
      else if cfg.dict.Some? && !h.flags.passthru && h.alg != ALG_LZ77X && h.modelId != model then None
      else DecodeBody(cfg, st, h.flags, h.alg, pkt[at..at + h.compSize], h.origSize)
  }
}
