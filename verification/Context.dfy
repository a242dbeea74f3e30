/** A connection context: netc_ctx_create, netc_ctx_reset, netc_compress and netc_decompress. */
module Context {
  import opened Machine
  import opened Bitstream
  import opened TansTable
  import opened TansCoder
  import opened TansX2
  import opened Frequencies
  import opened Adaptive
  import opened Filters
  import opened RingHistory
  import opened Header
  import opened Connection
  import opened Competition
  import Lz77
  import Simd

  // ---------------------------------------------------------------- what was sent

  /** The receiver learns exactly the flags the encoder meant, and undoes the codec. */
  predicate Faithful(cfg: Config, h: PacketHeader) {
    !OddX2(h.flags, h.origSize) && (cfg.compact ==> KeepsOrder2(h.flags, h.alg))
  }

  /** What a caller can check beforehand, from the configuration and the sizes of this packet and
      the two before it: no guard of the encoder lets an odd dual-state packet or, with compact
      headers, order-2 residuals outside PCTX through. */
  predicate SafeToSend(cfg: Config, before: nat, before2: nat, n: nat) {
    && (n % 2 == 0 || !X2Possible(cfg, before, n))
    && !(cfg.compact && Order2Possible(cfg, before, before2, n))
  }

  function HeaderRoom(cfg: Config, n: nat): nat {
    if cfg.compact then CompactSize(n) else HEADER_SIZE
  }

  /** `pkt` is a packet for `src` with header `h`, sent in state `st`.  A receiver in the same state
      decodes it, and to `src` exactly when it is faithful; only an odd dual-state packet may be
      refused, or get through because two of the coded bytes are equal. */
  ghost predicate SentAs(cfg: Config, st: State, src: seq<byte>, pkt: seq<byte>, h: PacketHeader)
    requires ConfigOk(cfg) && StateOk(cfg, st)
  {
    && h.Valid() && h.origSize == |src|
    && |pkt| == HeaderRoom(cfg, |src|) + h.compSize && h.compSize <= |src|
    && (SafeToSend(cfg, |st.prev|, |st.prev2|, |src|) ==> Faithful(cfg, h))
    && (forall room :: room >= |src| ==> ReceivedAs(cfg, st, src, pkt, room, h))
    && (Faithful(cfg, h) ==> WireSeq(cfg, st, pkt) == st.seqNo)
  }

  ghost predicate ReceivedAs(cfg: Config, st: State, src: seq<byte>, pkt: seq<byte>, room: nat, h: PacketHeader)
    requires ConfigOk(cfg) && StateOk(cfg, st)
  {
    var got := Received(cfg, st, pkt, room);
    if OddX2(h.flags, |src|) then got == Some(src) ==> RepeatedByte(cfg, st, src, h.alg)
    else got.Some? && (got.value == src <==> Faithful(cfg, h))
  }

  /** The sequence number a receiver takes from the packet, or from its own state. */
  function WireSeq(cfg: Config, st: State, pkt: seq<byte>): byte {
    if !cfg.compact && |pkt| >= HEADER_SIZE then ReadLegacy(pkt).seqNo else st.seqNo
  }

  /** With a dictionary the packet is no larger than its header and the tANS payload of the filtered
      source, if that is smaller than the source; a tANS packet with more than half of the source is no
      larger than LZ77; and the source is sent as it is only if nothing makes it smaller. */
  ghost predicate SentSmall(cfg: Config, st: State, src: seq<byte>, pkt: seq<byte>, h: PacketHeader)
    requires ConfigOk(cfg) && StateOk(cfg, st) && cfg.dict.Some?
  {
    var room, pre := HeaderRoom(cfg, |src|), DictPrefilter(cfg, st, src);
    var p, tans := TansBytes(cfg, st, src, pre), !h.flags.passthru && h.alg != ALG_LZ77X;
    && (p.Some? && |p.value| < |src| ==> |pkt| <= room + |p.value|)
    && (tans && CrossTried(cfg, st, |src|) && 2 * (|pkt| - room) > |src| ==>
          |pkt| <= room + |CrossStream(cfg, st, src)|)
    && (tans && !pre.Delta? && LzTried(cfg, |src|) && 2 * (|pkt| - room) > |src| ==>
          |pkt| <= room + |PlainStream(src)|)
    && (|pkt| == room + |src| ==> Incompressible(cfg, st, src))
  }

  /** Without a dictionary the packet is determined: it is the choice of the competition, and it is
      unfaithful exactly when compact headers meet order-2 residuals that win and shrink. */
  ghost predicate SentPlain(cfg: Config, st: State, src: seq<byte>, pkt: seq<byte>, h: PacketHeader)
    requires ConfigOk(cfg) && StateOk(cfg, st)
  {
    var c := PlainChoice(cfg, st, src);
    && h == PacketHeader(|src|, |c.payload|, c.flags, c.alg, ModelId(cfg), st.seqNo) && h.Valid()
    && pkt == HeaderBytes(cfg.compact, h) + c.payload
    && !OddX2(h.flags, |src|) && (Faithful(cfg, h) <==> !(cfg.compact && SendsOrder2(cfg, st, src)))
  }

  lemma CandidateSent(cfg: Config, st: State, src: seq<byte>, c: Candidate, h: PacketHeader)
    requires ConfigOk(cfg) && StateOk(cfg, st) && |src| <= MAX_PACKET && Carries(cfg, st, src, c)
    requires Guarded(cfg, st, |src|, c)
    requires h == PacketHeader(|src|, |c.payload|, c.flags, c.alg, ModelId(cfg), st.seqNo)
    ensures SentAs(cfg, st, src, HeaderBytes(cfg.compact, h) + c.payload, h)
  {
    hide DecodeBody, HeaderBytes, ReadLegacy, Emitted, StateOk, ConfigOk, RepeatedByte, ReceivedAs, Order2State;
    hide X2Possible, Order2Possible;
    var head := HeaderBytes(cfg.compact, h);
    var pkt := head + c.payload;
    forall room | room >= |src|
      ensures ReceivedAs(cfg, st, src, pkt, room, h)
    {
      CandidateReceived(cfg, st, src, c, h, room);
    }
    if !cfg.compact {
      LegacyBytes(h);
      LegacyRoundTrip(h, c.payload);
    }
  }

  /** What arrives is the payload under the flags that survive the header. */
  lemma CandidateReceived(cfg: Config, st: State, src: seq<byte>, c: Candidate, h: PacketHeader, room: nat)
    requires ConfigOk(cfg) && StateOk(cfg, st) && |src| <= MAX_PACKET && Carries(cfg, st, src, c) && room >= |src|
    requires h == PacketHeader(|src|, |c.payload|, c.flags, c.alg, ModelId(cfg), st.seqNo)
    ensures ReceivedAs(cfg, st, src, HeaderBytes(cfg.compact, h) + c.payload, room, h)
  {
    hide DecodeBody, HeaderBytes, ReadLegacy, Emitted, StateOk, ConfigOk, RepeatedByte;
    var head := HeaderBytes(cfg.compact, h);
    var pkt := head + c.payload;
    HeaderRoundTrip(cfg.compact, h, c.payload);
    assert pkt[|head|..|head| + |c.payload|] == c.payload;
    if cfg.compact && !KeepsOrder2(c.flags, c.alg) {
      Order2Lost(cfg, st, src, c);
    }
  }

  /** Without its order mark an order-2 packet outside PCTX decodes to other bytes, always: it would
      decode to the packet exactly if the two packets before were equal, and then order 2 is not
      chosen. */
  lemma Order2Lost(cfg: Config, st: State, src: seq<byte>, c: Candidate)
    requires ConfigOk(cfg) && StateOk(cfg, st) && Carries(cfg, st, src, c)
    requires Emitted(c.flags, c.alg) && !KeepsOrder2(c.flags, c.alg)
    ensures !OddX2(c.flags, |src|)
    ensures var d := DecodeBody(cfg, st, c.flags.(rle := false), c.alg, c.payload, |src|);
            d.Some? && d.value != src
  {
    hide RepeatedByte, Lz77.Expand, DecodeTans, DecodePctx, DecodeTen, LzpUnfilter, DeltaDecode, StateOk, ConfigOk;
    hide SelectTable, ActiveTables, ActiveLzp, FullTables, FullTable, DictOk;
    ActiveOk(cfg, st);
    var coded := Residuals(cfg, st, c, |src|);
    MixedOrders(st.prev2, st.prev, coded);
  }

  lemma FullTableAt(tables: seq<Table>, bucket: nat)
    requires FullTables(tables) && bucket < BUCKETS
    ensures |tables| == BUCKETS && FullTable(tables[bucket])
  {
  }

  /** The residuals inside an order-2 packet outside PCTX: under either mark it decodes to them, up
      to the delta post-pass. */
  lemma Residuals(cfg: Config, st: State, c: Candidate, n: nat) returns (x: seq<byte>)
    requires ConfigOk(cfg) && StateOk(cfg, st) && Order2State(cfg, st, n)
    requires c.flags.rle && Emitted(c.flags, c.alg) && !KeepsOrder2(c.flags, c.alg)
    requires DecodeBody(cfg, st, c.flags, c.alg, c.payload, n).Some?
    ensures |x| == n
    ensures DecodeBody(cfg, st, c.flags, c.alg, c.payload, n) == Some(DeltaDecode(true, st.prev2, st.prev, x))
    ensures DecodeBody(cfg, st, c.flags.(rle := false), c.alg, c.payload, n) ==
            Some(DeltaDecode(false, st.prev2, st.prev, x))
  {
    hide Lz77.Expand, DecodeTans, DecodePctx, DecodeTen, LzpUnfilter, DeltaDecode, StateOk, ConfigOk;
    hide ActiveTables, ActiveLzp, FullTables, FullTable, DictOk;
    ActiveOk(cfg, st);
    var kind, bucket := c.alg % 16, c.alg / 16;
    if c.alg == ALG_PASSTHRU {
      x := Lz77.Expand(Lz77.Plain, c.payload, n).value;
    } else {
      var d, tables := cfg.dict.value, ActiveTables(cfg, st);
      DictOf(cfg);
      DictShape(d);
      if kind == ALG_TANS_10 {
        FullTableAt(tables, bucket);
        FreqFull(tables[bucket]);
        x := DecodeTen(tables[bucket], c.payload, n).value;
      } else {
        SelectTableFull(d, tables, bucket, c.flags.bigram);
        var t := SelectTable(d, tables, bucket, c.flags.bigram);
        x := DecodeTans(t, c.flags.x2, cfg.compact, c.payload, n).value;
        if kind == ALG_LZP {
          x := LzpUnfilter(ActiveLzp(cfg, st).value, x);
        }
      }
    }
  }

  lemma LegacyBytes(h: PacketHeader)
    requires h.Valid()
    ensures HeaderBytes(false, h) == WriteLegacy(h)
  {
  }

  function ModelId(cfg: Config): byte {
    if cfg.dict.Some? then cfg.dict.value.modelId else 0
  }

  // ---------------------------------------------------------------- decoding a payload

  /** The entropy-coded stream of a payload ends in a sentinel; other payloads have none. */
  ghost predicate StreamOk(cfg: Config, f: Flags, alg: byte, payload: seq<byte>) {
    var w := if alg % 16 == ALG_TANS_10 || cfg.compact then 2 else 4;
    var at := if f.x2 && (alg % 16 == ALG_TANS || alg % 16 == ALG_LZP) then 2 * w else w;
    alg == ALG_PASSTHRU || alg == ALG_LZ77X || |payload| < at || OfBytes(payload[at..]).Some?
  }

  method DecodeTansPayload(t: Table, x2: bool, compact: bool, payload: seq<byte>, n: nat) returns (r: Option<seq<byte>>)
    requires FullTable(t)
    ensures r.Some? ==> |r.value| == n
    ensures var at := (if compact then 2 else 4) * (if x2 then 2 else 1);
            |payload| < at || OfBytes(payload[at..]).Some? ==> r == DecodeTans(t, x2, compact, payload, n)
  {
    hide FullTable, Decoded, DecodedX2, LeValue, OfBytes;
    FullTableBuilt(t);
    var w := if compact then 2 else 4;
    if x2 {
      if |payload| < 2 * w {
        return None;
      }
      r := DecodeX2Stream(PARAMS_12, t, LeValue(payload[..w]), LeValue(payload[w..2 * w]), payload[2 * w..], n);
    } else {
      if |payload| < w {
        return None;
      }
      r := DecodeStream(PARAMS_12, Single(t), LeValue(payload[..w]), payload[w..], n);
    }
  }

  method DecodePctxPayload(d: Dict, tables: seq<Table>, bigram: bool, compact: bool, payload: seq<byte>, n: nat)
    returns (r: Option<seq<byte>>)
    requires DictOk(d) && FullTables(tables)
    ensures r.Some? ==> |r.value| == n
    ensures var w := if compact then 2 else 4;
            |payload| < w || OfBytes(payload[w..]).Some? ==> r == DecodePctx(d, tables, bigram, compact, payload, n)
  {
    hide FullTables, DictOk, Decoded, LeValue, OfBytes, PctxSelector, SelectorOk;
    PctxSelectorOk(d, tables, bigram);
    DictShape(d);
    var w := if compact then 2 else 4;
    if |payload| < w {
      return None;
    }
    r := DecodeStream(PARAMS_12, PctxSelector(d, tables, bigram), LeValue(payload[..w]), payload[w..], n);
  }

  method DecodeTenPayload(t: Table, payload: seq<byte>, n: nat) returns (r: Option<seq<byte>>)
    requires FullTable(t)
    ensures r.Some? ==> |r.value| == n
    ensures |t.freq| == SYMBOLS && (|payload| < 2 || OfBytes(payload[2..]).Some? ==> r == DecodeTen(t, payload, n))
  {
    hide FullTable, Decoded, LeValue, OfBytes, Rescale, TableOf;
    FreqFull(t);
    Params10Valid();
    if |payload| < 2 {
      return None;
    }
    var f := RescaleTable(t.freq);
    if f.None? {
      assert false;
    }
    var b := Build(PARAMS_10, f.value);
    if b.None? {
      return None;
    }
    TenSelector(b.value, f.value);
    r := DecodeStream(PARAMS_10, Single(b.value), LeValue(payload[..2]), payload[2..], n);
  }

  /** Order 1 through the dispatch table: the block loops or the scalar loop, in place. */
  method DispatchUndelta(prev: seq<byte>, buf: array<byte>)
    requires |prev| == buf.Length
    modifies buf
    ensures buf[..] == DeltaDecode(false, [], prev, old(buf[..]))
  {
    var avx2: bool := *;
    if avx2 {
      Simd.DecodeAvx2InPlace(prev, buf);
    } else {
      DecodeDeltaInPlace(false, [], prev, buf);
    }
  }

  /** The post-passes, in place: LZP inverse filter, then delta of the signalled order. */
  method PostPass(cfg: Config, st: State, f: Flags, lzp: Option<LzpTable>, bytes: seq<byte>) returns (r: seq<byte>)
    requires lzp.Some? ==> |lzp.value| == LZP_SIZE
    ensures r == Undelta(cfg, st, f, if lzp.Some? then LzpUnfilter(lzp.value, bytes) else bytes)
  {
    hide LzpUnfilter, DeltaDecode;
    var buf := new byte[|bytes|](i requires 0 <= i < |bytes| => bytes[i]);
    assert buf[..] == bytes;
    if lzp.Some? {
      UnfilterLzpInPlace(lzp.value, buf);
    }
    if f.delta && |st.prev| == |bytes| {
      if f.rle && cfg.adaptive && |st.prev2| == |bytes| {
        DecodeDeltaInPlace(true, st.prev2, st.prev, buf);
      } else {
        Order1Ignores(st.prev2, [], st.prev, buf[..]);
        DispatchUndelta(st.prev, buf);
      }
    }
    r := buf[..];
  }

  /** The switch of netc_decompress. */
  method DecodePayload(cfg: Config, st: State, f: Flags, alg: byte, payload: seq<byte>, n: nat)
    returns (r: Option<seq<byte>>)
    requires ConfigOk(cfg) && StateOk(cfg, st)
    ensures r.Some? ==> |r.value| == n
    ensures StreamOk(cfg, f, alg, payload) ==> r == DecodeBody(cfg, st, f, alg, payload, n)
  {
    hide DecodeTans, DecodePctx, DecodeTen, Undelta, LzpUnfilter, Lz77.Expand, FullTable, DictOk, OfBytes, AdaptOk;
    ActiveOk(cfg, st);
    var kind, bucket := alg % 16, alg / 16;
    var x: Option<seq<byte>>;
    var lzp: Option<LzpTable> := None;
    if alg == ALG_PASSTHRU {
      if f.lz77 {
        x := Lz77.Decode(Lz77.Plain, payload, n);
      } else if f.rle || |payload| != n {
        return None;
      } else {
        return Some(payload);
      }
    } else if alg == ALG_LZ77X {
      if cfg.ringSize == 0 {
        return None;
      }
      r := Lz77.Decode(Lz77.Cross(st.ring.data, st.ring.pos), payload, n);
      return;
    } else if cfg.dict.None? {
      return None;
    } else if kind == ALG_PCTX {
      x := DecodePctxPayload(cfg.dict.value, ActiveTables(cfg, st), f.bigram, cfg.compact, payload, n);
      lzp := if bucket != 0 then ActiveLzp(cfg, st) else None;
    } else if kind == ALG_TANS || kind == ALG_LZP {
      if f.mreg || (kind == ALG_LZP && ActiveLzp(cfg, st).None?) {
        return None;
      }
      SelectTableFull(cfg.dict.value, ActiveTables(cfg, st), bucket, f.bigram);
      DictShape(cfg.dict.value);
      var t := SelectTable(cfg.dict.value, ActiveTables(cfg, st), bucket, f.bigram);
      x := DecodeTansPayload(t, f.x2, cfg.compact, payload, n);
      lzp := if kind == ALG_LZP then ActiveLzp(cfg, st) else None;
    } else if kind == ALG_TANS_10 {
      x := DecodeTenPayload(ActiveTables(cfg, st)[bucket], payload, n);
    } else {
      return None;
    }
    if x.None? {
      return None;
    }
    var y := PostPass(cfg, st, f, lzp, x.value);
    r := Some(y);
  }

  // ---------------------------------------------------------------- the context object

  class Endpoint {
    const cfg: Config
    const ring: RingBuffer
    var prev: seq<byte>
    var prev2: seq<byte>
    var seqNo: byte
    var adapt: Option<Adapt>

    ghost predicate Valid()
      reads this, ring, ring.data
    {
      ring.Valid() && ConfigOk(cfg) && StateOk(cfg, View())
    }

    function View(): (st: State)
      reads this, ring, ring.data
      requires ring.Valid()
    {
      State(Ring(ring.data[..], ring.pos), prev, prev2, seqNo, adapt)
    }

    constructor (config: Config)
      requires ConfigOk(config)
      ensures Valid() && cfg == config && View() == Initial(config)
      ensures fresh(ring) && fresh(ring.data)
    {
      cfg := config;
      ring := new RingBuffer(config.ringSize);
      prev, prev2, seqNo := [], [], 0;
      adapt := if config.adaptive then Some(FreshAdapt(config)) else None;
      new;
      InitialOk(config);
    }

    /** netc_ctx_reset: back to the created state. */
    method Reset()
      requires Valid()
      modifies this, ring, ring.data
      ensures Valid() && View() == Initial(cfg)
    {
      ring.Reset();
      prev, prev2, seqNo := [], [], 0;
      adapt := if cfg.adaptive then Some(FreshAdapt(cfg)) else None;
      InitialOk(cfg);
    }

    /** The bookkeeping both sides run on the original bytes after every packet. */
    method Remember(data: seq<byte>)
      requires Valid()
      modifies this, ring, ring.data
      ensures Valid() && View() == Advance(cfg, old(View()), data)
    {
      hide Append, RebuiltTables, LzpLearn, CountBytes, FullTables, DictOk;
      ghost var was := View();
      ring.AppendBytes(data);
      if cfg.stateful {
        if cfg.adaptive {
          prev2 := prev;
        }
        prev := data;
      }
      seqNo := (seqNo + 1) % 256;
      if adapt.Some? {
        var a := AdaptToPacket(cfg, adapt.value, data);
        adapt := Some(a);
      }
      assert View() == Advance(cfg, was, data);
    }

    /** netc_compress.  A packet over the size limit is refused and changes nothing; any other is
        sent, never larger than the packet plus its header, and the state advances by it. */
    method Compress(src: seq<byte>, capacity: nat) returns (pkt: Option<seq<byte>>, ghost h: PacketHeader)
      requires Valid() && capacity >= |src| + HEADER_SIZE
      modifies this, ring, ring.data
      ensures Valid()
      ensures pkt.Some? <==> |src| <= MAX_PACKET
      ensures pkt.None? ==> View() == old(View())
      ensures pkt.Some? ==>
                |pkt.value| <= |src| + (if !cfg.compact then 8 else if |src| <= 127 then 2 else 4) <= capacity
      ensures pkt.Some? ==> SentAs(cfg, old(View()), src, pkt.value, h)
      ensures pkt.Some? ==> View() == Advance(cfg, old(View()), src)
      ensures pkt.Some? && cfg.dict.None? ==> SentPlain(cfg, old(View()), src, pkt.value, h)
      ensures pkt.Some? && cfg.dict.Some? ==> SentSmall(cfg, old(View()), src, pkt.value, h)
    {
      hide StateOk, ConfigOk, Received, HeaderBytes, Advance, Carries, PlainChoice, SendsOrder2, Incompressible;
      hide TansBytes, CrossStream, PlainStream, DictPrefilter;
      h := PacketHeader(0, 0, BASE, 0, 0, 0);
      if |src| > MAX_PACKET {
        return None, h;
      }
      var st := View();
      var c := Choose(cfg, st, src, capacity - HeaderRoom(cfg, |src|));
      var header := PacketHeader(|src|, |c.payload|, c.flags, c.alg, ModelId(cfg), seqNo);
      CandidateSent(cfg, st, src, c, header);
      if cfg.dict.None? {
        PlainChoiceExact(cfg, st, src);
      }
      pkt, h := Some(HeaderBytes(cfg.compact, header) + c.payload), header;
      Remember(src);
    }

    /** netc_decompress into a buffer of `room` bytes.  On failure the state is unchanged; on success
        it advances by the decoded bytes from the sequence number of the packet. */
    method Decompress(pkt: seq<byte>, room: nat) returns (out: Option<seq<byte>>)
      requires Valid()
      modifies this, ring, ring.data
      ensures Valid()
      ensures Received(cfg, old(View()), pkt, room).Some? ==> out == Received(cfg, old(View()), pkt, room)
      ensures Terminated(cfg, old(View()), pkt) ==> out == Received(cfg, old(View()), pkt, room)
      ensures out.Some? ==> |out.value| <= room
      ensures out.None? ==> View() == old(View())
      ensures out.Some? ==> View() == AfterReceipt(cfg, old(View()), pkt, out.value)
    {
      hide StateOk, ConfigOk, DecodeBody, Advance, StreamOk, ReadLegacy, TypeEntry;
      var st := View();
      var read := ReadHeader(cfg.compact, pkt, ModelId(cfg), seqNo);
      if read.None? {
        return None;
      }
      var (h, at) := read.value;
      if h.origSize > room || at + h.compSize > |pkt| {
        return None;
      }
      if cfg.dict.Some? && !h.flags.passthru && h.alg != ALG_LZ77X && h.modelId != ModelId(cfg) {
        return None;
      }
      DecodedStreamOk(cfg, st, h.flags, h.alg, pkt[at..at + h.compSize], h.origSize);
      out := DecodePayload(cfg, st, h.flags, h.alg, pkt[at..at + h.compSize], h.origSize);
      if out.Some? {
        Resequence(cfg, st, WireSeq(cfg, st, pkt));
        seqNo := h.seqNo;
        Remember(out.value);
      }
    }
  }

  /** The adaptive models after one more packet. */
  method AdaptToPacket(cfg: Config, a: Adapt, data: seq<byte>) returns (r: Adapt)
    requires ConfigOk(cfg) && AdaptOk(cfg, a)
    ensures r == AdaptNext(cfg, a, data)
  {
    hide RebuiltTables, LzpLearn, CountBytes, FullTables;
    var c := Count(a.counters, data);
    var count, tables, lzp := a.count + 1, a.tables, a.lzp;
    if count >= INTERVAL {
      if cfg.dict.Some? {
        tables := Rebuild(c, cfg.dict.value.tables);
      }
      count := 0;
    }
    if lzp.Some? {
      var learned := LearnLzp(lzp.value, data);
      lzp := Some(learned);
    }
    r := Adapt(c, tables, lzp, count);
  }

  /** A receiver takes over the sequence number of the packet before it advances. */
  ghost function AfterReceipt(cfg: Config, st: State, pkt: seq<byte>, data: seq<byte>): (r: State)
    requires ConfigOk(cfg) && StateOk(cfg, st)
    ensures StateOk(cfg, r)
  {
    Resequence(cfg, st, WireSeq(cfg, st, pkt));
    Advance(cfg, st.(seqNo := WireSeq(cfg, st, pkt)), data)
  }

  lemma Resequence(cfg: Config, st: State, seqNo: byte)
    requires StateOk(cfg, st)
    ensures StateOk(cfg, st.(seqNo := seqNo))
  {
  }

  /** Every entropy-coded stream in the packet ends in a sentinel, as flushed ones do. */
  ghost predicate Terminated(cfg: Config, st: State, pkt: seq<byte>) {
    var read := ReadHeader(cfg.compact, pkt, ModelId(cfg), st.seqNo);
    read.Some? && read.value.1 + read.value.0.compSize <= |pkt| ==>
      var (h, at) := read.value;
      StreamOk(cfg, h.flags, h.alg, pkt[at..at + h.compSize])
  }

  /** Only a terminated stream decodes to anything. */
  lemma DecodedStreamOk(cfg: Config, st: State, f: Flags, alg: byte, payload: seq<byte>, n: nat)
    requires ConfigOk(cfg) && StateOk(cfg, st)
    ensures DecodeBody(cfg, st, f, alg, payload, n).Some? ==> StreamOk(cfg, f, alg, payload)
  {
    hide FullTable, DictOk, AdaptOk, Undelta, LzpUnfilter, Lz77.Expand, SelectorOk, Rescale, TableOf;
    hide LeValue, OfBytes, DecodeX2, DecodeFrom;
  }
}
