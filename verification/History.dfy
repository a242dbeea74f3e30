/** What a run of packets leaves in a context: history, predictors, counters, tables and LZP model, each
    stated directly of the packets. */
module History {
  import opened Machine
  import opened TansTable
  import opened TansCoder
  import opened Frequencies
  import opened Filters
  import opened Contexts
  import opened Adaptive
  import opened Connection
  import RingHistory
  import Simd

  /** The state after a sequence of packets; both sides compute it from original bytes alone. */
  ghost function StateAfter(cfg: Config, st: State, packets: seq<seq<byte>>): (r: State)
    requires ConfigOk(cfg) && StateOk(cfg, st)
    ensures StateOk(cfg, r)
  {
    if packets == [] then st
    else Advance(cfg, StateAfter(cfg, st, packets[..|packets| - 1]), packets[|packets| - 1])
  }

  /** The packet before packet `i` of a run from `st`, and the one before that, as far as the modes
      keep them. */
  function Last(cfg: Config, st: State, packets: seq<seq<byte>>, i: nat): (p: seq<byte>)
    requires i <= |packets|
  {
    if !cfg.stateful then [] else if i == 0 then st.prev else packets[i - 1]
  }

  function SecondLast(cfg: Config, st: State, packets: seq<seq<byte>>, i: nat): (p: seq<byte>)
    requires i <= |packets|
  {
    if !cfg.adaptive then [] else if i == 0 then st.prev2 else Last(cfg, st, packets, i - 1)
  }

  lemma {:induction false} Remembered(cfg: Config, st: State, packets: seq<seq<byte>>, i: nat)
    requires ConfigOk(cfg) && StateOk(cfg, st) && i <= |packets|
    ensures StateAfter(cfg, st, packets[..i]).prev == Last(cfg, st, packets, i)
    ensures StateAfter(cfg, st, packets[..i]).prev2 == SecondLast(cfg, st, packets, i)
  {
    hide ConfigOk, AdaptOk, AdaptNext;
    if i > 0 {
      assert packets[..i][..i - 1] == packets[..i - 1];
      Remembered(cfg, st, packets, i - 1);
    }
  }

  /** After any run from the created state the ring holds the recent part of everything sent, zeros
      before it. */
  lemma {:induction false} RingRemembers(cfg: Config, packets: seq<seq<byte>>)
    requires ConfigOk(cfg) && StateOk(cfg, Initial(cfg))
    ensures RingHistory.Holds(StateAfter(cfg, Initial(cfg), packets).ring, RingHistory.Concat(packets))
  {
    hide ConfigOk, StateOk, AdaptNext, RingHistory.Append;
    if packets == [] {
      RingHistory.RingIsRecentHistory(cfg.ringSize, []);
    } else {
      var n := |packets| - 1;
      RingRemembers(cfg, packets[..n]);
      var st := StateAfter(cfg, Initial(cfg), packets[..n]);
      RingHistory.AppendHolds(st.ring, RingHistory.Concat(packets[..n]), packets[n]);
    }
  }

  /** In every mode the sequence number counts packets in eight bits. */
  lemma {:induction false} RunSequence(cfg: Config, packets: seq<seq<byte>>)
    requires ConfigOk(cfg) && StateOk(cfg, Initial(cfg))
    ensures StateAfter(cfg, Initial(cfg), packets).seqNo == |packets| % 256
  {
    hide ConfigOk, StateOk, AdaptNext, RingHistory.Append, NoCounts, BoostLzp;
    if packets != [] {
      RunSequence(cfg, packets[..|packets| - 1]);
      RoundsNext(|packets| - 1);
    }
  }

  // ---------------------------------------------------------------- what a run leaves in adaptive mode

  /** The counts of bucket `b` over a run, as the 32-bit counters hold them. */
  ghost function RunCounts(packets: seq<seq<byte>>, b: nat): (row: seq<nat>)
    ensures |row| == 256
  {
    seq(256, x requires 0 <= x < 256 => Simd.Occurrences(RunHits(ByBucket, packets, b), x) % WORD)
  }

  /** Every counter is the number of occurrences of its byte in its bucket over the run, every total
      the size of its bucket, in 32 bits. */
  ghost predicate CountersAre(c: Counters, packets: seq<seq<byte>>) {
    && c.Valid()
    && forall b :: 0 <= b < 16 ==>
         c.Row(b) == RunCounts(packets, b) && c.total[b] == |RunHits(ByBucket, packets, b)| % WORD
  }

  lemma CountersStart()
    ensures CountersAre(NoCounts(), [])
  {
    Simd.OccurrencesNone();
  }

  lemma CountersNext(c: Counters, packets: seq<seq<byte>>)
    requires packets != [] && CountersAre(c, packets[..|packets| - 1])
    ensures CountersAre(CountBytes(c, packets[|packets| - 1]), packets)
  {
    hide CountBytes, RunCounts;
    forall b | 0 <= b < 16
      ensures CountBytes(c, packets[|packets| - 1]).Row(b) == RunCounts(packets, b)
      ensures CountBytes(c, packets[|packets| - 1]).total[b] == |RunHits(ByBucket, packets, b)| % WORD
    {
      CountsOfRun(c, packets, b);
    }
  }

  lemma AdaptParts(cfg: Config, st: State)
    requires ConfigOk(cfg) && StateOk(cfg, st) && cfg.adaptive
    ensures st.adapt.Some? && AdaptOk(cfg, st.adapt.value) && st.adapt.value.counters.Valid()
    ensures cfg.dict.Some? ==> FullTables(cfg.dict.value.tables)
  {
    hide FullTables, FullTable, Built;
  }

  /** One packet, as far as the adaptive models go. */
  lemma AdaptStep(cfg: Config, st: State, p: seq<byte>)
    requires ConfigOk(cfg) && StateOk(cfg, st) && cfg.adaptive && st.adapt.Some? && st.adapt.value.counters.Valid()
    requires cfg.dict.Some? ==> FullTables(cfg.dict.value.tables)
    ensures var next := Advance(cfg, st, p);
            && next.seqNo == (st.seqNo + 1) % 256 && next.adapt.Some?
            && var a, r := st.adapt.value, next.adapt.value;
            && r.counters == CountBytes(a.counters, p)
            && r.count == (if a.count + 1 >= 128 then 0 else a.count + 1)
            && r.tables == (if a.count + 1 >= 128 && cfg.dict.Some?
                            then RebuiltTables(CountBytes(a.counters, p), cfg.dict.value.tables) else a.tables)
  {
    AdaptParts(cfg, st);
    hide RebuiltTables, LzpLearn, FullTables, CountBytes, RingHistory.Append, ConfigOk, StateOk, AdaptOk;
  }

  lemma Created(cfg: Config)
    requires ConfigOk(cfg) && StateOk(cfg, Initial(cfg)) && cfg.adaptive
    ensures var st := StateAfter(cfg, Initial(cfg), []);
            && st.seqNo == 0 && st.adapt.Some? && st.adapt.value.count == 0 && st.adapt.value.counters == NoCounts()
            && (cfg.dict.Some? ==> st.adapt.value.tables == cfg.dict.value.tables)
  {
    hide ConfigOk, StateOk, NoCounts, BoostLzp, Advance;
  }

  lemma RoundsNext(n: nat)
    ensures (n % 256 + 1) % 256 == (n + 1) % 256
    ensures (n + 1) % 128 == if n % 128 + 1 >= 128 then 0 else n % 128 + 1
  {
    NextRemainder(n, 128);
    NextRemainder(n, 256);
    NextRemainder(n % 256, 256);
  }

  lemma NextRemainder(n: nat, d: nat)
    requires d > 1
    ensures (n + 1) % d == if n % d + 1 == d then 0 else n % d + 1
  {
    var q, r := n / d, n % d;
    if r + 1 == d {
      Distribute(d, q, 1);
      DivModUnique(n + 1, q + 1, 0, d);
    } else {
      DivModUnique(n + 1, q, r + 1, d);
    }
  }

  lemma StateNext(cfg: Config, packets: seq<seq<byte>>)
    requires ConfigOk(cfg) && StateOk(cfg, Initial(cfg)) && packets != []
    ensures StateAfter(cfg, Initial(cfg), packets) ==
            Advance(cfg, StateAfter(cfg, Initial(cfg), packets[..|packets| - 1]), packets[|packets| - 1])
  {
    hide ConfigOk, StateOk, Advance, Initial;
  }

  /** After any run from the created state the sequence number counts packets, the rebuild counter counts
      them in rounds of 128, and the counters are those of the run. */
  lemma {:induction false} RunCounters(cfg: Config, packets: seq<seq<byte>>)
    requires ConfigOk(cfg) && StateOk(cfg, Initial(cfg)) && cfg.adaptive
    ensures var st := StateAfter(cfg, Initial(cfg), packets);
            && st.seqNo == |packets| % 256
            && st.adapt.Some? && st.adapt.value.count == |packets| % 128
            && CountersAre(st.adapt.value.counters, packets)
  {
    hide ConfigOk, StateOk, CountersAre, FullTables, Advance, AdaptOk, Initial, StateAfter, CountBytes, RebuiltTables;
    if packets == [] {
      CountersStart();
      Created(cfg);
    } else {
      var n := |packets| - 1;
      StateNext(cfg, packets);
      var st := StateAfter(cfg, Initial(cfg), packets[..n]);
      RunCounters(cfg, packets[..n]);
      AdaptParts(cfg, st);
      AdaptStep(cfg, st, packets[n]);
      RoundsNext(n);
      CountersNext(st.adapt.value.counters, packets);
    }
  }

  lemma CountsOfRun(c: Counters, packets: seq<seq<byte>>, b: nat)
    requires packets != [] && c.Valid() && b < 16 && c.Row(b) == RunCounts(packets[..|packets| - 1], b)
    requires c.total[b] == |RunHits(ByBucket, packets[..|packets| - 1], b)| % WORD
    ensures CountBytes(c, packets[|packets| - 1]).Row(b) == RunCounts(packets, b)
    ensures CountBytes(c, packets[|packets| - 1]).total[b] == |RunHits(ByBucket, packets, b)| % WORD
  {
    hide PacketHits, Simd.Occurrences;
    var n := |packets| - 1;
    var p := packets[n];
    var earlier, now := RunHits(ByBucket, packets[..n], b), PacketHits(ByBucket, p, |p|, b);
    var row := CountBytes(c, p).Row(b);
    forall x | 0 <= x < 256
      ensures row[x] == RunCounts(packets, b)[x]
    {
      FlatIndex(b * 256 + x, b, x);
      assert c.Row(b)[x] == c.freq[b * 256 + x] == Simd.Occurrences(earlier, x) % WORD;
      Simd.OccurrencesConcat(earlier, now, x);
      WrapAdd(Simd.Occurrences(earlier, x), Simd.Occurrences(now, x));
    }
    WrapAdd(|earlier|, |now|);
  }

  lemma WrapAdd(x: nat, y: nat)
    ensures (x % WORD + y) % WORD == (x + y) % WORD
  {
  }

  /** The tables used after a run are those of the dictionary up to 127 packets, and then in every bucket the
      normalised blend of the dictionary with the counts at the last multiple of 128. */
  lemma {:induction false} RunTables(cfg: Config, packets: seq<seq<byte>>)
    requires ConfigOk(cfg) && StateOk(cfg, Initial(cfg)) && cfg.adaptive && cfg.dict.Some?
    ensures var used, d := ActiveTables(cfg, StateAfter(cfg, Initial(cfg), packets)), cfg.dict.value.tables;
            && |used| == |d| == 16
            && (|packets| < 128 ==> used == d)
            && (|packets| >= 128 ==> forall b :: 0 <= b < 16 ==>
                  BlendedTable(packets[..|packets| - |packets| % 128], b, d[b], used[b]))
  {
    hide ConfigOk, StateOk, StateAfter, CountersAre, BlendedTable, RebuiltTables, FullTables, Advance, AdaptOk;
    hide Initial, CountBytes;
    DictTables(cfg);
    if packets == [] {
      Created(cfg);
    } else {
      var n, d := |packets| - 1, cfg.dict.value.tables;
      var before := StateAfter(cfg, Initial(cfg), packets[..n]);
      var st := StateAfter(cfg, Initial(cfg), packets);
      RunTables(cfg, packets[..n]);
      RunCounters(cfg, packets[..n]);
      RunCounters(cfg, packets);
      StateNext(cfg, packets);
      AdaptParts(cfg, before);
      AdaptStep(cfg, before, packets[n]);
      if |packets| % 128 == 0 {
        assert packets[..|packets|] == packets;
        RebuiltFromRun(st.adapt.value.counters, packets, d);
      } else {
        var m := |packets| - |packets| % 128;
        assert m == n - n % 128;
        assert packets[..n][..m] == packets[..m];
      }
    }
  }

  lemma RebuiltFromRun(c: Counters, packets: seq<seq<byte>>, d: seq<Table>)
    requires CountersAre(c, packets) && FullTables(d)
    ensures |RebuiltTables(c, d)| == |d| == 16
    ensures forall b :: 0 <= b < 16 ==> BlendedTable(packets, b, d[b], RebuiltTables(c, d)[b])
  {
    hide FullTables, BlendedTable, RunCounts;
    FullTablesSize(d);
    forall b | 0 <= b < 16
      ensures BlendedTable(packets, b, d[b], RebuiltTables(c, d)[b])
    {
      BlendedRebuild(c, packets, d, b);
    }
  }

  lemma DictTables(cfg: Config)
    requires ConfigOk(cfg) && cfg.dict.Some?
    ensures FullTables(cfg.dict.value.tables) && |cfg.dict.value.tables| == 16
  {
  }

  /** `t` is built from the normalised 3:1 blend of the counts of a run with the frequencies of `d`. */
  ghost predicate BlendedTable(packets: seq<seq<byte>>, b: nat, d: Table, t: Table) {
    && |d.freq| == 256 && Built(PARAMS_12, t)
    && var counts, total := RunCounts(packets, b), |RunHits(ByBucket, packets, b)| % WORD;
       t.freq == Normalize(seq(256, x requires 0 <= x < 256 => Blended(counts[x], total, d.freq[x])))
  }

  lemma BlendedRebuild(c: Counters, packets: seq<seq<byte>>, d: seq<Table>, b: nat)
    requires c.Valid() && FullTables(d) && b < 16 && c.Row(b) == RunCounts(packets, b)
    requires c.total[b] == |RunHits(ByBucket, packets, b)| % WORD
    ensures |d| == 16 && RebuiltTables(c, d)[b] == RebuiltTable(c, d, b)
    ensures BlendedTable(packets, b, d[b], RebuiltTable(c, d, b))
  {
    hide Normalize, Blended, RunCounts, FullTables;
    FullTablesSize(d);
    FullTableFreq(d, b);
    RebuiltTableFull(c, d, b);
    FullTableBuilt(RebuiltTable(c, d, b));
    var raw := Blend(c.Row(b), c.total[b], d[b].freq);
    var counts, total := RunCounts(packets, b), |RunHits(ByBucket, packets, b)| % WORD;
    assert raw == seq(256, x requires 0 <= x < 256 => Blended(counts[x], total, d[b].freq[x]));
    NormalizedFits(raw);
  }

  /** Every slot of the LZP table used after a run has observed, from the dictionary's prediction with confidence
      4, exactly the bytes of the run that fall in it. */
  lemma {:induction false} RunPredictions(cfg: Config, packets: seq<seq<byte>>, h: nat)
    requires ConfigOk(cfg) && StateOk(cfg, Initial(cfg)) && cfg.adaptive && h < LZP_SIZE
    requires cfg.dict.Some? && cfg.dict.value.lzp.Some? && |cfg.dict.value.lzp.value| == LZP_SIZE
    ensures var used, e := ActiveLzp(cfg, StateAfter(cfg, Initial(cfg), packets)), cfg.dict.value.lzp.value[h];
            && used.Some? && |used.value| == LZP_SIZE
            && used == StateAfter(cfg, Initial(cfg), packets).adapt.value.lzp
            && used.value[h] ==
               ObserveAll(if e.conf != 0 then LzpEntry(e.value, 4) else e, RunHits(BySlot, packets, h))
  {
    hide ConfigOk, RebuiltTables, RingHistory.Append, CountBytes, FullTables, PacketHits;
    if packets != [] {
      var n := |packets| - 1;
      RunPredictions(cfg, packets[..n], h);
      var e := cfg.dict.value.lzp.value[h];
      var p := packets[n];
      ObserveConcat(if e.conf != 0 then LzpEntry(e.value, 4) else e, RunHits(BySlot, packets[..n], h),
                    PacketHits(BySlot, p, |p|, h));
    }
  }
}
