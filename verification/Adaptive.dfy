/** Adaptive mode: per-bucket byte counters that both sides update after every packet, the table
    rebuild they trigger every 128 packets (netc_adaptive.h and netc_adaptive.c), and the LZP table
    with confidence counters (netc_lzp.h). */
module Adaptive {
  import opened Machine
  import opened TansTable
  import opened TansCoder
  import opened Frequencies
  import opened Filters
  import opened Contexts
  import opened Simd

  const INTERVAL: nat := 128
  const ALPHA_NUM: nat := 3
  const ALPHA_DEN: nat := 4

  /** `freq` is the flat `[BUCKETS][256]` array of 32-bit counters. */
  datatype Counters = Counters(freq: seq<nat>, total: seq<nat>) {
    predicate Valid() {
      && |freq| == BUCKETS * SYMBOLS && |total| == BUCKETS
      && (forall i :: 0 <= i < |freq| ==> freq[i] < WORD)
      && (forall b :: 0 <= b < BUCKETS ==> total[b] < WORD)
    }

    function Row(b: nat): (r: seq<nat>)
      requires Valid() && b < BUCKETS
      ensures |r| == SYMBOLS && forall s :: 0 <= s < SYMBOLS ==> r[s] < WORD
    {
      freq[b * SYMBOLS..(b + 1) * SYMBOLS]
    }
  }

  function NoCounts(): (c: Counters)
    ensures c.Valid()
  {
    Counters(seq(BUCKETS * SYMBOLS, _ => 0), seq(BUCKETS, _ => 0))
  }

  /** Every counter advances by the occurrences of its byte among the bytes of its bucket, every
      total by the size of the bucket, in 32 bits. */
  function CountBytes(c: Counters, data: seq<byte>): (r: Counters)
    requires c.Valid()
    ensures r.Valid()
  {
    CountsTo(c, data, |data|)
  }

  function CountsTo(c: Counters, data: seq<byte>, n: nat): (r: Counters)
    requires c.Valid() && n <= |data|
    ensures r.Valid()
  {
    Counters(seq(BUCKETS * SYMBOLS, k requires 0 <= k < BUCKETS * SYMBOLS =>
               (c.freq[k] + Occurrences(PacketHits(ByBucket, data, n, k / SYMBOLS), k % SYMBOLS)) % WORD),
             seq(BUCKETS, b requires 0 <= b < BUCKETS => (c.total[b] + |PacketHits(ByBucket, data, n, b)|) % WORD))
  }

  lemma CountsStart(c: Counters, data: seq<byte>)
    requires c.Valid()
    ensures CountsTo(c, data, 0) == c
  {
    OccurrencesNone();
    assert CountsTo(c, data, 0).freq == c.freq;
    assert CountsTo(c, data, 0).total == c.total;
  }

  lemma WrapNext(x: nat)
    ensures (x % WORD + 1) % WORD == (x + 1) % WORD
  {
  }

  lemma FlatIndex(j: nat, b: nat, x: byte)
    ensures j == b * SYMBOLS + x <==> j / SYMBOLS == b && j % SYMBOLS == x
  {
  }

  lemma FreqNext(c: Counters, data: seq<byte>, i: nat, j: nat)
    requires c.Valid() && i < |data| && j < BUCKETS * SYMBOLS
    ensures var was := CountsTo(c, data, i).freq[j];
            CountsTo(c, data, i + 1).freq[j] ==
              if j == Bucket(i) * SYMBOLS + data[i] then (was + 1) % WORD else was
  {
    hide Bucket, Occurrences, PacketHits;
    var hits := PacketHits(ByBucket, data, i, j / SYMBOLS);
    PacketHitsNext(ByBucket, data, i, j / SYMBOLS);
    OccurrencesAppend(hits, data[i], j % SYMBOLS);
    FlatIndex(j, Bucket(i), data[i]);
    WrapNext(c.freq[j] + Occurrences(hits, j % SYMBOLS));
  }

  lemma TotalNext(c: Counters, data: seq<byte>, i: nat, b: nat)
    requires c.Valid() && i < |data| && b < BUCKETS
    ensures var was := CountsTo(c, data, i).total[b];
            CountsTo(c, data, i + 1).total[b] == if b == Bucket(i) then (was + 1) % WORD else was
  {
    hide Bucket, Occurrences, PacketHits;
    PacketHitsNext(ByBucket, data, i, b);
    WrapNext(c.total[b] + |PacketHits(ByBucket, data, i, b)|);
  }

  lemma CountsNext(c: Counters, data: seq<byte>, i: nat)
    requires c.Valid() && i < |data|
    ensures var b, was := Bucket(i), CountsTo(c, data, i);
            var k := b * SYMBOLS + data[i];
            CountsTo(c, data, i + 1) ==
              Counters(was.freq[k := (was.freq[k] + 1) % WORD], was.total[b := (was.total[b] + 1) % WORD])
  {
    hide Bucket, CountsTo;
    var b, was, next := Bucket(i), CountsTo(c, data, i), CountsTo(c, data, i + 1);
    var k := b * SYMBOLS + data[i];
    forall j | 0 <= j < BUCKETS * SYMBOLS
      ensures next.freq[j] == was.freq[k := (was.freq[k] + 1) % WORD][j]
    {
      FreqNext(c, data, i, j);
    }
    assert next.freq == was.freq[k := (was.freq[k] + 1) % WORD];
    forall j | 0 <= j < BUCKETS
      ensures next.total[j] == was.total[b := (was.total[b] + 1) % WORD][j]
    {
      TotalNext(c, data, i, j);
    }
    assert next.total == was.total[b := (was.total[b] + 1) % WORD];
  }

  /** netc_adaptive_update, the counting. */
  method Count(c: Counters, data: seq<byte>) returns (r: Counters)
    requires c.Valid()
    ensures r == CountBytes(c, data)
  {
    hide Bucket, CountsTo;
    var freq: seq<nat>, total: seq<nat> := c.freq, c.total;
    CountsStart(c, data);
    for i := 0 to |data|
      invariant Counters(freq, total).Valid() && Counters(freq, total) == CountsTo(c, data, i)
    {
      CountsNext(c, data, i);
      var b := Bucket(i);
      var k := b * SYMBOLS + data[i];
      freq := freq[k := (freq[k] + 1) % WORD];
      total := total[b := (total[b] + 1) % WORD];
    }
    r := Counters(freq, total);
  }

  // ---------------------------------------------------------------- rebuild

  /** Three parts observed counts to one part dictionary frequency scaled to the bucket. */
  function Blended(count: nat, total: nat, dictFreq: nat): (r: nat) {
    if total > 0 then count * ALPHA_NUM + (dictFreq * total / 4096) * (ALPHA_DEN - ALPHA_NUM)
    else dictFreq
  }

  function Blend(row: seq<nat>, total: nat, dictFreq: seq<nat>): (r: seq<nat>)
    requires |row| == |dictFreq|
    ensures |r| == |row|
  {
    seq(|row|, s requires 0 <= s < |row| => Blended(row[s], total, dictFreq[s]))
  }

  /** The weights of the blend: up to the rounding of one division, three parts the count and one part
      the dictionary frequency scaled from 4096 to the size of the bucket. */
  lemma BlendWeights(count: nat, total: nat, dictFreq: nat)
    requires total > 0
    ensures var exact := 3 * 4096 * count + dictFreq * total;
            exact - 4096 < 4096 * Blended(count, total, dictFreq) <= exact
  {
  }

  lemma BlendUnseen(count: nat, dictFreq: nat)
    ensures Blended(count, 0, dictFreq) == dictFreq
  {
  }

  /** A built 12-bit table in which every byte value is present. */
  ghost predicate FullTable(t: Table) {
    Built(PARAMS_12, t) && forall s :: 0 <= s < SYMBOLS ==> t.freq[s] >= 1
  }

  ghost predicate FullTables(ts: seq<Table>) {
    |ts| == BUCKETS && forall b :: 0 <= b < BUCKETS ==> FullTable(ts[b])
  }

  lemma NormalizedFits(raw: seq<nat>)
    requires |raw| == SYMBOLS
    ensures PARAMS_12.Valid() && FreqFits(PARAMS_12, Normalize(raw))
  {
    hide Normalize;
    NormalizeExact(raw);
    Pow2Values();
  }

  ghost function RebuiltTable(c: Counters, dictTables: seq<Table>, b: nat): (t: Table)
    requires c.Valid() && FullTables(dictTables) && b < BUCKETS
  {
    var raw := Blend(c.Row(b), c.total[b], dictTables[b].freq);
    NormalizedFits(raw);
    TableOf(PARAMS_12, Normalize(raw))
  }

  /** A rebuilt table is valid for every byte value, whatever the counters hold. */
  lemma RebuiltTableFull(c: Counters, dictTables: seq<Table>, b: nat)
    requires c.Valid() && FullTables(dictTables) && b < BUCKETS
    ensures FullTable(RebuiltTable(c, dictTables, b))
  {
    hide Blend, Normalize;
    var raw := Blend(c.Row(b), c.total[b], dictTables[b].freq);
    NormalizedFits(raw);
    NormalizeExact(raw);
  }

  ghost function RebuiltTables(c: Counters, dictTables: seq<Table>): (ts: seq<Table>)
    requires c.Valid() && FullTables(dictTables)
    ensures FullTables(ts)
  {
    RebuiltTablesFull(c, dictTables);
    seq(BUCKETS, b requires 0 <= b < BUCKETS => RebuiltTable(c, dictTables, b))
  }

  lemma RebuiltTablesFull(c: Counters, dictTables: seq<Table>)
    requires c.Valid() && FullTables(dictTables)
    ensures forall b :: 0 <= b < BUCKETS ==> FullTable(RebuiltTable(c, dictTables, b))
  {
    forall b | 0 <= b < BUCKETS
      ensures FullTable(RebuiltTable(c, dictTables, b))
    {
      RebuiltTableFull(c, dictTables, b);
    }
  }

  lemma {:induction false} SumBound(s: seq<nat>, m: nat)
    requires forall i :: 0 <= i < |s| ==> s[i] <= m
    ensures Sum(s) <= |s| * m
  {
    if s != [] {
      SumBound(s[..|s| - 1], m);
    }
  }

  /** The blended counts stay far below 64 bits. */
  lemma BlendFits(row: seq<nat>, total: nat, dictFreq: seq<nat>)
    requires |row| == |dictFreq| == SYMBOLS && total < WORD
    requires forall s :: 0 <= s < SYMBOLS ==> row[s] < WORD && dictFreq[s] <= 4096
    ensures Sum(Blend(row, total, dictFreq)) * BUDGET < 0x1_0000_0000_0000_0000
  {
    hide Blended;
    forall s | 0 <= s < SYMBOLS
      ensures Blend(row, total, dictFreq)[s] <= 4 * WORD
    {
      BlendedBound(row[s], total, dictFreq[s]);
    }
    SumBound(Blend(row, total, dictFreq), 4 * WORD);
  }

  lemma BlendedBound(count: nat, total: nat, d: nat)
    requires count < WORD && total < WORD && d <= 4096
    ensures Blended(count, total, d) <= 4 * WORD
  {
    assert d * total <= 4096 * total;
  }

  lemma {:induction false} FreqAtMostSum(f: seq<nat>, s: nat)
    requires s < |f|
    ensures f[s] <= Sum(f)
  {
    SumPrefixStep(f, s);
    SumPrefixTotal(f, s + 1);
  }

  /** netc_adaptive_tables_rebuild: no bucket ever needs the fallback to the dictionary table. */
  method Rebuild(c: Counters, dictTables: seq<Table>) returns (ts: seq<Table>)
    requires c.Valid() && FullTables(dictTables)
    ensures ts == RebuiltTables(c, dictTables)
  {
    hide Blend, Normalize, FullTables;
    FullTablesSize(dictTables);
    ts := [];
    for b := 0 to BUCKETS
      invariant |ts| == b && forall k :: 0 <= k < b ==> ts[k] == RebuiltTable(c, dictTables, k)
    {
      var t := RebuildBucket(c, dictTables, b);
      ts := ts + [t];
    }
  }

  lemma FullTablesSize(ts: seq<Table>)
    requires FullTables(ts)
    ensures |ts| == BUCKETS
  {
  }

  lemma FullTableFreq(ts: seq<Table>, b: nat)
    requires FullTables(ts) && b < BUCKETS
    ensures |ts[b].freq| == SYMBOLS && Sum(ts[b].freq) == 4096
    ensures forall s :: 0 <= s < SYMBOLS ==> ts[b].freq[s] <= 4096
  {
    Pow2Values();
    var f := ts[b].freq;
    assert FullTable(ts[b]);
    forall s | 0 <= s < SYMBOLS
      ensures f[s] <= 4096
    {
      FreqAtMostSum(f, s);
    }
  }

  method RebuildBucket(c: Counters, dictTables: seq<Table>, b: nat) returns (t: Table)
    requires c.Valid() && FullTables(dictTables) && b < BUCKETS
    ensures t == RebuiltTable(c, dictTables, b)
  {
    hide Normalize, Blended, FullTables;
    FullTablesSize(dictTables);
    FullTableFreq(dictTables, b);
    var row, total, d := c.Row(b), c.total[b], dictTables[b].freq;
    var blended, sum := BlendLoop(row, total, d);
    BlendFits(row, total, d);
    var freq := NormalizeCounts(blended, sum);
    NormalizedFits(blended);
    var r := Build(PARAMS_12, freq);
    if r.None? {
      assert false;
    }
    t := r.value;
  }

  method BlendLoop(row: seq<nat>, total: nat, d: seq<nat>) returns (blended: seq<nat>, sum: nat)
    requires |row| == |d| == SYMBOLS
    ensures blended == Blend(row, total, d) && sum == Sum(blended)
  {
    hide Blended;
    blended, sum := [], 0;
    for s := 0 to SYMBOLS
      invariant |blended| == s && sum == Sum(blended)
      invariant forall k :: 0 <= k < s ==> blended[k] == Blended(row[k], total, d[k])
    {
      var x := Blended(row[s], total, d[s]);
      SumAppend(blended, x);
      blended, sum := blended + [x], sum + x;
    }
  }

  // ---------------------------------------------------------------- LZP table

  /** Miss-driven update of one slot: an empty slot takes the byte; a hit gains confidence up to 255,
      a miss loses one, and a miss at confidence 1 replaces the byte. */
  function LzpObserve(e: LzpEntry, b: byte): (r: LzpEntry)
  {
    if e.conf == 0 then LzpEntry(b, 1)
    else if e.value != b then
      if e.conf > 1 then LzpEntry(e.value, e.conf - 1) else LzpEntry(b, 1)
    else if e.conf < 255 then LzpEntry(e.value, e.conf + 1)
    else e
  }

  function ObserveAll(e: LzpEntry, hits: seq<byte>): (r: LzpEntry) {
    if hits == [] then e else LzpObserve(ObserveAll(e, hits[..|hits| - 1]), hits[|hits| - 1])
  }

  /** What one byte seen `n` times in a row does to a slot: a different prediction of confidence `k`
      survives exactly `k - 1` misses, and from the `k`-th on the slot predicts the byte. */
  lemma {:induction false} ObserveRun(e: LzpEntry, b: byte, n: nat)
    requires n > 0
    ensures var r := ObserveAll(e, Run(b, n));
            if e.conf > 0 && e.value == b then r.value == b && r.conf == Min(e.conf + n, 255)
            else if n < e.conf then r.value == e.value && r.conf == e.conf - n
            else r.value == b && r.conf == Min(if e.conf == 0 then n else n - e.conf + 1, 255)
  {
    assert Run(b, n)[..n - 1] == Run(b, n - 1);
    if n > 1 {
      ObserveRun(e, b, n - 1);
    } else {
      assert ObserveAll(e, Run(b, 0)) == e;
    }
  }

  lemma {:induction false} ObserveConcat(e: LzpEntry, a: seq<byte>, b: seq<byte>)
    ensures ObserveAll(e, a + b) == ObserveAll(ObserveAll(e, a), b)
  {
    hide LzpObserve;
    if b == [] {
      assert a + b == a;
    } else {
      var n := |b| - 1;
      ObserveConcat(e, a, b[..n]);
      assert (a + b)[..|a| + n] == a + b[..n];
    }
  }

  /** How far a slot stands towards predicting `b`: positive exactly when it does. */
  function Standing(e: LzpEntry, b: byte): (s: int) {
    if e.conf == 0 then 0 else if e.value == b then e.conf else 1 - e.conf
  }

  /** The slot is a vote: every occurrence of `b` moves it one step towards `b`, every other byte at
      most one step away, as long as the counter does not saturate. */
  lemma {:induction false} ObserveVote(e: LzpEntry, hits: seq<byte>, b: byte)
    requires e.conf + |hits| <= 255
    ensures var r := ObserveAll(e, hits);
            && r.conf <= e.conf + |hits|
            && Standing(r, b) >= Standing(e, b) + 2 * Occurrences(hits, b) - |hits|
  {
    if hits != [] {
      ObserveVote(e, hits[..|hits| - 1], b);
    }
  }

  /** A slot that starts empty predicts the strict majority of up to 255 hits; one that predicts
      another byte with confidence `k` needs a majority of `k` more. */
  lemma ObserveMajority(e: LzpEntry, hits: seq<byte>, b: byte)
    requires e.conf + |hits| <= 255
    requires 2 * Occurrences(hits, b) > |hits| + (if e.conf == 0 || e.value == b then 0 else e.conf - 1)
    ensures var r := ObserveAll(e, hits); r.conf > 0 && r.value == b
  {
    hide ObserveAll, Occurrences;
    ObserveVote(e, hits, b);
  }

  /** Every slot observes exactly the bytes of the packet that fall in it, in order. */
  function LzpLearn(t: LzpTable, data: seq<byte>): (r: LzpTable)
    requires |t| == LZP_SIZE
    ensures |r| == LZP_SIZE
  {
    LearnTo(t, data, |data|)
  }

  function LearnTo(t: LzpTable, data: seq<byte>, n: nat): (r: LzpTable)
    requires |t| == LZP_SIZE && n <= |data|
    ensures |r| == LZP_SIZE
  {
    seq(LZP_SIZE, h requires 0 <= h < LZP_SIZE => ObserveAll(t[h], PacketHits(BySlot, data, n, h)))
  }

  lemma LearnNext(t: LzpTable, data: seq<byte>, i: nat)
    requires |t| == LZP_SIZE && i < |data|
    ensures var u, h := LearnTo(t, data, i), LzpSlot(Before(data, i), i);
            LearnTo(t, data, i + 1) == u[h := LzpObserve(u[h], data[i])]
  {
    hide LzpSlot, LzpObserve;
    var u, next, h := LearnTo(t, data, i), LearnTo(t, data, i + 1), LzpSlot(Before(data, i), i);
    forall k | 0 <= k < LZP_SIZE
      ensures next[k] == u[h := LzpObserve(u[h], data[i])][k]
    {
      var hits := PacketHits(BySlot, data, i, k);
      PacketHitsNext(BySlot, data, i, k);
      assert (hits + [data[i]])[..|hits|] == hits;
    }
  }

  lemma LearnStart(t: LzpTable, data: seq<byte>)
    requires |t| == LZP_SIZE
    ensures LearnTo(t, data, 0) == t
  {
  }

  /** netc_lzp_adaptive_update. */
  method LearnLzp(t: LzpTable, data: seq<byte>) returns (r: LzpTable)
    requires |t| == LZP_SIZE
    ensures r == LzpLearn(t, data)
  {
    hide LzpSlot, LzpObserve, LearnTo;
    r := t;
    LearnStart(t, data);
    for i := 0 to |data|
      invariant |r| == LZP_SIZE && r == LearnTo(t, data, i)
    {
      LearnNext(t, data, i);
      var prev := if i > 0 then data[i - 1] else 0;
      var h := LzpSlot(prev, i);
      r := r[h := LzpObserve(r[h], data[i])];
    }
  }
}
