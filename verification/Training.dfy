/** netc_dict_train: the passes over the training packets, the bigram class map, the LZP table and
    the frequency tables of the filtered packets. */
module Training {
  import opened Machine
  import opened TansTable
  import opened TansCoder
  import opened Frequencies
  import opened Adaptive
  import opened Filters
  import opened Contexts
  import opened Simd
  import opened Voting
  import opened ClassMap

  // ---------------------------------------------------------------- grouped bytes

  /** The bytes of group `k` in the first `p` packets, each cut to the maximum packet size. */
  function Hits(g: Grouping, packets: seq<seq<byte>>, p: nat, k: nat): (r: seq<byte>)
    requires GroupingOk(g) && p <= |packets|
    ensures |r| <= p * MAX_PACKET
  {
    if p == 0 then []
    else
      var c := Clip(packets[p - 1]);
      Hits(g, packets, p - 1, k) + PacketHits(g, c, |c|, k)
  }

  function Seen(g: Grouping, packets: seq<seq<byte>>, p: nat, i: nat, k: nat): (r: seq<byte>)
    requires GroupingOk(g) && p < |packets| && i <= |Clip(packets[p])|
  {
    Hits(g, packets, p, k) + PacketHits(g, Clip(packets[p]), i, k)
  }

  lemma SeenStart(g: Grouping, packets: seq<seq<byte>>, p: nat, k: nat)
    requires GroupingOk(g) && p < |packets|
    ensures Seen(g, packets, p, 0, k) == Hits(g, packets, p, k)
    ensures Seen(g, packets, p, |Clip(packets[p])|, k) == Hits(g, packets, p + 1, k)
  {
  }

  /** The next byte extends its own group and no other. */
  lemma SeenNext(g: Grouping, packets: seq<seq<byte>>, p: nat, i: nat, k: nat)
    requires GroupingOk(g) && p < |packets| && i < |Clip(packets[p])|
    ensures var c := Clip(packets[p]);
            Seen(g, packets, p, i + 1, k) ==
              if GroupOf(g, Before(c, i), i) == k then Seen(g, packets, p, i, k) + [c[i]] else Seen(g, packets, p, i, k)
  {
    hide GroupOf;
    var c := Clip(packets[p]);
    if GroupOf(g, Before(c, i), i) == k {
      assert Seen(g, packets, p, i + 1, k) == Seen(g, packets, p, i, k) + [c[i]];
    }
  }

  // ---------------------------------------------------------------- LZP passes

  lemma TallyNext(s: seq<byte>, b: byte)
    ensures Tally(s + [b]) == Voted(Tally(s), b)
    ensures forall k :: Occurrences(s + [b], k) == Occurrences(s, k) + (if b == k then 1 else 0)
  {
    assert (s + [b])[..|s|] == s;
  }

  /** Pass 1: the majority vote of every slot. */
  method VotePass(packets: seq<seq<byte>>) returns (votes: array<Vote>)
    ensures fresh(votes) && votes.Length == LZP_SIZE
    ensures forall k :: 0 <= k < LZP_SIZE ==> votes[k] == Tally(Hits(BySlot, packets, |packets|, k))
  {
    hide LzpSlot, Tally, Voted, PacketHits, Clip;
    TallyEmpty();
    votes := new Vote[LZP_SIZE](_ => Vote(0, 0));
    for p := 0 to |packets|
      invariant forall k :: 0 <= k < LZP_SIZE ==> votes[k] == Tally(Hits(BySlot, packets, p, k))
    {
      VotePacket(packets, p, votes);
    }
  }

  method VotePacket(packets: seq<seq<byte>>, p: nat, votes: array<Vote>)
    requires p < |packets| && votes.Length == LZP_SIZE
    requires forall k :: 0 <= k < LZP_SIZE ==> votes[k] == Tally(Hits(BySlot, packets, p, k))
    modifies votes
    ensures forall k :: 0 <= k < LZP_SIZE ==> votes[k] == Tally(Hits(BySlot, packets, p + 1, k))
  {
    hide LzpSlot, Tally, Voted, PacketHits, Clip, Seen, Hits;
    var pkt := Clip(packets[p]);
    forall k | 0 <= k < LZP_SIZE
      ensures Seen(BySlot, packets, p, 0, k) == Hits(BySlot, packets, p, k)
      ensures Seen(BySlot, packets, p, |pkt|, k) == Hits(BySlot, packets, p + 1, k)
    {
      SeenStart(BySlot, packets, p, k);
    }
    for i := 0 to |pkt|
      invariant forall k :: 0 <= k < LZP_SIZE ==> votes[k] == Tally(Seen(BySlot, packets, p, i, k))
    {
      var prev := if i > 0 then pkt[i - 1] else 0;
      var h := LzpSlot(prev, i);
      forall k | 0 <= k < LZP_SIZE
        ensures Seen(BySlot, packets, p, i + 1, k) ==
                if h == k then Seen(BySlot, packets, p, i, k) + [pkt[i]] else Seen(BySlot, packets, p, i, k)
      {
        SeenNext(BySlot, packets, p, i, k);
      }
      TallyNext(Seen(BySlot, packets, p, i, h), pkt[i]);
      votes[h] := Voted(votes[h], pkt[i]);
    }
  }

  /** Pass 2: hits of the candidates, and all hits, in saturating 16-bit counters. */
  method VerifyPass(packets: seq<seq<byte>>, votes: array<Vote>) returns (hit: array<nat>, total: array<nat>)
    requires votes.Length == LZP_SIZE
    ensures fresh(hit) && fresh(total) && hit.Length == total.Length == LZP_SIZE
    ensures forall k :: 0 <= k < LZP_SIZE ==> total[k] == Saturated(|Hits(BySlot, packets, |packets|, k)|)
    ensures forall k :: 0 <= k < LZP_SIZE ==>
              hit[k] == Saturated(Occurrences(Hits(BySlot, packets, |packets|, k), votes[k].candidate))
  {
    hide LzpSlot, Occurrences, PacketHits, Clip;
    TallyEmpty();
    hit := new nat[LZP_SIZE](_ => 0);
    total := new nat[LZP_SIZE](_ => 0);
    for p := 0 to |packets|
      invariant forall k :: 0 <= k < LZP_SIZE ==> total[k] == Saturated(|Hits(BySlot, packets, p, k)|)
      invariant forall k :: 0 <= k < LZP_SIZE ==>
                  hit[k] == Saturated(Occurrences(Hits(BySlot, packets, p, k), votes[k].candidate))
    {
      VerifyPacket(packets, p, votes, hit, total);
    }
  }

  method VerifyPacket(packets: seq<seq<byte>>, p: nat, votes: array<Vote>, hit: array<nat>, total: array<nat>)
    requires p < |packets| && votes.Length == hit.Length == total.Length == LZP_SIZE && hit != total
    requires forall k :: 0 <= k < LZP_SIZE ==> total[k] == Saturated(|Hits(BySlot, packets, p, k)|)
    requires forall k :: 0 <= k < LZP_SIZE ==>
               hit[k] == Saturated(Occurrences(Hits(BySlot, packets, p, k), votes[k].candidate))
    modifies hit, total
    ensures forall k :: 0 <= k < LZP_SIZE ==> total[k] == Saturated(|Hits(BySlot, packets, p + 1, k)|)
    ensures forall k :: 0 <= k < LZP_SIZE ==>
              hit[k] == Saturated(Occurrences(Hits(BySlot, packets, p + 1, k), votes[k].candidate))
  {
    hide LzpSlot, Occurrences, Tally, Voted, PacketHits, Clip, Seen, Hits;
    var pkt := Clip(packets[p]);
    forall k | 0 <= k < LZP_SIZE
      ensures Seen(BySlot, packets, p, 0, k) == Hits(BySlot, packets, p, k)
      ensures Seen(BySlot, packets, p, |pkt|, k) == Hits(BySlot, packets, p + 1, k)
    {
      SeenStart(BySlot, packets, p, k);
    }
    for i := 0 to |pkt|
      invariant forall k :: 0 <= k < LZP_SIZE ==> total[k] == Saturated(|Seen(BySlot, packets, p, i, k)|)
      invariant forall k :: 0 <= k < LZP_SIZE ==>
                  hit[k] == Saturated(Occurrences(Seen(BySlot, packets, p, i, k), votes[k].candidate))
    {
      var prev := if i > 0 then pkt[i - 1] else 0;
      var h := LzpSlot(prev, i);
      forall k | 0 <= k < LZP_SIZE
        ensures Seen(BySlot, packets, p, i + 1, k) ==
                if h == k then Seen(BySlot, packets, p, i, k) + [pkt[i]] else Seen(BySlot, packets, p, i, k)
      {
        SeenNext(BySlot, packets, p, i, k);
      }
      TallyNext(Seen(BySlot, packets, p, i, h), pkt[i]);
      if total[h] < COUNT_MAX {
        total[h] := total[h] + 1;
      }
      if pkt[i] == votes[h].candidate {
        if hit[h] < COUNT_MAX {
          hit[h] := hit[h] + 1;
        }
      }
    }
  }

  /** The LZP table a training set gives: every slot learns from exactly the bytes that fall in it. */
  function LzpOf(packets: seq<seq<byte>>): (t: LzpTable)
    ensures |t| == LZP_SIZE
  {
    seq(LZP_SIZE, k requires 0 <= k < LZP_SIZE => Learned(Hits(BySlot, packets, |packets|, k)))
  }

  /** The bytes that training sees in a slot, in order. */
  function SlotHits(packets: seq<seq<byte>>, h: nat): (r: seq<byte>) {
    Hits(BySlot, packets, |packets|, h)
  }

  /** Training learns every slot's majority byte as long as the slot has at most 65536 hits. */
  lemma TrainedMajority(packets: seq<seq<byte>>, h: nat, b: byte)
    requires h < LZP_SIZE && 2 <= |SlotHits(packets, h)| <= COUNT_MAX + 1
    requires 2 * Occurrences(SlotHits(packets, h), b) > |SlotHits(packets, h)|
    ensures LzpOf(packets)[h] == LzpEntry(b, 1)
  {
    hide Hits, Occurrences, Learned;
    MajorityLearned(SlotHits(packets, h), b);
  }

  /** Every trained prediction holds at least 40% of its slot's hits, as long as there are at most
      65535 of them. */
  lemma TrainedShare(packets: seq<seq<byte>>, h: nat)
    requires h < LZP_SIZE && LzpOf(packets)[h].conf != 0 && |SlotHits(packets, h)| <= COUNT_MAX
    ensures |SlotHits(packets, h)| >= 2
    ensures 10 * Occurrences(SlotHits(packets, h), LzpOf(packets)[h].value) >= 4 * |SlotHits(packets, h)|
  {
    hide Hits, Occurrences, Tally;
    ValidShare(SlotHits(packets, h));
  }

  /** Training packets of one byte each, all of which fall in the slot of offset 0. */
  function Singles(bytes: seq<byte>): (packets: seq<seq<byte>>)
    ensures |packets| == |bytes|
  {
    seq(|bytes|, i requires 0 <= i < |bytes| => [bytes[i]])
  }

  lemma {:induction false} SinglesHits(bytes: seq<byte>, p: nat)
    requires p <= |bytes|
    ensures Hits(BySlot, Singles(bytes), p, LzpSlot(0, 0)) == bytes[..p]
  {
    hide LzpSlot;
    if p > 0 {
      SinglesHits(bytes, p - 1);
      var one := Singles(bytes)[p - 1];
      assert PacketHits(BySlot, one, 1, LzpSlot(0, 0)) == one by {
        assert PacketHits(BySlot, one, 0, LzpSlot(0, 0)) == [];
      }
    }
  }

  /** 65537 one-byte packets, most of them holding 7, that train the slot to predict 9: one packet
      more than the majority promise covers. */
  lemma TrainingLosesMajority()
    ensures var hits := Run(7, VOTE_MAX + 2) + Run(9, VOTE_MAX) + Run(9, 1);
            var packets, h := Singles(hits), LzpSlot(0, 0);
            && |SlotHits(packets, h)| == COUNT_MAX + 2
            && 2 * Occurrences(SlotHits(packets, h), 7) > |SlotHits(packets, h)|
            && LzpOf(packets)[h] == LzpEntry(9, 1)
  {
    hide LzpSlot, Hits, Learned, Occurrences;
    var hits := Run(7, VOTE_MAX + 2) + Run(9, VOTE_MAX) + Run(9, 1);
    SinglesHits(hits, |hits|);
    assert hits[..|hits|] == hits;
    MajorityCanBeLost();
  }

  /** 65536 one-byte packets that leave a valid prediction with less than 40% of the hits. */
  lemma TrainingMissesShare()
    ensures var hits := Alternating(19661) + Run(7, 26214);
            var packets, h := Singles(hits), LzpSlot(0, 0);
            && |SlotHits(packets, h)| == COUNT_MAX + 1
            && LzpOf(packets)[h] == LzpEntry(7, 1)
            && 10 * Occurrences(SlotHits(packets, h), 7) < 4 * |SlotHits(packets, h)|
  {
    hide LzpSlot, Hits, Learned, Occurrences, Alternating;
    var hits := Alternating(19661) + Run(7, 26214);
    SinglesHits(hits, |hits|);
    assert hits[..|hits|] == hits;
    ShareCanBeMissed();
  }

  /** Passes 1 and 2 and the table they leave. */
  method TrainLzp(packets: seq<seq<byte>>) returns (t: LzpTable)
    ensures t == LzpOf(packets)
  {
    hide Tally, Occurrences, Hits;
    var votes := VotePass(packets);
    var hit, total := VerifyPass(packets, votes);
    var table := new LzpEntry[LZP_SIZE](_ => LzpEntry(0, 0));
    for h := 0 to LZP_SIZE
      modifies table
      invariant forall k :: 0 <= k < h ==> table[k] == Learned(Hits(BySlot, packets, |packets|, k))
      invariant forall k :: h <= k < LZP_SIZE ==> table[k] == LzpEntry(0, 0)
    {
      if total[h] >= 2 && hit[h] * 10 >= total[h] * 4 {
        table[h] := LzpEntry(votes[h].candidate, 1);
      }
    }
    t := table[..];
  }

  // ---------------------------------------------------------------- histograms

  lemma HistogramNext(s: seq<byte>, b: byte)
    ensures Histogram(s + [b]) == Histogram(s)[b := Histogram(s)[b] + 1]
  {
    assert (s + [b])[..|s|] == s;
  }

  lemma HistogramNone()
    ensures Histogram([]) == seq(256, _ => 0)
  {
  }

  /** The counts of every byte value in every group, and the size of every group. */
  method CountGroups(g: Grouping, packets: seq<seq<byte>>) returns (raw: array<seq<nat>>, totals: array<nat>)
    requires GroupingOk(g)
    ensures fresh(raw) && fresh(totals) && raw.Length == totals.Length == Groups(g)
    ensures forall k :: 0 <= k < Groups(g) ==>
              raw[k] == Histogram(Hits(g, packets, |packets|, k)) && totals[k] == |Hits(g, packets, |packets|, k)|
  {
    hide GroupOf, Groups, Histogram, PacketHits, Clip;
    HistogramNone();
    raw := new seq<nat>[Groups(g)](_ => seq(256, _ => 0));
    totals := new nat[Groups(g)](_ => 0);
    for p := 0 to |packets|
      invariant forall k :: 0 <= k < Groups(g) ==>
                  raw[k] == Histogram(Hits(g, packets, p, k)) && totals[k] == |Hits(g, packets, p, k)|
    {
      CountPacket(g, packets, p, raw, totals);
    }
  }

  method CountPacket(g: Grouping, packets: seq<seq<byte>>, p: nat, raw: array<seq<nat>>, totals: array<nat>)
    requires GroupingOk(g) && p < |packets| && raw.Length == totals.Length == Groups(g)
    requires forall k :: 0 <= k < Groups(g) ==>
               raw[k] == Histogram(Hits(g, packets, p, k)) && totals[k] == |Hits(g, packets, p, k)|
    modifies raw, totals
    ensures forall k :: 0 <= k < Groups(g) ==>
              raw[k] == Histogram(Hits(g, packets, p + 1, k)) && totals[k] == |Hits(g, packets, p + 1, k)|
  {
    hide GroupOf, Groups, Histogram, PacketHits, Clip, Seen, Hits;
    var pkt := Clip(packets[p]);
    forall k | 0 <= k < Groups(g)
      ensures Seen(g, packets, p, 0, k) == Hits(g, packets, p, k)
      ensures Seen(g, packets, p, |pkt|, k) == Hits(g, packets, p + 1, k)
    {
      SeenStart(g, packets, p, k);
    }
    for i := 0 to |pkt|
      invariant forall k :: 0 <= k < Groups(g) ==>
                  raw[k] == Histogram(Seen(g, packets, p, i, k)) && totals[k] == |Seen(g, packets, p, i, k)|
    {
      var prev := if i > 0 then pkt[i - 1] else 0;
      var h := GroupOf(g, prev, i);
      forall k | 0 <= k < Groups(g)
        ensures Seen(g, packets, p, i + 1, k) ==
                if h == k then Seen(g, packets, p, i, k) + [pkt[i]] else Seen(g, packets, p, i, k)
      {
        SeenNext(g, packets, p, i, k);
      }
      HistogramNext(Seen(g, packets, p, i, h), pkt[i]);
      raw[h] := raw[h][pkt[i] := raw[h][pkt[i]] + 1];
      totals[h] := totals[h] + 1;
    }
  }

  // ---------------------------------------------------------------- segment histograms

  /** The offsets where the buckets end. */
  const BUCKET_END: seq<nat> :=
    [8, 16, 24, 32, 48, 64, 96, 128, 192, 256, 384, 512, 1024, 4096, 16384, 65536]

  /** The segment table cuts packets exactly where the bucket of the coders changes. */
  lemma SegmentsAreBuckets(b: nat, i: nat)
    requires b < BUCKETS && i < 65536
    ensures Bucket(i) == b <==> (if b == 0 then 0 else BUCKET_END[b - 1]) <= i < BUCKET_END[b]
  {
  }

  /** The counts of a stretch through the dispatch table: four histograms or one. */
  method DispatchCount(data: seq<byte>) returns (freq: array<nat>)
    requires |data| < WORD
    ensures fresh(freq) && freq[..] == Histogram(data)
  {
    hide Occurrences;
    freq := new nat[256](_ => 0);
    var avx2: bool := *;
    if avx2 {
      CountAvx2(data, freq);
    } else {
      CountGeneric(data, freq);
    }
    forall k | 0 <= k < 256
      ensures freq[k] == Histogram(data)[k]
    {
      assert Occurrences(data, k) <= |data|;
    }
  }

  /** Phase 2a: one histogram per bucket, counted segment by segment; the same as byte by byte. */
  method CountSegments(packets: seq<seq<byte>>) returns (raw: array<seq<nat>>, totals: array<nat>)
    ensures fresh(raw) && fresh(totals) && raw.Length == totals.Length == BUCKETS
    ensures forall k :: 0 <= k < BUCKETS ==>
              && raw[k] == Histogram(Hits(ByBucket, packets, |packets|, k))
              && totals[k] == |Hits(ByBucket, packets, |packets|, k)|
  {
    hide GroupOf, Histogram, PacketHits, Clip;
    HistogramNone();
    raw := new seq<nat>[BUCKETS](_ => seq(256, _ => 0));
    totals := new nat[BUCKETS](_ => 0);
    for p := 0 to |packets|
      invariant forall k :: 0 <= k < BUCKETS ==>
                  raw[k] == Histogram(Hits(ByBucket, packets, p, k)) && totals[k] == |Hits(ByBucket, packets, p, k)|
    {
      CountPacketSegments(packets, p, raw, totals);
    }
  }

  method CountPacketSegments(packets: seq<seq<byte>>, p: nat, raw: array<seq<nat>>, totals: array<nat>)
    requires p < |packets| && raw.Length == totals.Length == BUCKETS
    requires forall k :: 0 <= k < BUCKETS ==>
               raw[k] == Histogram(Hits(ByBucket, packets, p, k)) && totals[k] == |Hits(ByBucket, packets, p, k)|
    modifies raw, totals
    ensures forall k :: 0 <= k < BUCKETS ==>
              && raw[k] == Histogram(Hits(ByBucket, packets, p + 1, k))
              && totals[k] == |Hits(ByBucket, packets, p + 1, k)|
  {
    hide GroupOf, Histogram, PacketHits, Seen, Hits, Bucket;
    var pkt := Clip(packets[p]);
    forall k | 0 <= k < BUCKETS
      ensures Seen(ByBucket, packets, p, 0, k) == Hits(ByBucket, packets, p, k)
      ensures Seen(ByBucket, packets, p, |pkt|, k) == Hits(ByBucket, packets, p + 1, k)
    {
      SeenStart(ByBucket, packets, p, k);
    }
    var start, b := 0, 0;
    while b < BUCKETS && start < |pkt|
      invariant b <= BUCKETS && start == Min(|pkt|, if b == 0 then 0 else BUCKET_END[b - 1])
      invariant forall k :: 0 <= k < BUCKETS ==>
                  && raw[k] == Histogram(Seen(ByBucket, packets, p, start, k))
                  && totals[k] == |Seen(ByBucket, packets, p, start, k)|
    {
      var end := Min(|pkt|, BUCKET_END[b]);
      forall k | 0 <= k < BUCKETS
        ensures Seen(ByBucket, packets, p, end, k) ==
                if k == b then Seen(ByBucket, packets, p, start, k) + pkt[start..end]
                else Seen(ByBucket, packets, p, start, k)
      {
        SeenSegment(packets, p, start, end, b, k);
      }
      CountSegment(pkt[start..end], b, Seen(ByBucket, packets, p, start, b), raw, totals);
      start, b := end, b + 1;
    }
  }

  lemma SeenSegment(packets: seq<seq<byte>>, p: nat, start: nat, end: nat, b: nat, k: nat)
    requires p < |packets| && b < BUCKETS
    requires start == (if b == 0 then 0 else BUCKET_END[b - 1]) <= end <= |Clip(packets[p])| && end <= BUCKET_END[b]
    ensures Seen(ByBucket, packets, p, end, k) ==
            Seen(ByBucket, packets, p, start, k) + (if k == b then Clip(packets[p])[start..end] else [])
  {
    hide PacketHits, Clip, Hits, Bucket;
    forall i | start <= i < end
      ensures GroupOf(ByBucket, Before(Clip(packets[p]), i), i) == b
    {
      SegmentsAreBuckets(b, i);
    }
    PacketHitsStretch(ByBucket, Clip(packets[p]), start, end, b, k);
  }

  /** One segment: its histogram is added to the counts of its bucket. */
  method CountSegment(data: seq<byte>, b: nat, ghost seen: seq<byte>, raw: array<seq<nat>>, totals: array<nat>)
    requires b < raw.Length == totals.Length && |data| < WORD
    requires raw[b] == Histogram(seen) && totals[b] == |seen|
    modifies raw, totals
    ensures raw[b] == Histogram(seen + data) && totals[b] == |seen| + |data|
    ensures forall k :: 0 <= k < raw.Length && k != b ==> raw[k] == old(raw[k]) && totals[k] == old(totals[k])
  {
    hide Histogram;
    var freq := DispatchCount(data);
    var sum: seq<nat> := [];
    for s := 0 to 256
      modifies {}
      invariant |sum| == s && forall k :: 0 <= k < s ==> sum[k] == raw[b][k] + freq[k]
    {
      sum := sum + [raw[b][s] + freq[s]];
    }
    HistogramConcat(seen, data);
    raw[b] := sum;
    totals[b] := totals[b] + |data|;
  }

  lemma HistogramConcat(a: seq<byte>, b: seq<byte>)
    ensures forall k :: 0 <= k < 256 ==> Histogram(a + b)[k] == Histogram(a)[k] + Histogram(b)[k]
  {
    hide Occurrences;
    forall k | 0 <= k < 256
      ensures Histogram(a + b)[k] == Histogram(a)[k] + Histogram(b)[k]
    {
      OccurrencesConcat(a, b, k);
    }
  }

  // ---------------------------------------------------------------- class map

  /** The byte that most often follows `prev` in the training packets, the lowest among equals. */
  function PeakAfter(packets: seq<seq<byte>>, prev: byte): (s: byte) {
    FirstMax(Histogram(Hits(ByPrevious, packets, |packets|, prev)), 256).0
  }

  function Peaks(packets: seq<seq<byte>>): (peak: seq<byte>)
    ensures |peak| == 256
  {
    seq(256, v requires 0 <= v < 256 => PeakAfter(packets, v))
  }

  /** How often byte `s` follows byte `v` among the first `n` bytes of a packet, which starts after 0. */
  function Follows(packet: seq<byte>, n: nat, v: byte, s: byte): (c: nat)
    requires n <= |packet|
  {
    if n == 0 then 0
    else
      var before := if n == 1 then 0 else packet[n - 2];
      Follows(packet, n - 1, v, s) + if before == v && packet[n - 1] == s then 1 else 0
  }

  /** How often byte `s` follows byte `v` in the first `p` packets, each cut to 65535 bytes. */
  function Followers(packets: seq<seq<byte>>, p: nat, v: byte, s: byte): (c: nat)
    requires p <= |packets|
  {
    if p == 0 then 0
    else
      var n := if |packets[p - 1]| > 65535 then 65535 else |packets[p - 1]|;
      Followers(packets, p - 1, v, s) + Follows(packets[p - 1], n, v, s)
  }

  lemma {:induction false} FollowsAre(packet: seq<byte>, n: nat, v: byte, s: byte)
    requires n <= |Clip(packet)|
    ensures Occurrences(PacketHits(ByPrevious, Clip(packet), n, v), s) == Follows(packet, n, v, s)
  {
    hide Occurrences;
    if n == 0 {
      OccurrencesNone();
    } else {
      FollowsAre(packet, n - 1, v, s);
      PacketHitsNext(ByPrevious, Clip(packet), n - 1, v);
      OccurrencesAppend(PacketHits(ByPrevious, Clip(packet), n - 1, v), Clip(packet)[n - 1], s);
    }
  }

  lemma {:induction false} FollowersAre(packets: seq<seq<byte>>, p: nat, v: byte, s: byte)
    requires p <= |packets|
    ensures Occurrences(Hits(ByPrevious, packets, p, v), s) == Followers(packets, p, v, s)
  {
    hide Occurrences, PacketHits, Follows;
    if p == 0 {
      OccurrencesNone();
    } else {
      var c := Clip(packets[p - 1]);
      FollowersAre(packets, p - 1, v, s);
      FollowsAre(packets[p - 1], |c|, v, s);
      OccurrencesConcat(Hits(ByPrevious, packets, p - 1, v), PacketHits(ByPrevious, c, |c|, v), s);
    }
  }

  /** The peak of a byte is the one that follows it most often, the lowest among equals, and 0 when
      nothing follows it. */
  lemma PeakFollowsMost(packets: seq<seq<byte>>, v: byte)
    ensures var n, peak := |packets|, Peaks(packets)[v];
            && (forall s: byte :: Followers(packets, n, v, s) <= Followers(packets, n, v, peak))
            && (forall s: byte :: s < peak ==> Followers(packets, n, v, s) < Followers(packets, n, v, peak))
            && ((forall s: byte :: Followers(packets, n, v, s) == 0) ==> peak == 0)
  {
    hide Occurrences, Hits, Followers;
    var n, counts := |packets|, Histogram(Hits(ByPrevious, packets, |packets|, v));
    var peak := Peaks(packets)[v];
    assert peak == FirstMax(counts, 256).0;
    forall s: byte
      ensures counts[s] == Followers(packets, n, v, s)
    {
      FollowersAre(packets, n, v, s);
    }
    FirstMaxIs(counts);
  }

  lemma FirstMaxIs(counts: seq<nat>)
    requires |counts| == 256
    ensures var m := FirstMax(counts, 256);
            && (forall s :: 0 <= s < 256 ==> counts[s] <= counts[m.0])
            && (forall s :: 0 <= s < m.0 ==> counts[s] < counts[m.0])
  {
  }

  /** Phase 2b: the class map of the training packets. */
  method TrainClassMap(packets: seq<seq<byte>>) returns (classMap: seq<byte>)
    ensures Classifies(Peaks(packets), classMap)
  {
    hide Hits, Histogram, FirstMax, Classifies;
    var raw, _ := CountGroups(ByPrevious, packets);
    var peak: seq<byte> := [];
    for prev := 0 to 256
      modifies {}
      invariant |peak| == prev && forall v :: 0 <= v < prev ==> peak[v] == PeakAfter(packets, v)
    {
      var s := FindPeak(raw[prev]);
      peak := peak + [s];
    }
    assert peak == Peaks(packets);
    classMap := Divide(peak);
  }

  method FindPeak(counts: seq<nat>) returns (sym: byte)
    requires |counts| == 256
    ensures sym == FirstMax(counts, 256).0
  {
    var best := 0;
    sym := 0;
    for s := 0 to 256
      invariant (sym, best) == FirstMax(counts, s)
    {
      if counts[s] > best {
        best, sym := counts[s], s;
      }
    }
  }

  // ---------------------------------------------------------------- tables

  /** With at most this many packets the 64-bit byte counters cannot wrap. */
  const PACKET_LIMIT: nat := 0x1_0000_0000_0000

  ghost function TrainedTable(g: Grouping, packets: seq<seq<byte>>, k: nat): (t: Table)
    requires GroupingOk(g)
  {
    var raw := Histogram(Hits(g, packets, |packets|, k));
    NormalizedFits(raw);
    TableOf(PARAMS_12, Normalize(raw))
  }

  /** A trained table can code every byte, seen in training or not. */
  lemma TrainedTableFull(g: Grouping, packets: seq<seq<byte>>, k: nat)
    requires GroupingOk(g)
    ensures FullTable(TrainedTable(g, packets, k))
  {
    hide Normalize, Histogram, Hits;
    var raw := Histogram(Hits(g, packets, |packets|, k));
    NormalizedFits(raw);
    NormalizeExact(raw);
  }

  /** Histograms to tables, one per group; the table construction never fails. */
  method BuildTables(g: Grouping, packets: seq<seq<byte>>, raw: array<seq<nat>>, totals: array<nat>)
    returns (ts: seq<Table>)
    requires GroupingOk(g) && |packets| <= PACKET_LIMIT && raw.Length == totals.Length == Groups(g)
    requires forall k :: 0 <= k < Groups(g) ==>
               raw[k] == Histogram(Hits(g, packets, |packets|, k)) && totals[k] == |Hits(g, packets, |packets|, k)|
    ensures |ts| == Groups(g) && forall k :: 0 <= k < Groups(g) ==> ts[k] == TrainedTable(g, packets, k)
  {
    hide Normalize, Histogram, Hits, Groups;
    ts := [];
    for k := 0 to Groups(g)
      modifies {}
      invariant |ts| == k && forall j :: 0 <= j < k ==> ts[j] == TrainedTable(g, packets, j)
    {
      var hits := Hits(g, packets, |packets|, k);
      CountsTotal(hits);
      TotalFits(|hits|, |packets|);
      var freq := NormalizeCounts(raw[k], totals[k]);
      NormalizedFits(raw[k]);
      var r := Build(PARAMS_12, freq);
      if r.None? {
        assert false;
      }
      ts := ts + [r.value];
    }
  }

  /** Phases 2c and 5: count byte by byte and build. */
  method TrainTables(g: Grouping, packets: seq<seq<byte>>) returns (ts: seq<Table>)
    requires GroupingOk(g) && |packets| <= PACKET_LIMIT
    ensures |ts| == Groups(g) && forall k :: 0 <= k < Groups(g) ==> ts[k] == TrainedTable(g, packets, k)
  {
    hide Normalize, Histogram, Hits, Groups, TrainedTable;
    var raw, totals := CountGroups(g, packets);
    ts := BuildTables(g, packets, raw, totals);
  }

  /** Phases 2a and 2: count segment by segment and build. */
  method TrainSegments(packets: seq<seq<byte>>) returns (ts: seq<Table>)
    requires |packets| <= PACKET_LIMIT
    ensures |ts| == BUCKETS && forall k :: 0 <= k < BUCKETS ==> ts[k] == TrainedTable(ByBucket, packets, k)
  {
    hide Normalize, Histogram, Hits, TrainedTable;
    var raw, totals := CountSegments(packets);
    ts := BuildTables(ByBucket, packets, raw, totals);
  }

  lemma TotalFits(n: nat, packets: nat)
    requires n <= packets * MAX_PACKET && packets <= PACKET_LIMIT
    ensures n < DWORD
  {
  }

  /** The packets as the tables will see them: cut to size and filtered by the new LZP table. */
  function Filtered(t: LzpTable, packets: seq<seq<byte>>): (r: seq<seq<byte>>)
    requires |t| == LZP_SIZE
    ensures |r| == |packets|
  {
    seq(|packets|, p requires 0 <= p < |packets| => LzpFilter(t, Clip(packets[p])))
  }

  method FilterAll(t: LzpTable, packets: seq<seq<byte>>) returns (r: seq<seq<byte>>)
    requires |t| == LZP_SIZE
    ensures r == Filtered(t, packets)
  {
    r := [];
    for p := 0 to |packets|
      invariant |r| == p && forall k :: 0 <= k < p ==> r[k] == LzpFilter(t, Clip(packets[k]))
    {
      var f := FilterLzp(t, Clip(packets[p]));
      r := r + [f[..]];
    }
  }
}
