/** The contexts netc groups bytes by, in training and in adaptive mode alike. */
module Contexts {
  import opened Machine
  import opened TansCoder
  import opened Filters

  /** What a training pass groups bytes by: their LZP slot, the byte before, the bucket of their
      offset, or bucket and class of the byte before. */
  datatype Grouping = BySlot | ByPrevious | ByBucket | ByBigram(classMap: seq<byte>)

  predicate GroupingOk(g: Grouping) {
    g.ByBigram? ==> |g.classMap| == 256 && forall i :: 0 <= i < 256 ==> g.classMap[i] < CLASSES
  }

  function Groups(g: Grouping): (n: nat) {
    match g
    case BySlot => LZP_SIZE
    case ByPrevious => 256
    case ByBucket => BUCKETS
    case ByBigram(_) => BUCKETS * CLASSES
  }

  function GroupOf(g: Grouping, prev: byte, pos: nat): (k: nat)
    requires GroupingOk(g)
    ensures k < Groups(g)
  {
    match g
    case BySlot => LzpSlot(prev, pos)
    case ByPrevious => prev
    case ByBucket => Bucket(pos)
    case ByBigram(cm) => Bucket(pos) * CLASSES + BigramClass(prev, Some(cm))
  }

  /** The bytes of group `k` among the first `n` of a packet, in order. */
  function PacketHits(g: Grouping, packet: seq<byte>, n: nat, k: nat): (r: seq<byte>)
    requires GroupingOk(g) && n <= |packet|
    ensures |r| <= n
  {
    if n == 0 then []
    else
      var head := PacketHits(g, packet, n - 1, k);
      if GroupOf(g, Before(packet, n - 1), n - 1) == k then head + [packet[n - 1]] else head
  }

  /** The bytes of group `k` in a run of packets, in order. */
  function RunHits(g: Grouping, packets: seq<seq<byte>>, k: nat): (r: seq<byte>)
    requires GroupingOk(g)
  {
    if packets == [] then []
    else
      var n := |packets| - 1;
      RunHits(g, packets[..n], k) + PacketHits(g, packets[n], |packets[n]|, k)
  }

  /** A stretch of one group adds its bytes to that group and nothing to the others. */
  lemma {:induction false} PacketHitsStretch(g: Grouping, packet: seq<byte>, lo: nat, hi: nat, b: nat, k: nat)
    requires GroupingOk(g) && lo <= hi <= |packet|
    requires forall i :: lo <= i < hi ==> GroupOf(g, Before(packet, i), i) == b
    ensures PacketHits(g, packet, hi, k) == PacketHits(g, packet, lo, k) + (if k == b then packet[lo..hi] else [])
    decreases hi - lo
  {
    hide GroupOf;
    if lo < hi {
      PacketHitsStretch(g, packet, lo, hi - 1, b, k);
      PacketHitsNext(g, packet, hi - 1, k);
      assert packet[lo..hi] == packet[lo..hi - 1] + [packet[hi - 1]];
    }
  }

  /** Extending a packet by one byte extends the hits of that byte's group and of no other. */
  lemma PacketHitsNext(g: Grouping, packet: seq<byte>, n: nat, k: nat)
    requires GroupingOk(g) && n < |packet|
    ensures PacketHits(g, packet, n + 1, k) ==
            if GroupOf(g, Before(packet, n), n) == k then PacketHits(g, packet, n, k) + [packet[n]]
            else PacketHits(g, packet, n, k)
  {
  }
}
