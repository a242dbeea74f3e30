/** Whole runs of a connection: two endpoints that exchange nothing but packets stay in the same
    state, and every packet arrives. */
module Session {
  import opened Machine
  import opened Header
  import opened Connection
  import opened Competition
  import opened Context
  import opened Filters
  import opened History
  import Dictionary
  import Lz77
  import Simd
  import Training

  // ---------------------------------------------------------------- any run

  ghost predicate Clean(cfg: Config, headers: seq<PacketHeader>, k: nat)
    requires k <= |headers|
  {
    forall i :: 0 <= i < k ==> Faithful(cfg, headers[i])
  }

  /** What a run gives for packet `k`, once those before it were faithful: it is delivered if it is
      faithful, and unless it is dual-state of odd length only if it is. */
  ghost predicate Exact(cfg: Config, packets: seq<seq<byte>>, out: seq<Option<seq<byte>>>,
                        headers: seq<PacketHeader>, k: nat)
    requires k < |packets| && |out| == |headers| == |packets|
  {
    && (Faithful(cfg, headers[k]) ==> out[k] == Some(packets[k]))
    && (!OddX2(headers[k].flags, |packets[k]|) ==>
          out[k].Some? && (out[k].value == packets[k] <==> Faithful(cfg, headers[k])))
  }

  predicate SafeAt(cfg: Config, st: State, packets: seq<seq<byte>>, i: nat)
    requires i < |packets|
  {
    SafeToSend(cfg, |Last(cfg, st, packets, i)|, |SecondLast(cfg, st, packets, i)|, |packets[i]|)
  }

  /** Without a dictionary packet `i` of a run is never dual state, and it is faithful exactly unless
      compact headers meet order-2 residuals that win and shrink. */
  ghost predicate PlainAt(cfg: Config, st: State, packets: seq<seq<byte>>, h: PacketHeader, i: nat)
    requires ConfigOk(cfg) && StateOk(cfg, st) && i < |packets|
  {
    && !OddX2(h.flags, |packets[i]|)
    && (Faithful(cfg, h) <==> !(cfg.compact && SendsOrder2(cfg, StateAfter(cfg, st, packets[..i]), packets[i])))
  }

  /** Two contexts that start together, any packets: as long as what the encoder sent was faithful,
      every packet arrives and the contexts stay equal, in history, predictors, sequence number,
      counters, tables and LZP model; the first packet that is not faithful is the first that can
      fail.  Packets that are safe to send are faithful.  `headers` are those the encoder wrote. */
  method Exchange(sender: Endpoint, receiver: Endpoint, packets: seq<seq<byte>>)
    returns (out: seq<Option<seq<byte>>>, ghost headers: seq<PacketHeader>)
    requires sender.Valid() && receiver.Valid() && sender.cfg == receiver.cfg
    requires {sender, sender.ring, sender.ring.data} !! {receiver, receiver.ring, receiver.ring.data}
    requires sender.View() == receiver.View()
    requires forall i :: 0 <= i < |packets| ==> |packets[i]| <= MAX_PACKET
    modifies sender, sender.ring, sender.ring.data, receiver, receiver.ring, receiver.ring.data
    ensures |out| == |headers| == |packets|
    ensures sender.Valid() && receiver.Valid()
    ensures sender.View() == StateAfter(sender.cfg, old(sender.View()), packets)
    ensures Clean(sender.cfg, headers, |packets|) ==> receiver.View() == sender.View()
    ensures RunFacts(sender.cfg, old(sender.View()), packets, out, headers)
  {
    hide Advance, StateOk, ConfigOk, Faithful, SafeToSend, Exact, Clean, SendsOrder2, RunFacts;
    ghost var cfg, st0 := sender.cfg, sender.View();
    out, headers := [], [];
    NoFacts(cfg, st0);
    for i := 0 to |packets|
      invariant |out| == |headers| == i && sender.Valid() && receiver.Valid()
      invariant sender.View() == StateAfter(cfg, st0, packets[..i])
      invariant Clean(cfg, headers, i) ==> receiver.View() == sender.View()
      invariant RunFacts(cfg, st0, packets[..i], out, headers)
    {
      assert packets[..i + 1] == packets[..i] + [packets[i]];
      assert packets[..i + 1][..i] == packets[..i];
      var got;
      ghost var h;
      got, h := ExchangeOne(sender, receiver, packets[i]);
      FactsNext(cfg, st0, packets[..i], packets[i], out, got, headers, h);
      out, headers := out + [got], headers + [h];
    }
    assert packets[..|packets|] == packets;
  }

  /** What a run gives for its packets: those after faithful ones exactly, safe ones faithful, and
      without a dictionary the exact condition for each. */
  ghost predicate RunFacts(cfg: Config, st: State, packets: seq<seq<byte>>, out: seq<Option<seq<byte>>>,
                           headers: seq<PacketHeader>)
    requires ConfigOk(cfg) && StateOk(cfg, st)
  {
    && |out| == |headers| == |packets|
    && (forall k :: 0 <= k < |packets| && Clean(cfg, headers, k) ==> Exact(cfg, packets, out, headers, k))
    && (forall k :: 0 <= k < |packets| && SafeAt(cfg, st, packets, k) ==> Faithful(cfg, headers[k]))
    && (cfg.dict.None? ==> forall k :: 0 <= k < |packets| ==> PlainAt(cfg, st, packets, headers[k], k))
  }

  lemma NoFacts(cfg: Config, st: State)
    requires ConfigOk(cfg) && StateOk(cfg, st)
    ensures RunFacts(cfg, st, [], [], []) && Clean(cfg, [], 0)
  {
  }

  lemma FactsNext(cfg: Config, st: State, packets: seq<seq<byte>>, p: seq<byte>, out: seq<Option<seq<byte>>>,
                  got: Option<seq<byte>>, headers: seq<PacketHeader>, h: PacketHeader)
    requires ConfigOk(cfg) && StateOk(cfg, st) && RunFacts(cfg, st, packets, out, headers)
    requires |out| == |headers| == |packets|
    requires Clean(cfg, headers, |packets|) ==> Exact(cfg, [p], [got], [h], 0)
    requires var now := StateAfter(cfg, st, packets);
             && (SafeToSend(cfg, |now.prev|, |now.prev2|, |p|) ==> Faithful(cfg, h))
             && (cfg.dict.None? ==> !OddX2(h.flags, |p|))
             && (cfg.dict.None? ==> (Faithful(cfg, h) <==> !(cfg.compact && SendsOrder2(cfg, now, p))))
    ensures RunFacts(cfg, st, packets + [p], out + [got], headers + [h])
    ensures Clean(cfg, headers + [h], |packets| + 1) <==> Clean(cfg, headers, |packets|) && Faithful(cfg, h)
  {
    hide ConfigOk, StateOk, Faithful, SafeToSend, SendsOrder2, Exact, Clean, StateAfter;
    var n, all := |packets|, packets + [p];
    StepExact(cfg, packets, p, out, got, headers, h);
    forall k | 0 <= k <= n
      ensures SafeAt(cfg, st, all, k) ==> Faithful(cfg, (headers + [h])[k])
      ensures cfg.dict.None? ==> PlainAt(cfg, st, all, (headers + [h])[k], k)
    {
      if k < n {
        assert all[..k] == packets[..k];
        assert SafeAt(cfg, st, all, k) == SafeAt(cfg, st, packets, k);
        assert cfg.dict.None? ==> PlainAt(cfg, st, packets, headers[k], k);
      } else {
        assert all[..n] == packets;
        Remembered(cfg, st, all, n);
      }
    }
  }

  /** One packet from a context to another. */
  method ExchangeOne(sender: Endpoint, receiver: Endpoint, p: seq<byte>)
    returns (got: Option<seq<byte>>, ghost h: PacketHeader)
    requires sender.Valid() && receiver.Valid() && sender.cfg == receiver.cfg && |p| <= MAX_PACKET
    requires {sender, sender.ring, sender.ring.data} !! {receiver, receiver.ring, receiver.ring.data}
    modifies sender, sender.ring, sender.ring.data, receiver, receiver.ring, receiver.ring.data
    ensures sender.Valid() && receiver.Valid()
    ensures sender.View() == Advance(sender.cfg, old(sender.View()), p)
    ensures old(sender.View()) == old(receiver.View()) ==> Exact(sender.cfg, [p], [got], [h], 0)
    ensures old(sender.View()) == old(receiver.View()) && Faithful(sender.cfg, h) ==> receiver.View() == sender.View()
    ensures SafeToSend(sender.cfg, old(|sender.prev|), old(|sender.prev2|), |p|) ==> Faithful(sender.cfg, h)
    ensures sender.cfg.dict.None? ==> !OddX2(h.flags, |p|)
    ensures sender.cfg.dict.None? ==>
              (Faithful(sender.cfg, h) <==> !(sender.cfg.compact && SendsOrder2(sender.cfg, old(sender.View()), p)))
  {
    hide Received, Advance, StateOk, ConfigOk, Faithful, WireSeq, SafeToSend, RepeatedByte, SendsOrder2, PlainChoice;
    ghost var st := sender.View();
    var pkt;
    pkt, h := sender.Compress(p, |p| + HEADER_SIZE);
    got := receiver.Decompress(pkt.value, MAX_PACKET);
    assert ReceivedAs(sender.cfg, st, p, pkt.value, MAX_PACKET, h);
    FaithfulNotOdd(sender.cfg, h);
  }

  lemma FaithfulNotOdd(cfg: Config, h: PacketHeader)
    ensures Faithful(cfg, h) ==> !OddX2(h.flags, h.origSize)
  {
  }

  lemma StepExact(cfg: Config, packets: seq<seq<byte>>, p: seq<byte>, out: seq<Option<seq<byte>>>,
                  got: Option<seq<byte>>, headers: seq<PacketHeader>, h: PacketHeader)
    requires |out| == |headers| == |packets|
    requires forall k :: 0 <= k < |packets| && Clean(cfg, headers, k) ==> Exact(cfg, packets, out, headers, k)
    requires Clean(cfg, headers, |packets|) ==> Exact(cfg, [p], [got], [h], 0)
    ensures forall k :: 0 <= k <= |packets| && Clean(cfg, headers + [h], k) ==>
              Exact(cfg, packets + [p], out + [got], headers + [h], k)
    ensures Clean(cfg, headers + [h], |packets| + 1) <==> Clean(cfg, headers, |packets|) && Faithful(cfg, h)
  {
    hide Faithful;
    var all := headers + [h];
    forall k | 0 <= k <= |packets| && Clean(cfg, all, k)
      ensures Exact(cfg, packets + [p], out + [got], all, k)
    {
      assert forall i :: 0 <= i < k ==> all[i] == headers[i];
      assert Clean(cfg, headers, k);
      if k == |packets| {
        assert Exact(cfg, [p], [got], [h], 0);
      }
    }
    if Clean(cfg, all, |packets| + 1) {
      assert forall i :: 0 <= i < |packets| ==> all[i] == headers[i];
      assert all[|packets|] == h;
    }
  }

  /** Every packet of a run that is safe to send is delivered, and the contexts agree afterwards. */
  method Deliver(sender: Endpoint, receiver: Endpoint, packets: seq<seq<byte>>) returns (out: seq<seq<byte>>)
    requires sender.Valid() && receiver.Valid() && sender.cfg == receiver.cfg
    requires {sender, sender.ring, sender.ring.data} !! {receiver, receiver.ring, receiver.ring.data}
    requires sender.View() == receiver.View()
    requires forall i :: 0 <= i < |packets| ==> |packets[i]| <= MAX_PACKET
    requires forall i :: 0 <= i < |packets| ==> SafeAt(sender.cfg, sender.View(), packets, i)
    modifies sender, sender.ring, sender.ring.data, receiver, receiver.ring, receiver.ring.data
    ensures out == packets
    ensures sender.Valid() && receiver.Valid()
    ensures sender.View() == receiver.View() == StateAfter(sender.cfg, old(sender.View()), packets)
  {
    hide SafeToSend, Faithful, StateOk, ConfigOk, PlainAt;
    ghost var headers;
    var got;
    got, headers := Exchange(sender, receiver, packets);
    assert forall k :: 0 <= k <= |packets| ==> Clean(sender.cfg, headers, k);
    out := [];
    for i := 0 to |packets|
      modifies {}
      invariant out == packets[..i]
    {
      assert Exact(sender.cfg, packets, got, headers, i);
      out := out + [got[i].value];
    }
  }

  // ---------------------------------------------------------------- a packet that is lost

  /** A linear ramp: zeros, ones, twos.  Order 2 predicts every byte of the third packet, order 1 none. */
  lemma RampSendsOrder2(cfg: Config, st: State, n: nat)
    requires cfg.adaptive && DeltaApplies(cfg, n, n) && st.prev == Run(1, n) && st.prev2 == Run(0, n)
    ensures SendsOrder2(cfg, st, Run(2, n))
  {
    hide DeltaEncode, Lz77.Greedy, Simd.Occurrences;
    var src := Run(2, n);
    var o1, o2 := DeltaEncode(false, st.prev2, st.prev, src), DeltaEncode(true, st.prev2, st.prev, src);
    forall i | 0 <= i < n
      ensures o1[i] != 0 && o2[i] == 0
    {
      ZeroResidual(false, st.prev2, st.prev, src, i);
      ZeroResidual(true, st.prev2, st.prev, src, i);
    }
    assert o2 == Run(0, n);
    NoZeros(o1);
    AllZeros(n);
    Lz77.RunShrinks(0, n);
  }

  lemma {:induction false} NoZeros(s: seq<byte>)
    requires forall i :: 0 <= i < |s| ==> s[i] != 0
    ensures Simd.Occurrences(s, 0) == 0
  {
    if s != [] {
      NoZeros(s[..|s| - 1]);
    }
  }

  lemma {:induction false} AllZeros(n: nat)
    ensures Simd.Occurrences(Run(0, n), 0) == n
  {
    if n > 0 {
      AllZeros(n - 1);
      assert Run(0, n)[..n - 1] == Run(0, n - 1);
    }
  }

  /** Without a dictionary, sizes that are not safe to send are sizes that lose a packet: two contexts
      that start together exchange three packets of these sizes, the first two arrive, the third is
      decoded to other bytes. */
  method Lose(cfg: Config, before2: nat, before: nat, n: nat)
    returns (packets: seq<seq<byte>>, out: seq<Option<seq<byte>>>)
    requires ConfigOk(cfg) && cfg.dict.None? && n <= MAX_PACKET && !SafeToSend(cfg, before, before2, n)
    ensures |packets| == |out| == 3
    ensures |packets[0]| == before2 && |packets[1]| == before && |packets[2]| == n
    ensures out[0] == Some(packets[0]) && out[1] == Some(packets[1])
    ensures out[2].Some? && out[2].value != packets[2]
  {
    packets := [Run(0, n), Run(1, n), Run(2, n)];
    var sender := new Endpoint(cfg);
    var receiver := new Endpoint(cfg);
    ghost var headers;
    out, headers := Exchange(sender, receiver, packets);
    RampFaithful(cfg, packets, headers);
    assert Exact(cfg, packets, out, headers, 0);
    assert Exact(cfg, packets, out, headers, 1);
    assert Exact(cfg, packets, out, headers, 2);
  }

  lemma RampFaithful(cfg: Config, packets: seq<seq<byte>>, headers: seq<PacketHeader>)
    requires ConfigOk(cfg) && StateOk(cfg, Initial(cfg)) && |packets| == |headers| == 3
    requires cfg.compact && cfg.adaptive && cfg.stateful
    requires var n := |packets[2]|; DeltaApplies(cfg, n, n) && packets == [Run(0, n), Run(1, n), Run(2, n)]
    requires forall i :: 0 <= i < 3 ==> PlainAt(cfg, Initial(cfg), packets, headers[i], i)
    ensures Clean(cfg, headers, 0) && Clean(cfg, headers, 1) && Clean(cfg, headers, 2) && !Faithful(cfg, headers[2])
    ensures forall i :: 0 <= i < 3 ==> !OddX2(headers[i].flags, |packets[i]|)
  {
    hide Faithful, ConfigOk, StateOk, Order2Wins;
    var n := |packets[2]|;
    forall i | 0 <= i < 3
      ensures Faithful(cfg, headers[i]) <==> i < 2
    {
      var st := StateAfter(cfg, Initial(cfg), packets[..i]);
      Remembered(cfg, Initial(cfg), packets, i);
      if i == 2 {
        RampSendsOrder2(cfg, st, n);
      } else {
        EarlyOrder1(cfg, st, packets[i]);
      }
    }
  }

  lemma EarlyOrder1(cfg: Config, st: State, src: seq<byte>)
    requires |st.prev2| != |src|
    ensures !SendsOrder2(cfg, st, src)
  {
    hide Lz77.Greedy, DeltaEncode;
  }

  // ---------------------------------------------------------------- from training to delivery

  /** Safety with a trained dictionary, which always has an LZP table: an odd packet from 256 bytes
      on is at risk only where the table is not used on it first, order 2 only at 8 bytes. */
  predicate SafeWhenTrained(cfg: Config, before: nat, before2: nat, n: nat) {
    && (n % 2 == 0 || n < 256 || cfg.bigram ||
        if DeltaApplies(cfg, before, n) then cfg.compact else cfg.fast || cfg.arenaSize >= n)
    && !(cfg.compact && cfg.adaptive && n == 8 == before2 && DeltaApplies(cfg, before, n))
  }

  lemma TrainedSafety(cfg: Config, d: Dict, before: nat, before2: nat, n: nat)
    requires d.lzp.Some?
    ensures SafeToSend(cfg.(dict := Some(d)), before, before2, n) <==> SafeWhenTrained(cfg, before, before2, n)
  {
  }

  /** The life of a dictionary: trained on one side, saved, loaded on the other (whatever bytes follow
      the blob there), and used by both.  Options other than the dictionary are those of `cfg`. */
  method Deploy(crc: Dictionary.Checksum, training: seq<seq<byte>>, modelId: byte, cfg: Config, extra: seq<byte>,
                packets: seq<seq<byte>>) returns (out: seq<seq<byte>>)
    requires |training| <= Training.PACKET_LIMIT && modelId != 0 && modelId != 255
    requires (cfg.stateful <==> cfg.ringSize > 0) && (cfg.adaptive ==> cfg.stateful)
    requires forall i :: 0 <= i < |packets| ==> |packets[i]| <= MAX_PACKET
    requires forall i :: 0 <= i < |packets| ==>
               SafeWhenTrained(cfg, |Last(cfg, Initial(cfg), packets, i)|, |SecondLast(cfg, Initial(cfg), packets, i)|,
                               |packets[i]|)
    ensures out == packets
  {
    hide Dictionary.Load, Dictionary.WellFormed, Dictionary.Body, Dictionary.Blob, DictOk, SafeToSend, SafeWhenTrained;
    var trained := Dictionary.Train(crc, training, modelId);
    var d := trained.value;
    var blob := Dictionary.Save(d);
    Dictionary.SaveLoad(crc, d, extra);
    var loaded := Dictionary.LoadBlob(crc, blob[..] + extra);
    var sender := new Endpoint(cfg.(dict := Some(d)));
    var receiver := new Endpoint(cfg.(dict := Some(loaded.dict)));
    forall i | 0 <= i < |packets|
      ensures SafeAt(sender.cfg, sender.View(), packets, i)
    {
      TrainedSafety(cfg, d, |Last(cfg, Initial(cfg), packets, i)|, |SecondLast(cfg, Initial(cfg), packets, i)|,
                    |packets[i]|);
    }
    out := Deliver(sender, receiver, packets);
  }
}
