/** Packet headers: the 8-byte legacy header and the 2- or 4-byte compact header with its packet
    type byte (netc_internal.h). */
module Header {
  import opened Machine

  datatype Flags = Flags(delta: bool, bigram: bool, passthru: bool, dictId: bool,
                         mreg: bool, rle: bool, x2: bool, lz77: bool)

  const BASE: Flags := Flags(false, false, false, true, false, false, false, false)

  const ALG_TANS: byte := 1
  const ALG_LZ77X: byte := 3
  const ALG_PCTX: byte := 4
  const ALG_LZP: byte := 5
  const ALG_TANS_10: byte := 6
  const ALG_PASSTHRU: byte := 255

  const HEADER_SIZE: nat := 8

  /** The low nibble of the algorithm byte names the codec, the high nibble a table bucket. */
  datatype PacketHeader = PacketHeader(origSize: nat, compSize: nat, flags: Flags, alg: byte, modelId: byte,
                                       seqNo: byte) {
    predicate Valid() {
      origSize <= MAX_PACKET && compSize <= MAX_PACKET
    }
  }

  function Bit(b: bool, v: byte): byte {
    if b then v else 0
  }

  function PackBits(s: seq<bool>): (v: nat)
    ensures v < Pow2(|s|)
  {
    if s == [] then 0 else (if s[0] then 1 else 0) + 2 * PackBits(s[1..])
  }

  function UnpackBits(v: nat, n: nat): (s: seq<bool>)
    ensures |s| == n
  {
    if n == 0 then [] else [v % 2 == 1] + UnpackBits(v / 2, n - 1)
  }

  lemma {:induction false} UnpackPack(s: seq<bool>)
    ensures UnpackBits(PackBits(s), |s|) == s
  {
    if s != [] {
      UnpackPack(s[1..]);
      assert PackBits(s) / 2 == PackBits(s[1..]);
      assert s == [s[0]] + s[1..];
    }
  }

  /** Bit 0 is DELTA, bit 7 is LZ77. */
  function FlagsByte(f: Flags): (b: byte) {
    Pow2Values();
    PackBits([f.delta, f.bigram, f.passthru, f.dictId, f.mreg, f.rle, f.x2, f.lz77])
  }

  function FlagsOf(b: byte): (f: Flags) {
    var s := UnpackBits(b, 8);
    Flags(s[0], s[1], s[2], s[3], s[4], s[5], s[6], s[7])
  }

  /** The bits of the flags byte: 0x01 for delta, 0x02 for bigram and so on up to 0x80 for LZ77. */
  lemma FlagBits(f: Flags)
    ensures FlagsByte(f) ==
            Bit(f.delta, 1) + 0x02 * Bit(f.bigram, 1) + 0x04 * Bit(f.passthru, 1) + 0x08 * Bit(f.dictId, 1)
            + 0x10 * Bit(f.mreg, 1) + 0x20 * Bit(f.rle, 1) + 0x40 * Bit(f.x2, 1) + 0x80 * Bit(f.lz77, 1)
  {
    hide PackBits, Pow2, Shl, Bit, FlagsByte;
    var s := FlagsPacked(f);
    PackEight(s);
    SameBit(s[0], f.delta);
    SameBit(s[1], f.bigram);
    SameBit(s[2], f.passthru);
    SameBit(s[3], f.dictId);
    SameBit(s[4], f.mreg);
    SameBit(s[5], f.rle);
    SameBit(s[6], f.x2);
    SameBit(s[7], f.lz77);
  }

  lemma SameBit(a: bool, b: bool)
    requires a == b
    ensures Bit(a, 1) == Bit(b, 1)
  {
  }

  lemma FlagsPacked(f: Flags) returns (s: seq<bool>)
    ensures FlagsByte(f) == PackBits(s) && |s| == 8
    ensures s[0] == f.delta && s[1] == f.bigram && s[2] == f.passthru && s[3] == f.dictId
    ensures s[4] == f.mreg && s[5] == f.rle && s[6] == f.x2 && s[7] == f.lz77
  {
    hide PackBits, Pow2, Shl;
    s := [f.delta, f.bigram, f.passthru, f.dictId, f.mreg, f.rle, f.x2, f.lz77];
  }

  lemma PackEight(s: seq<bool>)
    requires |s| == 8
    ensures PackBits(s) == Bit(s[0], 1) + 2 * Bit(s[1], 1) + 4 * Bit(s[2], 1) + 8 * Bit(s[3], 1) + 16 * Bit(s[4], 1)
                           + 32 * Bit(s[5], 1) + 64 * Bit(s[6], 1) + 128 * Bit(s[7], 1)
  {
    hide PackBits, Bit, Pow2, Shl;
    PackFour(s, 0);
    PackFour(s, 4);
    PackNone(s);
  }

  lemma PackFour(s: seq<bool>, k: nat)
    requires k + 4 <= |s|
    ensures PackBits(s[k..]) == Bit(s[k], 1) + 2 * Bit(s[k + 1], 1) + 4 * Bit(s[k + 2], 1) + 8 * Bit(s[k + 3], 1)
                                + 16 * PackBits(s[k + 4..])
  {
    hide PackBits, Bit, Pow2, Shl;
    PackTwo(s, k);
    PackTwo(s, k + 2);
  }

  lemma PackTwo(s: seq<bool>, k: nat)
    requires k + 2 <= |s|
    ensures PackBits(s[k..]) == Bit(s[k], 1) + 2 * Bit(s[k + 1], 1) + 4 * PackBits(s[k + 2..])
  {
    hide PackBits, Bit, Pow2, Shl;
    PackFrom(s, k);
    PackFrom(s, k + 1);
  }

  lemma PackNone(s: seq<bool>)
    ensures PackBits(s[|s|..]) == 0 && s[0..] == s
  {
  }

  lemma PackFrom(s: seq<bool>, k: nat)
    requires k < |s|
    ensures PackBits(s[k..]) == Bit(s[k], 1) + 2 * PackBits(s[k + 1..])
  {
    assert s[k..][1..] == s[k + 1..];
  }

  lemma FlagsRoundTrip(f: Flags)
    ensures FlagsOf(FlagsByte(f)) == f
  {
    hide PackBits, UnpackBits;
    UnpackPack([f.delta, f.bigram, f.passthru, f.dictId, f.mreg, f.rle, f.x2, f.lz77]);
  }

  // ---------------------------------------------------------------- legacy header

  function WriteLegacy(h: PacketHeader): (s: seq<byte>)
    requires h.Valid()
    ensures |s| == HEADER_SIZE
  {
    [h.origSize % 256, h.origSize / 256, h.compSize % 256, h.compSize / 256,
     FlagsByte(h.flags), h.alg, h.modelId, h.seqNo]
  }

  function ReadLegacy(s: seq<byte>): (h: PacketHeader)
    requires |s| >= HEADER_SIZE
    ensures h.Valid()
  {
    PacketHeader(s[0] as int + 256 * (s[1] as int), s[2] as int + 256 * (s[3] as int),
                 FlagsOf(s[4]), s[5], s[6], s[7])
  }

  lemma LegacyRoundTrip(h: PacketHeader, payload: seq<byte>)
    requires h.Valid()
    ensures ReadLegacy(WriteLegacy(h) + payload) == h
  {
    hide FlagsByte, FlagsOf;
    FlagsRoundTrip(h.flags);
  }

  // ---------------------------------------------------------------- compact packet type

  /** netc_compact_type_encode; 255 is "unrepresentable". */
  function CompactType(f: Flags, alg: byte): (t: byte)
  {
    var kind, bucket := alg % 16, alg / 16;
    var delta := Bit(f.delta, 1);
    if f.passthru then
      if f.lz77 then 0x01 + delta else if f.rle then 0x03 else 0x00
    else if kind == ALG_PCTX then
      var lzp := if bucket != 0 then 1 else 0;
      if f.rle then 0xD4 + lzp + Bit(f.bigram, 2)
      else if f.bigram then 0xD0 + delta + 2 * lzp
      else 0x04 + delta + 2 * lzp
    else if kind == ALG_LZ77X then 0x0E
    else if f.mreg then
      (if f.bigram then 0x0C else if f.x2 then 0x0A else 0x08) + delta
    else if kind == ALG_TANS then
      (if f.bigram && f.delta then 0x40 else if f.bigram then 0x30
       else if f.x2 && f.delta then 0x60 else if f.x2 then 0x50
       else if f.delta then 0x20 else 0x10) + bucket
    else if kind == ALG_LZP then
      (if f.bigram && f.delta then 0xA0 else if f.bigram then 0x90
       else if f.delta then 0x80 else 0x70) + bucket
    else if kind == ALG_TANS_10 then
      (if f.delta then 0xC0 else 0xB0) + bucket
    else 0xFF
  }

  /** netc_pkt_type_table; the zero-initialised slots and 0xFF are invalid. */
  function TypeEntry(t: byte): (r: Option<(Flags, byte)>)
  {
    var lo := t % 16;
    var raw := BASE.(passthru := true);
    if t == 0x00 then Some((raw, ALG_PASSTHRU))
    else if t <= 0x02 then Some((raw.(lz77 := true, delta := t == 0x02), ALG_PASSTHRU))
    else if t == 0x03 then Some((raw.(rle := true), ALG_PASSTHRU))
    else if t <= 0x07 then Some((BASE.(delta := t % 2 == 1), if t >= 0x06 then ALG_PCTX + 16 else ALG_PCTX))
    else if t <= 0x0D then
      Some((BASE.(mreg := true, delta := t % 2 == 1, x2 := 0x0A <= t <= 0x0B, bigram := t >= 0x0C), ALG_TANS))
    else if t == 0x0E then Some((BASE, ALG_LZ77X))
    else if t == 0x0F then None
    else if t < 0x70 then
      var row := t / 16;
      Some((BASE.(delta := row == 2 || row == 4 || row == 6, bigram := row == 3 || row == 4, x2 := row >= 5),
            ALG_TANS + 16 * lo))
    else if t < 0xB0 then
      var row := t / 16;
      Some((BASE.(delta := row == 8 || row == 10, bigram := row >= 9), ALG_LZP + 16 * lo))
    else if t < 0xD0 then Some((BASE.(delta := t >= 0xC0), ALG_TANS_10 + 16 * lo))
    else if t < 0xD4 then
      Some((BASE.(bigram := true, delta := t % 2 == 1), if t >= 0xD2 then ALG_PCTX + 16 else ALG_PCTX))
    else if t < 0xD8 then
      Some((BASE.(delta := true, rle := true, bigram := t >= 0xD6), if t % 2 == 1 then ALG_PCTX + 16 else ALG_PCTX))
    else None
  }

  /** The flag and algorithm combinations a compact-mode encoder emits. */
  predicate Emitted(f: Flags, alg: byte) {
    && f.dictId && !f.mreg && (f.rle ==> f.delta)
    && if f.passthru then alg == ALG_PASSTHRU && !f.bigram && !f.x2 && (f.lz77 || !f.delta)
       else
         && !f.lz77
         && (alg == ALG_LZ77X ==> !f.delta && !f.bigram && !f.x2)
         && (alg == ALG_LZ77X || alg == ALG_PCTX || alg == ALG_PCTX + 16 ||
             alg % 16 == ALG_TANS || alg % 16 == ALG_LZP || alg % 16 == ALG_TANS_10)
         && (f.x2 ==> alg % 16 == ALG_TANS && !f.bigram)
         && (alg % 16 == ALG_TANS_10 ==> !f.bigram)
  }

  /** The order-2 delta signal, the reused RLE bit, survives the type byte only on PCTX packets. */
  predicate KeepsOrder2(f: Flags, alg: byte) {
    f.rle ==> !f.passthru && alg % 16 == ALG_PCTX
  }

  /** The type byte is lossless on an emitted combination exactly when it keeps the order. */
  lemma CompactTypeExact(f: Flags, alg: byte)
    requires Emitted(f, alg)
    ensures TypeEntry(CompactType(f, alg)) == Some((f, alg)) <==> KeepsOrder2(f, alg)
  {
    var kind, bucket := alg % 16, alg / 16;
    if !f.passthru && (kind == ALG_TANS || kind == ALG_LZP || kind == ALG_TANS_10) {
      var t := CompactType(f, alg);
      assert t % 16 == bucket;
    }
  }

  /** The flags that arrive: those sent, without an order mark the type byte cannot hold. */
  function Kept(f: Flags, alg: byte): (r: Flags) {
    if KeepsOrder2(f, alg) then f else f.(rle := false)
  }

  /** Outside PCTX an order-2 packet always arrives marked as order 1, otherwise unchanged. */
  lemma Order2LostOutsidePctx(f: Flags, alg: byte)
    requires Emitted(f, alg) && f.rle && (f.passthru || alg % 16 != ALG_PCTX)
    ensures TypeEntry(CompactType(f, alg)) == Some((f.(rle := false), alg)) && f != f.(rle := false)
  {
    CompactTypeExact(f.(rle := false), alg);
    assert CompactType(f, alg) == CompactType(f.(rle := false), alg);
  }

  // ---------------------------------------------------------------- compact header

  function CompactSize(origSize: nat): nat {
    if origSize <= 127 then 2 else 4
  }

  function WriteCompact(t: byte, origSize: nat): (s: seq<byte>)
    requires origSize <= MAX_PACKET
    ensures |s| == CompactSize(origSize)
  {
    if origSize <= 127 then [t, origSize] else [t, 0x80, origSize % 256, origSize / 256]
  }

  function HeaderBytes(compact: bool, h: PacketHeader): (s: seq<byte>)
    requires h.Valid()
    ensures |s| == if compact then CompactSize(h.origSize) else HEADER_SIZE
  {
    if compact then WriteCompact(CompactType(h.flags, h.alg), h.origSize) else WriteLegacy(h)
  }

  /** validate_header up to the buffer checks: the header and where the payload starts.  A compact
      header leaves out what the receiver can derive. */
  function ReadHeader(compact: bool, pkt: seq<byte>, modelId: byte, seqNo: byte): (r: Option<(PacketHeader, nat)>)
    ensures r.Some? ==> r.value.1 <= |pkt|
  {
    if !compact then
      if |pkt| < HEADER_SIZE then None else Some((ReadLegacy(pkt), HEADER_SIZE))
    else if |pkt| < 2 then None
    else
      var e := TypeEntry(pkt[0]);
      if e.None? then None
      else if pkt[1] < 128 then
        Some((PacketHeader(pkt[1], (|pkt| - 2) % 65536, e.value.0, e.value.1, modelId, seqNo), 2))
      else if |pkt| < 4 then None
      else
        Some((PacketHeader(pkt[2] as int + 256 * (pkt[3] as int), (|pkt| - 4) % 65536,
                           e.value.0, e.value.1, modelId, seqNo), 4))
  }

  /** A receiver with the same model and sequence number reads back the header that was written, up
      to the order mark a compact header drops. */
  lemma HeaderRoundTrip(compact: bool, h: PacketHeader, payload: seq<byte>)
    requires h.Valid() && |payload| == h.compSize
    requires compact ==> Emitted(h.flags, h.alg)
    ensures ReadHeader(compact, HeaderBytes(compact, h) + payload, h.modelId, h.seqNo)
            == Some((if compact then h.(flags := Kept(h.flags, h.alg)) else h, |HeaderBytes(compact, h)|))
  {
    hide CompactType, TypeEntry, WriteLegacy, ReadLegacy, Emitted;
    if compact {
      CompactTypeExact(h.flags, h.alg);
      if !KeepsOrder2(h.flags, h.alg) {
        Order2LostOutsidePctx(h.flags, h.alg);
      }
    } else {
      LegacyRoundTrip(h, payload);
    }
  }
}
