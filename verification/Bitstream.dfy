/** The bit-level I/O of the entropy coder (src/util/netc_bitstream.h).

    The writer packs groups of bits forward, least significant bit first; the reader takes
    them back from the end of the buffer.  Their common abstraction is `Bits`, a stack of
    bits: a write pushes a group, a read pops one. */
module Bitstream {
  import opened Machine

  /** The lowest bit of `value` was pushed first; `width` bits are on the stack. */
  datatype Bits = Bits(value: nat, width: nat) {
    predicate Valid() {
      value < Pow2(width)
    }
  }

  const EMPTY: Bits := Bits(0, 0)

  function Push(b: Bits, v: nat, nb: nat): Bits {
    Bits(b.value + Shl(v, b.width), b.width + nb)
  }

  function Top(b: Bits, nb: nat): nat
    requires nb <= b.width
  {
    Shr(b.value, b.width - nb)
  }

  function Pop(b: Bits, nb: nat): Bits
    requires nb <= b.width
  {
    Bits(Low(b.value, b.width - nb), b.width - nb)
  }

  /** A read of the width just written returns the value just written and uncovers the
      stack below it. */
  lemma PopPush(b: Bits, v: nat, nb: nat)
    requires b.Valid() && v < Pow2(nb)
    ensures Push(b, v, nb).Valid()
    ensures Top(Push(b, v, nb), nb) == v && Pop(Push(b, v, nb), nb) == b
  {
    hide Shl, Shr, Low, LeValue;
    ShlLess(v, b.value, Pow2(nb), b.width);
    ShlShl(1, nb, b.width);
    Unsplit(v, b.value, b.width);
  }

  lemma PopValid(b: Bits, nb: nat)
    requires b.Valid() && nb <= b.width
    ensures Pop(b, nb).Valid() && Top(b, nb) < Pow2(nb)
  {
    hide Shl, Shr, Low, LeValue;
    ShlShl(1, nb, b.width - nb);
    ShrBelow(b.value, Pow2(nb), b.width - nb);
    Split(b.value, b.width - nb);
  }

  /** The stack after a sequence of (value, width) writes. */
  function PushAll(writes: seq<(nat, nat)>): (b: Bits)
  {
    if writes == [] then EMPTY
    else
      var n := |writes| - 1;
      Push(PushAll(writes[..n]), writes[n].0, writes[n].1)
  }

  ghost predicate Fitting(writes: seq<(nat, nat)>) {
    forall i :: 0 <= i < |writes| ==> writes[i].0 < Pow2(writes[i].1)
  }

  /** Reads the widths from last to first; the values come out in the order of the widths. */
  function ReadBack(b: Bits, widths: seq<nat>): (r: Option<(seq<nat>, Bits)>)
    decreases |widths|
  {
    if widths == [] then Some(([], b))
    else
      var n := |widths| - 1;
      if widths[n] > b.width then None
      else
        var rest := ReadBack(Pop(b, widths[n]), widths[..n]);
        if rest.None? then None
        else Some((rest.value.0 + [Top(b, widths[n])], rest.value.1))
  }

  lemma {:induction false} PushAllValid(writes: seq<(nat, nat)>)
    requires Fitting(writes)
    ensures PushAll(writes).Valid()
  {
    if writes != [] {
      var n := |writes| - 1;
      PushAllValid(writes[..n]);
      PopPush(PushAll(writes[..n]), writes[n].0, writes[n].1);
    }
  }

  lemma {:induction false} ReadBackPushAll(writes: seq<(nat, nat)>, widths: seq<nat>, values: seq<nat>)
    requires Fitting(writes) && |values| == |widths| == |writes|
    requires forall i :: 0 <= i < |writes| ==> widths[i] == writes[i].1 && values[i] == writes[i].0
    ensures ReadBack(PushAll(writes), widths) == Some((values, EMPTY))
  {
    hide Shl, Shr, Low, Pop, Top;
    if writes != [] {
      var n := |writes| - 1;
      PushAllValid(writes[..n]);
      PopPush(PushAll(writes[..n]), writes[n].0, writes[n].1);
      ReadBackPushAll(writes[..n], widths[..n], values[..n]);
      assert values == values[..n] + [values[n]];
    }
  }

  /** Stack law: after any writes and a flush, a reader of the bytes that asks for the widths in
      reverse gets every value back and is then empty, so that one more read fails. */
  lemma StackLaw(writes: seq<(nat, nat)>, widths: seq<nat>, values: seq<nat>)
    requires Fitting(writes) && |values| == |widths| == |writes|
    requires forall i :: 0 <= i < |writes| ==> widths[i] == writes[i].1 && values[i] == writes[i].0
    ensures var b := OfBytes(ToBytes(PushAll(writes)));
            b.Some? && ReadBack(b.value, widths) == Some((values, EMPTY))
    ensures forall nb: nat :: nb > 0 ==> ReadBack(EMPTY, [nb]).None?
  {
    PushAllValid(writes);
    OfBytesToBytes(PushAll(writes));
    ReadBackPushAll(writes, widths, values);
  }

  // ---------------------------------------------------------------- flushed streams

  /** The bytes a flush leaves behind: the bits, a sentinel 1-bit and zero padding. */
  function ToBytes(b: Bits): (s: seq<byte>)
    ensures |s| == b.width / 8 + 1
  {
    LeBytes(b.value + Pow2(b.width), b.width / 8 + 1)
  }

  /** What a reader finds in a byte string: nothing in an empty one, no stack at all when the
      last byte carries no sentinel. */
  function OfBytes(s: seq<byte>): (r: Option<Bits>)
    ensures r.Some? ==> r.value.Valid()
  {
    if s == [] then Some(EMPTY)
    else
      var last := s[|s| - 1];
      if last == 0 then None
      else
        var w := 8 * (|s| - 1) + FloorLog2(last);
        SentinelWithin(s);
        Some(Bits(LeValue(s) - Pow2(w), w))
  }

  lemma NoSentinel(s: seq<byte>)
    ensures s == [] ==> OfBytes(s) == Some(EMPTY)
    ensures s != [] && s[|s| - 1] == 0 ==> OfBytes(s).None?
  {
  }

  lemma SentinelWithin(s: seq<byte>)
    requires s != [] && s[|s| - 1] != 0
    ensures var w := 8 * (|s| - 1) + FloorLog2(s[|s| - 1]);
            Pow2(w) <= LeValue(s) < 2 * Pow2(w)
  {
    hide Shl, Shr, Low, LeValue;
    var n := |s| - 1;
    var last: nat := s[n];
    var k := FloorLog2(last);
    var low := LeValue(s[..n]);
    assert LeValue(s) == low + Shl(last, 8 * n) by {
      assert s == s[..n] + [s[n]];
      LeValueAppend(s[..n], s[n]);
    }
    assert low < Pow2(8 * n) by { LeValueBound(s[..n]); }
    assert Shl(Pow2(k), 8 * n) == Pow2(8 * n + k) by { ShlShl(1, k, 8 * n); }
    assert Shl(2 * Pow2(k), 8 * n) == 2 * Pow2(8 * n + k) by { ShlAdd(Pow2(k), Pow2(k), 8 * n); }
    assert Shl(Pow2(k), 8 * n) <= Shl(last, 8 * n) by { ShlMono(Pow2(k), last, 8 * n); }
    assert Shl(last, 8 * n) + low < Shl(2 * Pow2(k), 8 * n) by { ShlLess(last, low, 2 * Pow2(k), 8 * n); }
  }

  /** Reading a flushed stream starts from exactly the bits that were written. */
  lemma OfBytesToBytes(b: Bits)
    requires b.Valid()
    ensures OfBytes(ToBytes(b)) == Some(b)
  {
    hide Shl, Shr, Low, LeValue, LeBytes, FloorLog2;
    var n, k := b.width / 8, b.width % 8;
    var v := b.value + Pow2(b.width);
    var s := ToBytes(b);
    assert LeValue(s) == v by {
      Pow2Succ(8 * n + k);
      Pow2Mono(8 * n + k + 1, 8 * n + 8);
      LeValueOfBytes(v, n + 1);
    }
    assert Shr(v, 8 * n) == s[n] by {
      assert s == s[..n] + [s[n]];
      LeValueAppend(s[..n], s[n]);
      LeValueBound(s[..n]);
      Unsplit(s[n], LeValue(s[..n]), 8 * n);
    }
    assert Shl(Pow2(k), 8 * n) == Pow2(b.width) by { ShlShl(1, k, 8 * n); }
    assert Shl(2 * Pow2(k), 8 * n) == 2 * Pow2(b.width) by { ShlAdd(Pow2(k), Pow2(k), 8 * n); }
    ShrAtLeast(v, Pow2(k), 8 * n);
    ShrBelow(v, 2 * Pow2(k), 8 * n);
    FloorLog2Unique(s[n], k);
  }

  // ---------------------------------------------------------------- writer

  lemma ShlSplitByte(w: nat, n: nat)
    ensures Shl(w, n) == Shl(w % 256, n) + Shl(w / 256, n + 8)
  {
    hide Shl, Shr, Low, LeValue;
    var q, r := w / 256, w % 256;
    ShlByte(q, n);
    ShlAdd(r, 256 * q, n);
    assert w == r + 256 * q;
  }

  lemma StoreByteKeepsValue(s: seq<byte>, w: nat)
    ensures LeValue(s + [w % 256]) + Shl(w / 256, 8 * |s| + 8) == LeValue(s) + Shl(w, 8 * |s|)
  {
    hide Shl, Shr, Low, LeValue;
    ShlSplitByte(w, 8 * |s|);
    LeValueAppend(s, w % 256);
  }

  lemma ShiftByte(w: nat, left: nat)
    requires w < Pow2(left)
    ensures w / 256 < Pow2(if left > 8 then left - 8 else 0)
  {
    Pow2Values();
    if left > 8 {
      ShlByte(1, left - 8);
    } else {
      Pow2Mono(left, 8);
    }
  }

  class BitWriter {
    const buf: array<byte>
    var ptr: nat
    var accum: nat
    var bits: nat

    ghost predicate Valid()
      reads this
    {
      ptr <= buf.Length && bits < 32 && accum < Pow2(bits)
    }

    /** The bits written so far: whole words in the buffer, the rest in the accumulator. */
    ghost function Content(): (b: Bits)
      reads this, buf
      requires Valid()
      ensures b.Valid()
    {
      LeValueBound(buf[..ptr]);
      ShlLess(accum, LeValue(buf[..ptr]), Pow2(bits), 8 * ptr);
      ShlShl(1, bits, 8 * ptr);
      Bits(Total(), 8 * ptr + bits)
    }

    constructor (capacity: nat)
      ensures Valid() && Content() == EMPTY
      ensures fresh(buf) && buf.Length == capacity
    {
      buf := new byte[capacity];
      ptr := 0;
      accum := 0;
      bits := 0;
    }

    /** Writes `nb` bits; fails exactly when a full 32-bit word no longer fits. */
    method Write(v: nat, nb: nat) returns (ok: bool)
      requires Valid() && nb <= 32 && v < Pow2(nb)
      modifies this, buf
      ensures ok <==> old(bits) + nb < 32 || old(ptr) + 4 <= buf.Length
      ensures ok ==> Valid() && Content() == Push(old(Content()), v, nb)
    {
      hide Shl, Shr, Low, LeValue, Or;
      PopPush(Bits(accum, bits), v, nb);
      OrDisjoint(accum, v, bits);
      ShlAdd(accum, Shl(v, bits), 8 * ptr);
      ShlShl(v, bits, 8 * ptr);
      accum := Or(accum, Shl(v, bits));
      bits := bits + nb;
      if bits >= 32 {
        if ptr + 4 > buf.Length {
          return false;
        }
        StoreWord();
      }
      return true;
    }

    /** The value held by buffer and accumulator together. */
    ghost function Total(): (v: nat)
      reads this, buf
      requires ptr <= buf.Length
    {
      LeValue(buf[..ptr]) + Shl(accum, 8 * ptr)
    }

    /** Moves the low byte of the accumulator to the buffer. */
    method StoreByte()
      requires ptr < buf.Length
      modifies this`ptr, this`accum, buf
      ensures ptr == old(ptr) + 1 && accum == old(accum) / 256
      ensures Total() == old(Total())
    {
      hide Shl, Shr, Low, LeValue, Or;
      StoreByteKeepsValue(buf[..ptr], accum);
      buf[ptr] := accum % 256;
      assert buf[..ptr + 1] == buf[..ptr] + [accum % 256];
      ptr := ptr + 1;
      accum := accum / 256;
    }

    /** The four-byte little-endian store of the low word of the accumulator. */
    method StoreWord()
      requires ptr + 4 <= buf.Length && 32 <= bits < 64 && accum < Pow2(bits)
      modifies this, buf
      ensures Valid() && ptr == old(ptr) + 4 && bits == old(bits) - 32
      ensures Total() == old(Total())
    {
      hide Shl, Shr, Low, LeValue, Or;
      for k := 0 to 4
        invariant ptr == old(ptr) + k && bits == old(bits) - 8 * k && accum < Pow2(bits)
        invariant Total() == old(Total())
      {
        ShiftByte(accum, bits);
        StoreByte();
        bits := bits - 8;
      }
    }

    /** Appends the sentinel and writes what is left byte by byte. */
    method Flush() returns (size: Option<nat>)
      requires Valid()
      modifies this, buf
      ensures size.Some? <==> old(Content()).width / 8 + 1 <= buf.Length
      ensures size.Some? ==> size.value <= buf.Length && buf[..size.value] == ToBytes(old(Content()))
    {
      hide Shl, Shr, Low, LeValue, Or;
      ghost var was := Content();
      ghost var total := was.value + Pow2(was.width);
      ShlAdd(accum, Pow2(bits), 8 * ptr);
      ShlShl(1, bits, 8 * ptr);
      OrDisjoint(accum, 1, bits);
      Pow2Succ(bits);
      accum := Or(accum, Pow2(bits));
      var left: int := bits + 1;
      while left > 0
        invariant ptr <= buf.Length
        invariant 8 * ptr + left == was.width + 1 && left > -8
        invariant accum < Pow2(if left > 0 then left else 0)
        invariant Total() == total
      {
        if ptr >= buf.Length {
          return None;
        }
        ShiftByte(accum, left);
        StoreByte();
        left := left - 8;
      }
      ShlZero(8 * ptr);
      Pow2Succ(0);
      LeBytesOfValue(buf[..ptr]);
      size := Some(ptr);
    }
  }

  // ---------------------------------------------------------------- reader

  /** The nibble-wise search for the highest set bit of a byte. */
  function HighestBitOfByte(v: byte): (n: nat)
    ensures n == FloorLog2(v) && n <= 7
  {
    var (v1, n1) := if v >= 16 then (v / 16, 4) else (v, 0);
    var (v2, n2) := if v1 >= 4 then (v1 / 4, n1 + 2) else (v1, n1);
    var n := if v2 >= 2 then n2 + 1 else n2;
    FloorLog2OfByte(v, n);
    n
  }

  lemma FloorLog2OfByte(v: byte, n: nat)
    requires n <= 7 && (v <= 1 ==> n == 0)
    requires v >= 1 ==> [1, 2, 4, 8, 16, 32, 64, 128][n] <= v < 2 * [1, 2, 4, 8, 16, 32, 64, 128][n]
    ensures n == FloorLog2(v)
  {
    assert Pow2(0) == 1 && Pow2(1) == 2 && Pow2(2) == 4;
    assert Pow2(3) == 8 && Pow2(4) == 16 && Pow2(5) == 32;
    assert Pow2(6) == 64 && Pow2(7) == 128;
    if v >= 1 {
      FloorLog2Unique(v, n);
    }
  }

  lemma {:induction false} LeValueConcat(a: seq<byte>, b: seq<byte>)
    ensures LeValue(a + b) == LeValue(a) + Shl(LeValue(b), 8 * |a|)
  {
    hide Shl, Shr, Low, LeValue;
    if b == [] {
      assert a + b == a;
      LeValueEmpty();
      ShlZero(8 * |a|);
    } else {
      var n := |b| - 1;
      assert b == b[..n] + [b[n]] && a + b == (a + b[..n]) + [b[n]];
      LeValueConcat(a, b[..n]);
      LeValueAppend(b[..n], b[n]);
      LeValueAppend(a + b[..n], b[n]);
      ShlAdd(LeValue(b[..n]), Shl(b[n], 8 * n), 8 * |a|);
      ShlShl(b[n], 8 * n, 8 * |a|);
    }
  }

  /** Taking `nb` bits off the top of a `w`-bit window that holds the `b` bits of `held`. */
  lemma WindowPop(w: nat, held: nat, b: nat, nb: nat)
    requires nb <= b <= w && held < Pow2(b)
    ensures Shr(Shl(held, w - b), w - nb) == Shr(held, b - nb)
    ensures Low(Shl(Shl(held, w - b), nb), w) == Shl(Low(held, b - nb), w - (b - nb))
  {
    hide Shl, Shr, Low, LeValue;
    assert Shr(Shl(held, w - b), w - nb) == Shr(held, b - nb) by {
      Unsplit(held, 0, w - b);
      ShrShr(Shl(held, w - b), w - b, b - nb);
    }
    var q, r, k := Shr(held, b - nb), Low(held, b - nb), w - (b - nb);
    Split(held, b - nb);
    assert Shl(Shl(held, w - b), nb) == Shl(q, w) + Shl(r, k) by {
      ShlShl(held, w - b, nb);
      ShlAdd(Shl(q, b - nb), r, k);
      ShlShl(q, b - nb, k);
    }
    assert Shl(r, k) < Pow2(w) by {
      ShlPow2Bound(r, b - nb, k);
    }
    Unsplit(q, Shl(r, k), w);
  }

  lemma ShlPow2Bound(r: nat, a: nat, k: nat)
    requires r < Pow2(a)
    ensures Shl(r, k) < Pow2(a + k)
  {
    hide Shl, Shr, Low, LeValue;
    ShlLess(r, 0, Pow2(a), k);
    ShlShl(1, a, k);
  }

  /** The same on the stack: `low` is still in the buffer, `held` in the window. */
  lemma StackPop(low: nat, held: nat, n: nat, b: nat, nb: nat)
    requires nb <= b && held < Pow2(b) && low < Pow2(n)
    ensures Shr(low + Shl(held, n), n + b - nb) == Shr(held, b - nb)
    ensures Low(low + Shl(held, n), n + b - nb) == low + Shl(Low(held, b - nb), n)
  {
    hide Shl, Shr, Low, LeValue;
    var q, r := Shr(held, b - nb), Low(held, b - nb);
    Split(held, b - nb);
    assert Shl(held, n) == Shl(q, n + b - nb) + Shl(r, n) by {
      ShlAdd(Shl(q, b - nb), r, n);
      ShlShl(q, b - nb, n);
    }
    assert low + Shl(r, n) < Pow2(n + b - nb) by {
      ShlLess(r, low, Pow2(b - nb), n);
      ShlShl(1, b - nb, n);
    }
    Unsplit(q, low + Shl(r, n), n + b - nb);
  }

  /** A refill byte goes just below the bits in the window. */
  lemma WindowRefill(w: nat, held: nat, b: nat, x: byte)
    requires b + 8 <= w && held < Pow2(b)
    ensures Shl(x, w - 8 - b) < Pow2(w)
    ensures Or(Shl(held, w - b), Shl(x, w - 8 - b)) == Shl(256 * held + x, w - 8 - b)
    ensures 256 * held + x < Pow2(b + 8)
  {
    hide Shl, Shr, Low, LeValue;
    var k := w - 8 - b;
    ShlByte(1, b);
    assert Shl(x, k) < Pow2(w - b) by {
      Pow2Values();
      ShlPow2Bound(x, 8, k);
    }
    Pow2Mono(w - b, w);
    OrDisjoint(Shl(x, k), held, w - b);
    ShlByte(held, k);
    ShlAdd(256 * held, x, k);
  }

  /** Packs the last `fill` bytes, oldest first, into a word. */
  method LoadTail(stream: seq<byte>, fill: nat) returns (raw: nat)
    requires fill <= |stream|
    ensures raw == LeValue(stream[|stream| - fill..])
  {
    hide Shl, Shr, Low, LeValue, Or;
    LeValueEmpty();
    Pow2Succ(0);
    ghost var window := stream[|stream| - fill..];
    raw := 0;
    for i := 0 to fill
      invariant raw == LeValue(window[..i]) < Pow2(8 * i)
    {
      var x := stream[|stream| - fill + i];
      assert window[..i + 1] == window[..i] + [x];
      LeValueAppend(window[..i], x);
      LeValueBound(window[..i + 1]);
      OrDisjoint(raw, x, 8 * i);
      raw := Or(raw, Shl(x, 8 * i));
    }
    assert window[..fill] == window;
  }

  /** Prefix in the buffer plus sentinel-free window make the stack of `OfBytes`. */
  lemma SentinelRemoved(s: seq<byte>, fill: nat, m: nat)
    requires 1 <= fill <= |s| && s[|s| - 1] != 0
    requires m == 8 * (fill - 1) + FloorLog2(s[|s| - 1])
    requires Pow2(m) <= LeValue(s[|s| - fill..])
    ensures var n := |s| - fill;
            OfBytes(s) == Some(Bits(LeValue(s[..n]) + Shl(LeValue(s[n..]) - Pow2(m), 8 * n), 8 * n + m))
  {
    hide Shl, Shr, Low, LeValue, FloorLog2;
    var n := |s| - fill;
    assert s == s[..n] + s[n..];
    LeValueConcat(s[..n], s[n..]);
    ShlAdd(LeValue(s[n..]) - Pow2(m), Pow2(m), 8 * n);
    ShlShl(1, m, 8 * n);
  }

  class BitReader {
    const buf: seq<byte>
    var ptr: nat
    var accum: nat
    var bits: int

    ghost predicate Valid()
      reads this
    {
      ptr <= |buf| && accum < Pow2(64)
    }

    /** The window holds the `bits` bits of `held` at its top and zeros below. */
    ghost predicate Holds(held: nat)
      reads this
    {
      0 <= bits <= 64 && held < Pow2(bits) && accum == Shl(held, 64 - bits)
    }

    /** The stack of bits still to be read, when the stream had a sentinel. */
    ghost function Pending(): (r: Option<Bits>)
      reads this
      requires Valid()
    {
      if 0 <= bits <= 64 && Low(accum, 64 - bits) == 0 && (ptr > 0 ==> bits >= 56)
      then Some(Bits(LeValue(buf[..ptr]) + Shl(Shr(accum, 64 - bits), 8 * ptr), 8 * ptr + bits))
      else None
    }

    lemma HoldsPending(held: nat)
      requires Valid() && Holds(held) && (ptr > 0 ==> bits >= 56)
      ensures Pending() == Some(Bits(LeValue(buf[..ptr]) + Shl(held, 8 * ptr), 8 * ptr + bits))
    {
      hide Shl, Shr, Low, LeValue, Or;
      Unsplit(held, 0, 64 - bits);
    }

    lemma PendingHolds() returns (held: nat)
      requires Valid() && Pending().Some?
      ensures Holds(held) && (ptr > 0 ==> bits >= 56)
      ensures Pending() == Some(Bits(LeValue(buf[..ptr]) + Shl(held, 8 * ptr), 8 * ptr + bits))
    {
      hide Shl, Shr, Low, LeValue, Or;
      held := Shr(accum, 64 - bits);
      Split(accum, 64 - bits);
      ShlShl(1, bits, 64 - bits);
      ShrBelow(accum, Pow2(bits), 64 - bits);
    }

    lemma PendingValid()
      requires Valid() && Pending().Some?
      ensures Pending().value.Valid()
    {
      hide Shl, Shr, Low, LeValue;
      var held := PendingHolds();
      LeValueBound(buf[..ptr]);
      ShlLess(held, LeValue(buf[..ptr]), Pow2(bits), 8 * ptr);
      ShlShl(1, bits, 8 * ptr);
    }

    constructor (stream: seq<byte>)
      ensures Valid() && buf == stream
      ensures OfBytes(stream).Some? ==> Pending() == OfBytes(stream)
    {
      buf := stream;
      ptr := |stream|;
      accum := 0;
      bits := 0;
      new;
      if |stream| > 0 {
        Load();
      }
    }

    /** Loads up to eight bytes from the end and discards padding and sentinel. */
    method Load()
      requires Valid() && ptr == |buf| > 0
      modifies this
      ensures Valid()
      ensures OfBytes(buf).Some? ==> Pending() == OfBytes(buf)
    {
      hide Shl, Shr, Low, LeValue, Or, FloorLog2, HighestBitOfByte, OfBytes;
      NoSentinel(buf);
      var fill := if |buf| < 8 then |buf| else 8;
      var raw := LoadTail(buf, fill);
      ghost var window := buf[|buf| - fill..];
      ptr := ptr - fill;
      accum := Shl(raw, 64 - 8 * fill);
      bits := 8 * fill;
      LoadedWindow(64, window);
      var last := Shr(accum, 56);
      if last == 0 {
        bits := 0;
        return;
      }
      var skip := 7 - HighestBitOfByte(last) + 1;
      SkipSentinel(64, window, skip);
      Split(Shl(accum, skip), 64);
      accum := Low(Shl(accum, skip), 64);
      bits := bits - skip;
      HoldsPending(raw - Pow2(bits));
      SentinelRemoved(buf, fill, bits);
    }

    /** Reads `nb` bits from the top of the window and refills it. */
    method Read(nb: nat) returns (ok: bool, out: nat)
      requires Valid() && 1 <= nb <= 32
      modifies this
      ensures Valid() && out < Pow2(nb)
      ensures old(Pending()).Some? ==>
                var b := old(Pending()).value;
                && (ok <==> nb <= b.width)
                && (ok ==> out == Top(b, nb) && Pending() == Some(Pop(b, nb)))
    {
      hide Shl, Shr, Low, LeValue, Or;
      ShlShl(1, nb, 64 - nb);
      ShrBelow(accum, Pow2(nb), 64 - nb);
      out := Shr(accum, 64 - nb);
      ghost var was := Pending();
      ghost var good := was.Some? && nb <= was.value.width;
      ghost var held, b := 0, bits;
      if was.Some? {
        held := PendingHolds();
        assert good <==> nb <= b;
        if good {
          WindowPop(64, held, b, nb);
          LeValueBound(buf[..ptr]);
          StackPop(LeValue(buf[..ptr]), held, 8 * ptr, b, nb);
          Split(held, b - nb);
          held := Low(held, b - nb);
        }
      }
      Split(Shl(accum, nb), 64);
      accum := Low(Shl(accum, nb), 64);
      bits := bits - nb;
      Refill(held, good);
      if good {
        ghost var h := PendingHolds();
      }
      ok := bits >= 0;
    }

    /** Adds bytes from the buffer, last first, while eight more bits fit. */
    method Refill(ghost held: nat, ghost good: bool)
      requires Valid() && (good ==> Holds(held))
      modifies this
      ensures Valid()
      ensures old(ptr) == 0 ==> bits == old(bits)
      ensures good ==> Pending() == Some(Bits(LeValue(buf[..old(ptr)]) + Shl(held, 8 * old(ptr)),
                                              8 * old(ptr) + old(bits)))
    {
      hide Shl, Shr, Low, LeValue, Or;
      ghost var h: nat := held;
      while bits <= 56 && ptr > 0
        invariant ptr <= old(ptr) && Valid()
        invariant old(ptr) == 0 ==> bits == old(bits)
        invariant good ==> Holds(h) && 8 * ptr + bits == 8 * old(ptr) + old(bits)
        invariant good ==> LeValue(buf[..ptr]) + Shl(h, 8 * ptr) == LeValue(buf[..old(ptr)]) + Shl(held, 8 * old(ptr))
        decreases ptr
      {
        var x := buf[ptr - 1];
        if good {
          WindowRefill(64, h, bits, x);
          Unsplit(0, Shl(x, 56 - bits), 64);
          ShlZero(64);
          assert buf[..ptr] == buf[..ptr - 1] + [x];
          LeValueAppend(buf[..ptr - 1], x);
          ShlByte(h, 8 * (ptr - 1));
          ShlAdd(256 * h, x, 8 * (ptr - 1));
          h := 256 * h + x;
        }
        Split(Shl(x, 56 - bits), 64);
        OrBound(accum, Low(Shl(x, 56 - bits), 64), 64);
        accum := Or(accum, Low(Shl(x, 56 - bits), 64));
        bits := bits + 8;
        ptr := ptr - 1;
      }
      if good {
        HoldsPending(h);
      }
    }
  }

  /** The stack law of the objects: writes through a writer, a flush, and reads of the widths in reverse
      through a reader of the bytes, where like the coders a client skips reads of no bits.  It
      succeeds exactly when the bytes fit, gives back every value, and one more read fails. */
  method WriteFlushRead(writes: seq<(nat, nat)>, capacity: nat) returns (ok: bool, values: seq<nat>, more: bool)
    requires Fitting(writes) && forall i :: 0 <= i < |writes| ==> writes[i].1 <= 32
    ensures ok <==> |ToBytes(PushAll(writes))| <= capacity
    ensures ok ==> |values| == |writes| && forall i :: 0 <= i < |writes| ==> values[i] == writes[i].0
    ensures ok ==> !more
  {
    hide Shl, Shr, Low, Pow2, LeBytes, OfBytes, Top, Pop;
    ok, values, more := false, [], false;
    var w := new BitWriter(capacity);
    var wrote := WriteAll(w, writes);
    if !wrote {
      return;
    }
    var size := w.Flush();
    if size.None? {
      return;
    }
    PushAllValid(writes);
    OfBytesToBytes(PushAll(writes));
    var r := new BitReader(w.buf[..size.value]);
    values := ReadAll(r, writes);
    var extra;
    more, extra := r.Read(1);
    ok := true;
  }

  method WriteAll(w: BitWriter, writes: seq<(nat, nat)>) returns (ok: bool)
    requires w.Valid() && w.Content() == EMPTY
    requires Fitting(writes) && forall i :: 0 <= i < |writes| ==> writes[i].1 <= 32
    modifies w, w.buf
    ensures ok ==> w.Valid() && w.Content() == PushAll(writes)
    ensures |ToBytes(PushAll(writes))| <= w.buf.Length ==> ok
  {
    hide Shl, Shr, Low, Pow2, LeBytes;
    for i := 0 to |writes|
      invariant w.Valid() && w.Content() == PushAll(writes[..i])
    {
      assert writes[..i + 1][..i] == writes[..i];
      PushAllGrows(writes, i + 1);
      ok := w.Write(writes[i].0, writes[i].1);
      if !ok {
        return;
      }
    }
    assert writes[..|writes|] == writes;
    ok := true;
  }

  lemma {:induction false} PushAllGrows(writes: seq<(nat, nat)>, i: nat)
    requires i <= |writes|
    ensures PushAll(writes[..i]).width <= PushAll(writes).width
    decreases |writes| - i
  {
    if i < |writes| {
      PushAllGrows(writes, i + 1);
      assert writes[..i + 1][..i] == writes[..i];
    } else {
      assert writes[..i] == writes;
    }
  }

  method ReadAll(r: BitReader, writes: seq<(nat, nat)>) returns (values: seq<nat>)
    requires r.Valid() && r.Pending() == Some(PushAll(writes))
    requires Fitting(writes) && forall i :: 0 <= i < |writes| ==> writes[i].1 <= 32
    modifies r
    ensures r.Valid() && r.Pending() == Some(EMPTY)
    ensures |values| == |writes| && forall i :: 0 <= i < |writes| ==> values[i] == writes[i].0
  {
    hide Shl, Shr, Low, Pow2, Push, PushAll;
    values := [];
    var k := |writes|;
    assert writes[..k] == writes;
    while k > 0
      invariant k <= |writes| && r.Valid() && r.Pending() == Some(PushAll(writes[..k]))
      invariant |values| == |writes| - k && forall i :: 0 <= i < |values| ==> values[i] == writes[k + i].0
    {
      k := k - 1;
      PushAllLast(writes, k);
      PushAllValid(writes[..k]);
      var v := ReadGroup(r, writes[k].1, PushAll(writes[..k]), writes[k].0);
      values := [v] + values;
    }
    PushAllNone(writes);
  }

  lemma PushAllLast(writes: seq<(nat, nat)>, k: nat)
    requires k < |writes|
    ensures PushAll(writes[..k + 1]) == Push(PushAll(writes[..k]), writes[k].0, writes[k].1)
  {
    assert writes[..k + 1][..k] == writes[..k];
  }

  lemma PushAllNone(writes: seq<(nat, nat)>)
    ensures PushAll(writes[..0]) == EMPTY
  {
  }

  /** Reads the group on top; a group of no bits needs no read. */
  method ReadGroup(r: BitReader, nb: nat, ghost below: Bits, ghost value: nat) returns (v: nat)
    requires r.Valid() && nb <= 32 && below.Valid() && value < Pow2(nb) && r.Pending() == Some(Push(below, value, nb))
    modifies r
    ensures r.Valid() && r.Pending() == Some(below) && v == value
  {
    hide Shl, Shr, Low, Pow2, Top, Pop;
    PopPush(below, value, nb);
    if nb == 0 {
      Pow2Succ(0);
      ShlZero(below.width);
      return 0;
    }
    var ok;
    ok, v := r.Read(nb);
  }

  /** The last byte of the loaded bytes sits at the top of the window. */
  lemma LoadedWindow(w: nat, s: seq<byte>)
    requires s != [] && 8 * |s| <= w
    ensures Shl(LeValue(s), w - 8 * |s|) < Pow2(w)
    ensures Shr(Shl(LeValue(s), w - 8 * |s|), w - 8) == s[|s| - 1]
  {
    hide Shl, Shr, Low, LeValue;
    var n := |s| - 1;
    var low, k := LeValue(s[..n]), w - 8 * |s|;
    LeValueBound(s);
    ShlPow2Bound(LeValue(s), 8 * |s|, k);
    LeValueBound(s[..n]);
    ShlPow2Bound(low, 8 * n, k);
    assert Shl(LeValue(s), k) == Shl(s[n], w - 8) + Shl(low, k) by {
      assert s == s[..n] + [s[n]];
      LeValueAppend(s[..n], s[n]);
      ShlAdd(low, Shl(s[n], 8 * n), k);
      ShlShl(s[n], 8 * n, k);
    }
    Unsplit(s[n], Shl(low, k), w - 8);
  }

  /** Shifting out padding and sentinel leaves the data bits at the top. */
  lemma SkipSentinel(w: nat, s: seq<byte>, skip: nat)
    requires s != [] && 8 * |s| <= w && s[|s| - 1] != 0
    requires FloorLog2(s[|s| - 1]) <= 7 && skip == 8 - FloorLog2(s[|s| - 1])
    ensures var m := 8 * |s| - skip;
            Pow2(m) <= LeValue(s) < 2 * Pow2(m) &&
            Low(Shl(Shl(LeValue(s), w - 8 * |s|), skip), w) == Shl(LeValue(s) - Pow2(m), w - m)
  {
    hide Shl, Shr, Low, LeValue;
    var m := 8 * |s| - skip;
    SentinelWithin(s);
    var held := LeValue(s) - Pow2(m);
    ShlShl(LeValue(s), w - 8 * |s|, skip);
    ShlAdd(held, Pow2(m), w - m);
    ShlShl(1, m, w - m);
    ShlPow2Bound(held, m, w - m);
    Unsplit(1, Shl(held, w - m), w);
  }
}
