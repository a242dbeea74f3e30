/** Machine arithmetic shared by the codec: bytes, shifts, bitwise operators on naturals,
    little-endian numbers and sums.

    `Shl(v, n)` is `v << n`, `Shr(v, n)` is `v >> n` and `Low(v, n)` is `v & ((1 << n) - 1)`.
    OR and XOR are defined bit by bit; the lemmas say when OR is an addition. */
module Machine {

  type byte = x: int | 0 <= x < 256

  /** Largest packet, in bytes. */
  const MAX_PACKET: nat := 65535

  /** One past the largest 32-bit value. */
  const WORD: nat := 0x1_0000_0000

  datatype Option<+T> = None | Some(value: T)

  function Min(a: int, b: int): (m: int)
    ensures m <= a && m <= b && (m == a || m == b)
  {
    if a < b then a else b
  }

  /** The byte before position `i`, zero at the start of a packet. */
  function Before(s: seq<byte>, i: nat): (b: byte)
    requires i <= |s|
  {
    if i == 0 then 0 else s[i - 1]
  }

  /** `n` times the byte `b`. */
  function Run(b: byte, n: nat): (s: seq<byte>)
    ensures |s| == n
  {
    seq(n, _ => b)
  }

  // ---------------------------------------------------------------- shifts

  function Shl(v: nat, n: nat): (r: nat)
    ensures r >= v
  {
    if n == 0 then v else 2 * Shl(v, n - 1)
  }

  function Shr(v: nat, n: nat): (r: nat)
    ensures r <= v
  {
    if n == 0 then v else Shr(v / 2, n - 1)
  }

  function Low(v: nat, n: nat): (r: nat)
    ensures r <= v
  {
    if n == 0 then 0 else v % 2 + 2 * Low(v / 2, n - 1)
  }

  function Pow2(n: nat): (r: nat)
    ensures r >= 1
  {
    Shl(1, n)
  }

  lemma {:induction false} ShlAdd(a: nat, b: nat, n: nat)
    ensures Shl(a + b, n) == Shl(a, n) + Shl(b, n)
  {
    if n != 0 {
      ShlAdd(a, b, n - 1);
    }
  }

  lemma {:induction false} ShlShl(v: nat, m: nat, n: nat)
    ensures Shl(Shl(v, m), n) == Shl(v, m + n)
  {
    if n != 0 {
      ShlShl(v, m, n - 1);
    }
  }

  lemma {:induction false} ShlZero(n: nat)
    ensures Shl(0, n) == 0
  {
    if n != 0 {
      ShlZero(n - 1);
    }
  }

  lemma ShlMono(a: nat, b: nat, n: nat)
    requires a <= b
    ensures Shl(a, n) <= Shl(b, n)
  {
    ShlAdd(a, b - a, n);
  }

  /** A shifted value plus something below the shift stays below the next multiple. */
  lemma ShlLess(a: nat, r: nat, b: nat, n: nat)
    requires a < b && r < Pow2(n)
    ensures Shl(a, n) + r < Shl(b, n)
  {
    ShlAdd(a, 1, n);
    ShlMono(a + 1, b, n);
  }

  lemma Pow2Succ(n: nat)
    ensures Pow2(n + 1) == 2 * Pow2(n) && Pow2(0) == 1
  {
  }

  lemma Pow2Mono(a: nat, b: nat)
    requires a <= b
    ensures Pow2(a) <= Pow2(b)
    ensures a < b ==> 2 * Pow2(a) <= Pow2(b)
  {
    if a < b {
      Pow2Mono(a, b - 1);
    }
  }

  lemma Pow2Values()
    ensures Pow2(3) == 8 && Pow2(4) == 16 && Pow2(7) == 128 && Pow2(8) == 256
    ensures Pow2(10) == 1024 && Pow2(12) == 4096 && Pow2(16) == 65536 && Pow2(32) == 0x1_0000_0000
  {
    assert Pow2(3) == 8;
    assert Pow2(7) == 16 * Pow2(3);
    assert Pow2(12) == 32 * Pow2(7);
    assert Pow2(16) == 16 * Pow2(12);
    assert Pow2(24) == 256 * Pow2(16) by { assert Pow2(20) == 16 * Pow2(16); }
    assert Pow2(32) == 256 * Pow2(24) by { assert Pow2(28) == 16 * Pow2(24); }
  }

  lemma {:induction false} Split(x: nat, n: nat)
    ensures x == Shl(Shr(x, n), n) + Low(x, n) && Low(x, n) < Pow2(n)
  {
    if n != 0 {
      Split(x / 2, n - 1);
    }
  }

  lemma {:induction false} Unsplit(q: nat, r: nat, n: nat)
    requires r < Pow2(n)
    ensures Shr(Shl(q, n) + r, n) == q && Low(Shl(q, n) + r, n) == r
  {
    if n != 0 {
      Unsplit(q, r / 2, n - 1);
      assert (Shl(q, n) + r) / 2 == Shl(q, n - 1) + r / 2;
    }
  }

  lemma {:induction false} ShrShr(x: nat, m: nat, n: nat)
    ensures Shr(Shr(x, m), n) == Shr(x, m + n)
  {
    if m != 0 {
      ShrShr(x / 2, m - 1, n);
    }
  }

  lemma ShrBelow(x: nat, b: nat, n: nat)
    requires x < Shl(b, n)
    ensures Shr(x, n) < b
  {
    Split(x, n);
    if Shr(x, n) >= b {
      ShlMono(b, Shr(x, n), n);
      assert false;
    }
  }

  lemma ShrAtLeast(x: nat, b: nat, n: nat)
    requires x >= Shl(b, n)
    ensures Shr(x, n) >= b
  {
    Split(x, n);
    if Shr(x, n) < b {
      ShlLess(Shr(x, n), Low(x, n), b, n);
      assert false;
    }
  }

  // ---------------------------------------------------------------- floor of log2

  function FloorLog2(v: nat): (n: nat)
    ensures v >= 1 ==> Pow2(n) <= v < 2 * Pow2(n)
    ensures v == 0 ==> n == 0
  {
    if v <= 1 then 0 else 1 + FloorLog2(v / 2)
  }

  lemma FloorLog2Unique(v: nat, n: nat)
    requires Pow2(n) <= v < 2 * Pow2(n)
    ensures FloorLog2(v) == n
  {
    var m := FloorLog2(v);
    if m < n {
      Pow2Mono(m, n);
      assert false;
    } else if n < m {
      Pow2Mono(n, m);
      assert false;
    }
  }

  /** The shifting loop that computes the position of the highest set bit. */
  method FloorLog2Loop(v: nat) returns (n: nat)
    ensures n == FloorLog2(v)
  {
    n := 0;
    var w := v;
    while w > 1
      invariant n + FloorLog2(w) == FloorLog2(v)
    {
      w := w / 2;
      n := n + 1;
    }
  }

  // ---------------------------------------------------------------- bitwise OR and XOR

  function Or(a: nat, b: nat): (r: nat)
    decreases a + b
  {
    if a == 0 && b == 0 then 0
    else (if a % 2 == 1 || b % 2 == 1 then 1 else 0) + 2 * Or(a / 2, b / 2)
  }

  function Xor(a: nat, b: nat): (r: nat)
    decreases a + b
  {
    if a == 0 && b == 0 then 0
    else (if a % 2 != b % 2 then 1 else 0) + 2 * Xor(a / 2, b / 2)
  }

  lemma {:induction false} OrZero(a: nat)
    ensures Or(a, 0) == a && Or(0, a) == a
  {
    if a != 0 {
      OrZero(a / 2);
    }
  }

  /** OR of a value below `2^k` with a multiple of `2^k` is their sum, on either side. */
  lemma {:induction false} OrDisjoint(a: nat, m: nat, k: nat)
    requires a < Pow2(k)
    ensures Or(a, Shl(m, k)) == a + Shl(m, k)
    ensures Or(Shl(m, k), a) == a + Shl(m, k)
    decreases k
  {
    if k == 0 {
      OrZero(m);
    } else {
      OrDisjoint(a / 2, m, k - 1);
    }
  }

  lemma {:induction false} OrBound(a: nat, b: nat, k: nat)
    requires a < Pow2(k) && b < Pow2(k)
    ensures Or(a, b) < Pow2(k)
    decreases k
  {
    if k != 0 && (a != 0 || b != 0) {
      OrBound(a / 2, b / 2, k - 1);
    }
  }

  lemma {:induction false} XorBound(a: nat, b: nat, k: nat)
    requires a < Pow2(k) && b < Pow2(k)
    ensures Xor(a, b) < Pow2(k)
    decreases k
  {
    if k != 0 && (a != 0 || b != 0) {
      XorBound(a / 2, b / 2, k - 1);
    }
  }

  lemma {:induction false} XorInvolutive(a: nat, b: nat)
    ensures Xor(Xor(a, b), b) == a
    decreases a + b
  {
    if a != 0 || b != 0 {
      XorInvolutive(a / 2, b / 2);
      assert Xor(a, b) / 2 == Xor(a / 2, b / 2);
    }
  }

  function XorByte(a: byte, b: byte): (r: byte)
    ensures Xor(r, b) == a
  {
    Pow2Values();
    XorBound(a, b, 8);
    XorInvolutive(a, b);
    Xor(a, b)
  }

  /** One round of the FNV-1a hash on 32 bits. */
  function FnvStep(h: nat, b: nat): (r: nat)
    ensures r < 0x1_0000_0000
  {
    (Xor(h, b) * 16777619) % 0x1_0000_0000
  }

  const FNV_OFFSET: nat := 2166136261

  /** XOR with a small number leaves the high bits alone. */
  lemma {:induction false} XorSmall(h: nat, b: nat, n: nat)
    requires b < Pow2(n)
    ensures Xor(h, b) == Shl(Shr(h, n), n) + Xor(Low(h, n), b)
    decreases n
  {
    if n == 0 {
      XorNothing(h);
    } else {
      XorSmall(h / 2, b / 2, n - 1);
    }
  }

  lemma {:induction false} XorNothing(h: nat)
    ensures Xor(h, 0) == h && Xor(0, 0) == 0
  {
    if h != 0 {
      XorNothing(h / 2);
    }
  }

  lemma XorLowByte(h: nat, b: byte)
    ensures Xor(h, b) == h - h % 256 + Xor(h % 256, b)
  {
    hide Shl, Shr, Low, Xor, Pow2;
    Pow2Values();
    XorSmall(h, b, 8);
    Split(h, 8);
    ShlByteIs(Shr(h, 8));
  }

  lemma ShlByteIs(q: nat)
    ensures Shl(q, 8) == 256 * q
  {
    ShlByte(q, 0);
  }

  /** Published FNV-1a values: "f", "fo" and "foo". */
  lemma FnvVectors()
    ensures FnvStep(FNV_OFFSET, 102) == 0xE30C2799
    ensures FnvStep(FnvStep(FNV_OFFSET, 102), 111) == 0x6222E842
    ensures FnvStep(FnvStep(FnvStep(FNV_OFFSET, 102), 111), 111) == 0xA9F37ED7
  {
    hide FnvStep, Xor;
    XorValue1();
    XorValue2();
    XorValue3();
    FnvStepIs(FNV_OFFSET, 102, 0x811C9DA3);
    FnvStepIs(0xE30C2799, 111, 0xE30C27F6);
    FnvStepIs(0x6222E842, 111, 0x6222E82D);
  }

  lemma XorValue1()
    ensures Xor(197, 102) == 163
  {
    assert Xor(1, 0) == 1;
    assert Xor(3, 1) == 2;
    assert Xor(6, 3) == 5;
    assert Xor(12, 6) == 10;
    assert Xor(24, 12) == 20;
    assert Xor(49, 25) == 40;
    assert Xor(98, 51) == 81;
  }

  lemma XorValue2()
    ensures Xor(153, 111) == 246
  {
    assert Xor(1, 0) == 1;
    assert Xor(2, 1) == 3;
    assert Xor(4, 3) == 7;
    assert Xor(9, 6) == 15;
    assert Xor(19, 13) == 30;
    assert Xor(38, 27) == 61;
    assert Xor(76, 55) == 123;
  }

  lemma XorValue3()
    ensures Xor(66, 111) == 45
  {
    assert Xor(1, 1) == 0;
    assert Xor(2, 3) == 1;
    assert Xor(4, 6) == 2;
    assert Xor(8, 13) == 5;
    assert Xor(16, 27) == 11;
    assert Xor(33, 55) == 22;
  }

  lemma FnvStepIs(h: nat, b: byte, x: nat)
    requires x % 256 == Xor(h % 256, b) && x - x % 256 == h - h % 256
    ensures FnvStep(h, b) == (x * 16777619) % 0x1_0000_0000
  {
    hide Xor;
    XorLowByte(h, b);
  }

  lemma FnvZero()
    ensures FnvStep(0x6222E842, 0) == 3203637222
  {
    hide Xor;
    XorNothing(0x6222E842);
  }

  // ---------------------------------------------------------------- little-endian numbers

  function LeValue(s: seq<byte>): (v: nat)
  {
    if s == [] then 0 else s[0] + 256 * LeValue(s[1..])
  }

  function LeBytes(v: nat, n: nat): (s: seq<byte>)
    ensures |s| == n
  {
    if n == 0 then [] else [v % 256] + LeBytes(v / 256, n - 1)
  }

  lemma LeValueEmpty()
    ensures LeValue([]) == 0
  {
  }

  lemma {:induction false} LeValueAppend(s: seq<byte>, b: byte)
    ensures LeValue(s + [b]) == LeValue(s) + Shl(b, 8 * |s|)
  {
    if s == [] {
      assert s + [b] == [b];
    } else {
      LeValueAppend(s[1..], b);
      assert (s + [b])[1..] == s[1..] + [b];
      ShlByte(b, 8 * (|s| - 1));
    }
  }

  lemma {:induction false} ShlByte(v: nat, n: nat)
    ensures Shl(v, n + 8) == 256 * Shl(v, n)
    ensures Shl(256 * v, n) == Shl(v, n + 8)
  {
    assert Shl(v, n + 2) == 4 * Shl(v, n);
    assert Shl(v, n + 4) == 4 * Shl(v, n + 2);
    assert Shl(v, n + 6) == 4 * Shl(v, n + 4);
    ShlShl(v, 8, n);
    assert Shl(v, 1) == 2 * v;
    assert Shl(v, 2) == 4 * v;
    assert Shl(v, 4) == 16 * v;
    assert Shl(v, 6) == 64 * v;
  }

  lemma {:induction false} LeValueBound(s: seq<byte>)
    ensures LeValue(s) < Pow2(8 * |s|)
  {
    if s != [] {
      LeValueBound(s[1..]);
      ShlByte(1, 8 * (|s| - 1));
    }
  }

  lemma LowDigit(b: byte, r: nat)
    ensures (b + 256 * r) % 256 == b && (b + 256 * r) / 256 == r
  {
  }

  /** Bytes are the only representation of their value at their length. */
  lemma {:induction false} LeBytesOfValue(s: seq<byte>)
    ensures LeBytes(LeValue(s), |s|) == s
  {
    if s != [] {
      var rest := s[1..];
      LeBytesOfValue(rest);
      LowDigit(s[0], LeValue(rest));
      assert s == [s[0]] + rest;
    }
  }

  lemma {:induction false} LeValueOfBytes(v: nat, n: nat)
    requires v < Pow2(8 * n)
    ensures LeValue(LeBytes(v, n)) == v
  {
    if n != 0 {
      ShlByte(1, 8 * (n - 1));
      LeValueOfBytes(v / 256, n - 1);
    }
  }

  // ---------------------------------------------------------------- sums

  function Sum(s: seq<nat>): (r: nat)
  {
    if s == [] then 0 else Sum(s[..|s| - 1]) + s[|s| - 1]
  }

  lemma SumAppend(s: seq<nat>, x: nat)
    ensures Sum(s + [x]) == Sum(s) + x
  {
    assert (s + [x])[..|s|] == s;
  }

  lemma SumPrefixStep(s: seq<nat>, k: nat)
    requires k < |s|
    ensures Sum(s[..k + 1]) == Sum(s[..k]) + s[k]
  {
    assert s[..k + 1][..k] == s[..k];
  }

  lemma {:induction false} SumPrefixMono(s: seq<nat>, a: nat, b: nat)
    requires a <= b <= |s|
    ensures Sum(s[..a]) <= Sum(s[..b])
    decreases b - a
  {
    if a < b {
      SumPrefixMono(s, a, b - 1);
      SumPrefixStep(s, b - 1);
    }
  }

  lemma SumPrefixTotal(s: seq<nat>, a: nat)
    requires a <= |s|
    ensures Sum(s[..a]) <= Sum(s)
  {
    SumPrefixMono(s, a, |s|);
    assert s[..|s|] == s;
  }

  lemma {:induction false} SumUpdate(s: seq<nat>, k: nat, x: nat)
    requires k < |s|
    ensures Sum(s[k := x]) == Sum(s) - s[k] + x
  {
    var n := |s| - 1;
    if k < n {
      SumUpdate(s[..n], k, x);
      assert s[k := x][..n] == s[..n][k := x];
    } else {
      assert s[k := x][..n] == s[..n];
    }
  }
}
