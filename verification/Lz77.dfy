/** LZ77 within a packet and across packets (lz77_encode, lz77x_encode and their decoders).

    Both token formats share the literal run `[0lllllll]`.  The plain format adds
    `[1lllllll][o]`; the cross-packet format adds `[10llllll][o]` for a reference into the packet
    and `[11llllll][lo][hi]` for one into the ring of earlier packets. */
module Lz77 {
  import opened Machine

  datatype Format = Plain | Cross(ring: seq<byte>, pos: nat) {
    predicate Valid() {
      Cross? ==> pos <= |ring|
    }
  }

  // ---------------------------------------------------------------- meaning of a token stream

  /** Byte-by-byte copy from `off` bytes back, which repeats when it overlaps its own output. */
  function CopyBack(out: seq<byte>, off: nat, len: nat): (r: seq<byte>)
    requires 1 <= off <= |out|
    ensures |r| == |out| + len && out <= r
    decreases len
  {
    if len == 0 then out else CopyBack(out + [out[|out| - off]], off, len - 1)
  }

  /** The ring byte at a position that may run past the end. */
  function RingByte(ring: seq<byte>, at: nat): (b: byte)
    requires |ring| > 0
  {
    ring[at % |ring|]
  }

  /** `len` bytes of the ring from `start`, wrapping at its end. */
  function RingBytes(ring: seq<byte>, start: nat, len: nat): (r: seq<byte>)
    requires |ring| > 0
    ensures |r| == len
  {
    seq<byte>(len, k requires 0 <= k < len => RingByte(ring, start + k))
  }

  /** The token at `i`: where the next one starts and the output after it, for `n` bytes in all. */
  function Token(f: Format, lz: seq<byte>, i: nat, out: seq<byte>, n: nat): (r: Option<(nat, seq<byte>)>)
    requires i < |lz| && f.Valid()
    ensures r.Some? ==> i < r.value.0 <= |lz| && |out| <= |r.value.1| <= n
  {
    var tok: int := lz[i];
    if tok < 128 then
      var lit := tok + 1;
      if i + 1 + lit > |lz| || |out| + lit > n then None
      else Some((i + 1 + lit, out + lz[i + 1..i + 1 + lit]))
    else if f.Plain? || tok < 192 then
      if i + 1 >= |lz| then None
      else
        var len := tok - 128 + 3;
        var off: int := lz[i + 1] as int + 1;
        if off > |out| || |out| + len > n then None
        else Some((i + 2, CopyBack(out, off, len)))
    else
      if i + 3 > |lz| then None
      else
        var len := tok - 192 + 3;
        var off := lz[i + 1] as int + 256 * (lz[i + 2] as int) + 1;
        if |f.ring| == 0 || off > |f.ring| || |out| + len > n then None
        else Some((i + 3, out + RingBytes(f.ring, (f.pos + |f.ring| - off) % |f.ring|, len)))
  }

  function Parse(f: Format, lz: seq<byte>, i: nat, out: seq<byte>, n: nat): (r: Option<seq<byte>>)
    requires f.Valid()
    decreases |lz| - i
  {
    if i >= |lz| then Some(out)
    else
      var t := Token(f, lz, i, out, n);
      if t.None? then None else Parse(f, lz, t.value.0, t.value.1, n)
  }

  /** The packet a token stream stands for, or nothing when it is malformed or of another size. */
  function Expand(f: Format, lz: seq<byte>, n: nat): (r: Option<seq<byte>>)
    requires f.Valid()
    ensures r.Some? ==> |r.value| == n
  {
    var p := Parse(f, lz, 0, [], n);
    if p.None? || |p.value| != n then None else p
  }

  /** A stream extended by further tokens is parsed from where it stopped. */
  lemma {:induction false} ParseExtend(f: Format, a: seq<byte>, b: seq<byte>, i: nat, out: seq<byte>, n: nat)
    requires f.Valid() && i <= |a| && Parse(f, a, i, out, n).Some?
    ensures Parse(f, a + b, i, out, n) == Parse(f, a + b, |a|, Parse(f, a, i, out, n).value, n)
    decreases |a| - i
  {
    if i < |a| {
      var t := Token(f, a, i, out, n);
      TokenExtend(f, a, b, i, out, n);
      ParseExtend(f, a, b, t.value.0, t.value.1, n);
    }
  }

  lemma TokenExtend(f: Format, a: seq<byte>, b: seq<byte>, i: nat, out: seq<byte>, n: nat)
    requires f.Valid() && i < |a| && Token(f, a, i, out, n).Some?
    ensures Token(f, a + b, i, out, n) == Token(f, a, i, out, n)
  {
    hide CopyBack, RingBytes;
    var tok := a[i];
    if tok < 128 {
      assert (a + b)[i + 1..i + 2 + tok] == a[i + 1..i + 2 + tok];
    }
  }

  /** Appending one complete token. */
  lemma ParseToken(f: Format, lz: seq<byte>, tok: seq<byte>, n: nat, after: seq<byte>)
    requires f.Valid() && tok != [] && Parse(f, lz, 0, [], n).Some?
    requires Token(f, lz + tok, |lz|, Parse(f, lz, 0, [], n).value, n) == Some((|lz| + |tok|, after))
    ensures Parse(f, lz + tok, 0, [], n) == Some(after)
  {
    hide Token;
    ParseExtend(f, lz, tok, 0, [], n);
  }

  // ---------------------------------------------------------------- literals

  /** Size of the literal runs for `k` pending bytes: one token byte per 128. */
  function LiteralSize(k: nat): nat {
    k + (k + 127) / 128
  }

  /** Literal runs of at most 128 bytes. */
  function Literals(s: seq<byte>): (r: seq<byte>)
    ensures |r| == LiteralSize(|s|)
  {
    if s == [] then []
    else
      var ll := if |s| > 128 then 128 else |s|;
      [ll - 1] + s[..ll] + Literals(s[ll..])
  }

  lemma LiteralsNext(src: seq<byte>, ls: nat, end: nat)
    requires ls < end <= |src|
    ensures var ll := if end - ls > 128 then 128 else end - ls;
            Literals(src[ls..end]) == [ll - 1] + src[ls..ls + ll] + Literals(src[ls + ll..end])
  {
    var s := src[ls..end];
    var ll := if end - ls > 128 then 128 else end - ls;
    assert s[..ll] == src[ls..ls + ll] && s[ll..] == src[ls + ll..end];
  }

  /** Writes the pending bytes `src[start..end]` in runs of at most 128. */
  method FlushLiterals(ghost f: Format, src: seq<byte>, start: nat, end: nat, lz: seq<byte>, capacity: nat)
    returns (r: Option<seq<byte>>)
    requires f.Valid() && start <= end <= |src| && |lz| <= capacity
    requires Parse(f, lz, 0, [], |src|) == Some(src[..start])
    ensures r.Some? <==> |lz| + LiteralSize(end - start) <= capacity
    ensures r.Some? ==> r.value == lz + Literals(src[start..end])
    ensures r.Some? ==> Parse(f, r.value, 0, [], |src|) == Some(src[..end])
  {
    hide Parse, Literals;
    var ls, out := start, lz;
    while ls < end
      invariant start <= ls <= end && |out| <= capacity
      invariant out + Literals(src[ls..end]) == lz + Literals(src[start..end])
      invariant Parse(f, out, 0, [], |src|) == Some(src[..ls])
    {
      LiteralsNext(src, ls, end);
      var ll := if end - ls > 128 then 128 else end - ls;
      if |out| + 1 + ll > capacity {
        return None;
      }
      var tok: seq<byte> := [ll - 1] + src[ls..ls + ll];
      assert (out + tok)[|out|] == ll - 1;
      assert (out + tok)[|out| + 1..|out| + 1 + ll] == src[ls..ls + ll];
      assert src[..ls] + src[ls..ls + ll] == src[..ls + ll];
      ParseToken(f, out, tok, |src|, src[..ls + ll]);
      assert out + tok + Literals(src[ls + ll..end]) == out + Literals(src[ls..end]);
      out := out + tok;
      ls := ls + ll;
    }
    NoLiterals(src, end);
    r := Some(out);
  }

  lemma NoLiterals(src: seq<byte>, end: nat)
    requires end <= |src|
    ensures Literals(src[end..end]) == []
  {
  }

  // ---------------------------------------------------------------- matches

  /** How far the bytes at `pos` and at `i` agree, up to `max`. */
  function Agree(src: seq<byte>, pos: nat, i: nat, max: nat): (m: nat)
    requires pos < i && i + max <= |src|
    ensures m <= max
    decreases max
  {
    if max > 0 && src[pos] == src[i] then 1 + Agree(src, pos + 1, i + 1, max - 1) else 0
  }

  /** How far the ring from `start` on and the bytes at `i` agree, up to `max`. */
  function RingAgree(ring: seq<byte>, start: nat, src: seq<byte>, i: nat, max: nat): (m: nat)
    requires |ring| > 0 && i + max <= |src|
    ensures m <= max
    decreases max
  {
    if max > 0 && RingByte(ring, start) == src[i] then 1 + RingAgree(ring, start + 1, src, i + 1, max - 1) else 0
  }

  method MatchLength(src: seq<byte>, pos: nat, i: nat, max: nat) returns (m: nat)
    requires pos < i && i + max <= |src|
    ensures m == Agree(src, pos, i, max) && src[pos..pos + m] == src[i..i + m]
  {
    m := 0;
    while m < max && src[pos + m] == src[i + m]
      invariant m <= max && src[pos..pos + m] == src[i..i + m]
      invariant Agree(src, pos, i, max) == m + Agree(src, pos + m, i + m, max - m)
    {
      assert src[pos..pos + m + 1] == src[pos..pos + m] + [src[pos + m]];
      assert src[i..i + m + 1] == src[i..i + m] + [src[i + m]];
      m := m + 1;
    }
  }

  method RingMatchLength(ring: seq<byte>, start: nat, src: seq<byte>, i: nat, max: nat) returns (m: nat)
    requires |ring| > 0 && i + max <= |src|
    ensures m == RingAgree(ring, start, src, i, max) && RingBytes(ring, start, m) == src[i..i + m]
  {
    hide RingAgree, RingBytes, RingByte;
    m := 0;
    while m < max && RingByte(ring, start + m) == src[i + m]
      invariant m <= max
      invariant RingAgree(ring, start, src, i, max) == m + RingAgree(ring, start + m, src, i + m, max - m)
    {
      RingAgreeNext(ring, start + m, src, i + m, max - m);
      m := m + 1;
    }
    RingAgreeStop(ring, start + m, src, i + m, max - m);
    RingAgreeMatches(ring, start, src, i, max);
  }

  lemma {:induction false} RingAgreeMatches(ring: seq<byte>, start: nat, src: seq<byte>, i: nat, max: nat)
    requires |ring| > 0 && i + max <= |src|
    ensures var m := RingAgree(ring, start, src, i, max); RingBytes(ring, start, m) == src[i..i + m]
    decreases max
  {
    hide RingBytes, RingByte;
    if max > 0 && RingByte(ring, start) == src[i] {
      RingAgreeMatches(ring, start + 1, src, i + 1, max - 1);
      var m := RingAgree(ring, start + 1, src, i + 1, max - 1);
      RingBytesFirst(ring, start, m);
      assert src[i..i + 1 + m] == [src[i]] + src[i + 1..i + 1 + m];
    } else {
      assert src[i..i] == [];
    }
  }

  lemma RingBytesFirst(ring: seq<byte>, start: nat, m: nat)
    requires |ring| > 0
    ensures RingBytes(ring, start, m + 1) == [RingByte(ring, start)] + RingBytes(ring, start + 1, m)
  {
    hide RingByte;
    var a, b := RingBytes(ring, start, m + 1), RingBytes(ring, start + 1, m);
    assert forall k :: 0 <= k < m ==> a[k + 1] == b[k];
  }

  lemma RingAgreeNext(ring: seq<byte>, start: nat, src: seq<byte>, i: nat, max: nat)
    requires |ring| > 0 && i + max <= |src| && max > 0 && RingByte(ring, start) == src[i]
    ensures RingAgree(ring, start, src, i, max) == 1 + RingAgree(ring, start + 1, src, i + 1, max - 1)
  {
  }

  lemma RingAgreeStop(ring: seq<byte>, start: nat, src: seq<byte>, i: nat, max: nat)
    requires |ring| > 0 && i + max <= |src| && (max > 0 ==> RingByte(ring, start) != src[i])
    ensures RingAgree(ring, start, src, i, max) == 0
  {
  }

  /** A verified match, overlapping or not, is reproduced by the byte-by-byte copy. */
  lemma {:induction false} CopyBackMatch(src: seq<byte>, i: nat, off: nat, len: nat)
    requires 1 <= off <= i && i + len <= |src|
    requires src[i - off..i - off + len] == src[i..i + len]
    ensures CopyBack(src[..i], off, len) == src[..i + len]
    decreases len
  {
    if len > 0 {
      var from, at := src[i - off..i - off + len], src[i..i + len];
      assert src[i - off] == from[0] == at[0] == src[i];
      assert src[..i] + [src[..i][i - off]] == src[..i + 1];
      assert src[i + 1 - off..i - off + len] == from[1..] == at[1..] == src[i + 1..i + len];
      CopyBackMatch(src, i + 1, off, len - 1);
    }
  }

  /** FNV-1a of three bytes, folded to a table size. */
  function Hash3(src: seq<byte>, i: nat, size: nat): (h: nat)
    requires i + 3 <= |src| && size > 0
    ensures h < size
  {
    FnvStep(FnvStep(FnvStep(FNV_OFFSET, src[i]), src[i + 1]), src[i + 2]) % size
  }

  /** The hash of "foo" in both tables. */
  lemma Hash3Vector(src: seq<byte>, i: nat)
    requires i + 3 <= |src| && src[i..i + 3] == [102, 111, 111]
    ensures Hash3(src, i, HT_SIZE) == 727 && Hash3(src, i, CROSS_HT_SIZE) == 3799
  {
    hide FnvStep;
    var s := src[i..i + 3];
    assert src[i] == s[0] && src[i + 1] == s[1] && src[i + 2] == s[2];
    FnvVectors();
  }

  const HT_SIZE: nat := 1024
  const CROSS_HT_SIZE: nat := 4096

  /** The most recent position before `n` whose three bytes hash to `h`, or -1. */
  function LastWith(src: seq<byte>, n: nat, h: nat, size: nat): (j: int)
    requires size > 0
    ensures -1 <= j < n
    ensures j >= 0 ==> j + 3 <= |src| && Hash3(src, j, size) == h
  {
    if n == 0 then -1
    else if n + 2 <= |src| && Hash3(src, n - 1, size) == h then n - 1
    else LastWith(src, n - 1, h, size)
  }

  /** The hash table is the search for the most recent position. */
  ghost predicate Finds(ht: seq<int>, src: seq<byte>, n: nat) {
    |ht| > 0 && forall h :: 0 <= h < |ht| ==> ht[h] == LastWith(src, n, h, |ht|)
  }

  lemma FindsNext(ht: seq<int>, src: seq<byte>, n: nat)
    requires Finds(ht, src, n)
    ensures n + 3 <= |src| ==> Finds(ht[Hash3(src, n, |ht|) := n], src, n + 1)
    ensures n + 3 > |src| ==> Finds(ht, src, n + 1)
  {
    hide Hash3;
  }

  /** Records the positions a match skipped over. */
  method HashSkipped(src: seq<byte>, i: nat, len: nat, ht: array<int>)
    requires i + len <= |src| && len >= 1 && Finds(ht[..], src, i + 1)
    modifies ht
    ensures Finds(ht[..], src, i + len)
  {
    hide Hash3, Finds;
    var k := 1;
    FindsSize(ht[..], src, i + 1);
    while k < len && i + k + 3 <= |src|
      invariant 1 <= k <= len && Finds(ht[..], src, i + k)
    {
      FindsNext(ht[..], src, i + k);
      ghost var was := ht[..];
      ht[Hash3(src, i + k, ht.Length)] := i + k;
      assert ht[..] == was[Hash3(src, i + k, |was|) := i + k];
      k := k + 1;
    }
    ghost var m := k;
    while m < len
      invariant k <= m <= len && Finds(ht[..], src, i + m) && (m < len ==> i + m + 3 > |src|)
    {
      FindsNext(ht[..], src, i + m);
      m := m + 1;
    }
  }

  lemma FindsSize(ht: seq<int>, src: seq<byte>, n: nat)
    requires Finds(ht, src, n)
    ensures |ht| > 0
  {
  }

  // ---------------------------------------------------------------- the greedy parse

  datatype Match = Match(len: nat, off: nat, long: bool)

  const NO_MATCH: Match := Match(0, 0, false)

  predicate Ready(f: Format) {
    f.Cross? ==> f.pos < |f.ring|
  }

  /** The match with a candidate position in the packet, if it is near enough and long enough. */
  function ShortMatch(src: seq<byte>, i: nat, j: int, max: nat): (m: Match)
    requires -1 <= j < i <= |src|
    ensures m.len >= 3 ==> m.len <= max && i + m.len <= |src| && 1 <= m.off <= 256 && m.off <= i && !m.long
  {
    if j == -1 || i - j > 256 then NO_MATCH
    else
      var len := Agree(src, j, i, Min(|src| - i, max));
      if len >= 3 then Match(len, i - j, false) else NO_MATCH
  }

  /** How many of the recent ring bytes are hashed. */
  function ScanLength(size: nat, recent: nat): (n: nat) {
    var scan := if size >= 2 && recent > size - 2 then size - 2 else recent;
    if scan < 3 then 0 else scan
  }

  function RingHash(ring: seq<byte>, at: nat): (h: nat)
    requires at < |ring|
    ensures h < CROSS_HT_SIZE
  {
    Hash3([ring[at], ring[(at + 1) % |ring|], ring[(at + 2) % |ring|]], 0, CROSS_HT_SIZE)
  }

  /** The hash at the `k`-th position of a scan. */
  function ScanHash(ring: seq<byte>, start: nat, k: nat): (h: nat)
    requires |ring| > 0
  {
    RingHash(ring, (start + k) % |ring|)
  }

  /** The most recent of the first `n` hashed ring positions, from `start` on, that hashes to `h`. */
  function RingLast(ring: seq<byte>, start: nat, n: nat, h: nat): (at: int)
    requires |ring| > 0
    ensures -1 <= at < |ring|
  {
    if n == 0 then -1
    else if ScanHash(ring, start, n - 1) == h then (start + (n - 1)) % |ring|
    else RingLast(ring, start, n - 1, h)
  }

  function RingCandidate(ring: seq<byte>, pos: nat, recent: nat, h: nat): (at: int)
    requires pos < |ring|
    ensures -1 <= at < |ring|
  {
    var scan := ScanLength(|ring|, recent);
    RingLast(ring, (pos + |ring| - scan) % |ring|, if scan == 0 then 0 else scan - 2, h)
  }

  /** A match with a ring position that is strictly longer than the short one. */
  function LongMatch(f: Format, src: seq<byte>, i: nat, at: int, short: Match): (m: Match)
    requires f.Cross? && f.pos < |f.ring| && -1 <= at < |f.ring| && i <= |src|
    ensures m == short || (m.long && 3 <= m.len <= 66 && i + m.len <= |src| && 1 <= m.off <= 65536 && m.off <= |f.ring|)
  {
    if at == -1 then short
    else
      var size := |f.ring|;
      var off := (f.pos + size - at) % size;
      if off < 1 || off > 65536 then short
      else
        var len := RingAgree(f.ring, (f.pos + size - off) % size, src, i, Min(|src| - i, 66));
        if len >= 3 && len > short.len then Match(len, off, true) else short
  }

  /** The match used at `i`: with the most recent position of the same hash, in the packet or, when
      strictly longer, in the ring. */
  function Find(f: Format, recent: nat, src: seq<byte>, i: nat): (m: Match)
    requires Ready(f) && i + 3 <= |src|
    ensures m.len >= 3 ==> i + m.len <= |src|
  {
    match f
    case Plain => ShortMatch(src, i, LastWith(src, i, Hash3(src, i, HT_SIZE), HT_SIZE), 130)
    case Cross(ring, pos) =>
      var h := Hash3(src, i, CROSS_HT_SIZE);
      var short := ShortMatch(src, i, LastWith(src, i, h, CROSS_HT_SIZE), 66);
      LongMatch(f, src, i, RingCandidate(ring, pos, recent, h), short)
  }

  function Reference(m: Match): (r: seq<byte>)
    requires if m.long then 3 <= m.len <= 66 && 1 <= m.off <= 65536 else 3 <= m.len <= 130 && 1 <= m.off <= 256
    ensures |r| == if m.long then 3 else 2
  {
    if m.long then [192 + (m.len - 3), (m.off - 1) % 256, (m.off - 1) / 256] else [128 + (m.len - 3), m.off - 1]
  }

  /** The token stream of the greedy parse from `i` on, with literals pending since `start`. */
  function Greedy(f: Format, recent: nat, src: seq<byte>, i: nat, start: nat): (lz: seq<byte>)
    requires Ready(f) && start <= i <= |src|
    decreases |src| - i
  {
    if i + 3 > |src| then Literals(src[start..])
    else
      var m := Find(f, recent, src, i);
      if m.len >= 3 then Literals(src[start..i]) + Reference(m) + Greedy(f, recent, src, i + m.len, i + m.len)
      else Greedy(f, recent, src, i + 1, start)
  }

  lemma GreedyStep(f: Format, recent: nat, src: seq<byte>, i: nat, start: nat)
    requires Ready(f) && start <= i && i + 3 <= |src|
    ensures var m := Find(f, recent, src, i);
            Greedy(f, recent, src, i, start) ==
              if m.len >= 3 then Literals(src[start..i]) + Reference(m) + Greedy(f, recent, src, i + m.len, i + m.len)
              else Greedy(f, recent, src, i + 1, start)
  {
    hide Find, Literals;
  }

  lemma GreedyEnd(f: Format, recent: nat, src: seq<byte>, i: nat, start: nat)
    requires Ready(f) && start <= i <= |src| < i + 3
    ensures Greedy(f, recent, src, i, start) == Literals(src[start..|src|])
  {
    assert src[start..] == src[start..|src|];
  }

  /** A stream is kept when it is smaller than the packet and fits. */
  function Kept(lz: seq<byte>, n: nat, capacity: nat): (r: Option<seq<byte>>) {
    if |lz| < n && |lz| <= capacity then Some(lz) else None
  }

  // ---------------------------------------------------------------- what the match finder finds

  lemma {:induction false} AgreeAtLeast(src: seq<byte>, pos: nat, i: nat, max: nat, n: nat)
    requires pos < i && i + max <= |src| && n <= max && src[pos..pos + n] == src[i..i + n]
    ensures Agree(src, pos, i, max) >= n
    decreases n
  {
    if n > 0 {
      var a, b := src[pos..pos + n], src[i..i + n];
      assert src[pos] == a[0] && src[i] == b[0];
      assert src[pos + 1..pos + n] == a[1..] && src[i + 1..i + n] == b[1..];
      AgreeAtLeast(src, pos + 1, i + 1, max - 1, n - 1);
    }
  }

  lemma {:induction false} RingAgreeAtLeast(ring: seq<byte>, start: nat, src: seq<byte>, i: nat, max: nat, n: nat)
    requires |ring| > 0 && i + max <= |src| && n <= max && RingBytes(ring, start, n) == src[i..i + n]
    ensures RingAgree(ring, start, src, i, max) >= n
    decreases n
  {
    hide RingByte, RingBytes;
    if n > 0 {
      RingBytesFirst(ring, start, n - 1);
      var b := src[i..i + n];
      assert src[i] == b[0] && src[i + 1..i + n] == b[1..];
      RingAgreeAtLeast(ring, start + 1, src, i + 1, max - 1, n - 1);
    }
  }

  lemma {:induction false} LastWithIs(src: seq<byte>, n: nat, h: nat, size: nat, j: nat)
    requires size > 0 && j < n && j + 3 <= |src| && Hash3(src, j, size) == h
    requires forall k :: j < k < n && k + 3 <= |src| ==> Hash3(src, k, size) != h
    ensures LastWith(src, n, h, size) == j
  {
    hide Hash3;
    if n > j + 1 {
      LastWithIs(src, n - 1, h, size, j);
    }
  }

  /** The ring position `off` bytes back. */
  function BackFrom(ring: seq<byte>, pos: nat, off: nat): (at: nat)
    requires pos < |ring| && off <= |ring|
    ensures at < |ring|
  {
    if off <= pos then pos - off else pos + |ring| - off
  }

  /** `off` bytes back is the most recent hashed ring position with hash `h`; hashed are the offsets
      from 3 to `recent`, but not the last two bytes of the ring. */
  ghost predicate LatestInRing(ring: seq<byte>, pos: nat, recent: nat, h: nat, off: nat)
    requires pos < |ring|
  {
    && 3 <= off <= recent && off + 2 <= |ring| && RingHash(ring, BackFrom(ring, pos, off)) == h
    && forall k :: 3 <= k < off ==> RingHash(ring, BackFrom(ring, pos, k)) != h
  }

  /** `j` is the most recent position before `i` in the packet with the hash of the bytes at `i`. */
  ghost predicate LatestInPacket(src: seq<byte>, i: nat, size: nat, j: nat)
    requires size > 0 && i + 3 <= |src|
  {
    && j < i && Hash3(src, j, size) == Hash3(src, i, size)
    && forall k :: j < k < i ==> Hash3(src, k, size) != Hash3(src, i, size)
  }

  lemma ModBelowTwice(x: nat, n: nat)
    requires x < 2 * n
    ensures x % n == if x < n then x else x - n
  {
  }

  lemma {:induction false} RingLastIs(ring: seq<byte>, start: nat, m: nat, h: nat, j: nat)
    requires |ring| > 0 && j < m && ScanHash(ring, start, j) == h
    requires forall k :: j < k < m ==> ScanHash(ring, start, k) != h
    ensures RingLast(ring, start, m, h) == (start + j) % |ring|
  {
    hide ScanHash;
    if m > j + 1 {
      RingLastIs(ring, start, m - 1, h, j);
    }
  }

  /** The scan of `scan` bytes reaches the position `off` back after `scan - off` steps. */
  lemma ScanPosition(ring: seq<byte>, pos: nat, scan: nat, off: nat)
    requires pos < |ring| && off <= scan < |ring|
    ensures ((pos + |ring| - scan) % |ring| + (scan - off)) % |ring| == BackFrom(ring, pos, off)
  {
    var n := |ring|;
    ModBelowTwice(pos + n - scan, n);
    ModBelowTwice((pos + n - scan) % n + (scan - off), n);
  }

  lemma RingCandidateIs(ring: seq<byte>, pos: nat, recent: nat, h: nat, off: nat)
    requires pos < |ring| && LatestInRing(ring, pos, recent, h, off)
    ensures RingCandidate(ring, pos, recent, h) == BackFrom(ring, pos, off)
  {
    hide RingHash, BackFrom, ScanHash, RingLast;
    var scan := ScanLength(|ring|, recent);
    assert 3 <= off <= scan < |ring|;
    var start := (pos + |ring| - scan) % |ring|;
    forall j | scan - off <= j < scan - 2
      ensures ScanHash(ring, start, j) == h <==> j == scan - off
    {
      ScannedHash(ring, pos, scan, scan - j);
    }
    ScanPosition(ring, pos, scan, off);
    RingLastIs(ring, start, scan - 2, h, scan - off);
  }

  lemma ScannedHash(ring: seq<byte>, pos: nat, scan: nat, off: nat)
    requires pos < |ring| && off <= scan < |ring|
    ensures ScanHash(ring, (pos + |ring| - scan) % |ring|, scan - off) == RingHash(ring, BackFrom(ring, pos, off))
  {
    hide RingHash, BackFrom;
    ScanPosition(ring, pos, scan, off);
  }

  /** The offset of a ring position is how far back it is. */
  lemma OffsetBack(ring: seq<byte>, pos: nat, off: nat)
    requires pos < |ring| && 1 <= off < |ring|
    ensures (pos + |ring| - BackFrom(ring, pos, off)) % |ring| == off
    ensures (pos + |ring| - off) % |ring| == BackFrom(ring, pos, off)
  {
    ModBelowTwice(pos + |ring| - BackFrom(ring, pos, off), |ring|);
    ModBelowTwice(pos + |ring| - off, |ring|);
  }

  /** The match at `i` is at least as long as any agreement with the most recent ring position of the
      same hash. */
  lemma FindsInRing(ring: seq<byte>, pos: nat, recent: nat, src: seq<byte>, i: nat, off: nat, n: nat)
    requires pos < |ring| && i + 3 <= |src| && off <= 65536
    requires LatestInRing(ring, pos, recent, Hash3(src, i, CROSS_HT_SIZE), off)
    requires 3 <= n <= 66 && i + n <= |src| && RingBytes(ring, BackFrom(ring, pos, off), n) == src[i..i + n]
    ensures Find(Cross(ring, pos), recent, src, i).len >= n
  {
    hide Hash3, RingBytes, RingAgree, BackFrom, ShortMatch, RingCandidate;
    RingCandidateIs(ring, pos, recent, Hash3(src, i, CROSS_HT_SIZE), off);
    OffsetBack(ring, pos, off);
    RingAgreeAtLeast(ring, BackFrom(ring, pos, off), src, i, Min(|src| - i, 66), n);
  }

  /** The match at `i` is at least as long as any agreement with the most recent position of the same
      hash in the packet, up to 256 bytes back. */
  lemma FindsInPacket(f: Format, recent: nat, src: seq<byte>, i: nat, j: nat, n: nat)
    requires Ready(f) && i + 3 <= |src|
    requires LatestInPacket(src, i, if f.Plain? then HT_SIZE else CROSS_HT_SIZE, j) && i - j <= 256
    requires 3 <= n <= (if f.Plain? then 130 else 66) && i + n <= |src| && src[j..j + n] == src[i..i + n]
    ensures Find(f, recent, src, i).len >= n
    ensures Find(f, recent, src, i).long ==> Find(f, recent, src, i).len > n
  {
    hide Hash3, Agree, RingCandidate, LongMatch;
    var size, max := if f.Plain? then HT_SIZE else CROSS_HT_SIZE, if f.Plain? then 130 else 66;
    LastWithIs(src, i, Hash3(src, i, size), size, j);
    AgreeAtLeast(src, j, i, Min(|src| - i, max), n);
    if f.Cross? {
      LongIsLonger(f, src, i, RingCandidate(f.ring, f.pos, recent, Hash3(src, i, size)), ShortMatch(src, i, j, max));
    }
  }

  lemma LongIsLonger(f: Format, src: seq<byte>, i: nat, at: int, short: Match)
    requires f.Cross? && f.pos < |f.ring| && -1 <= at < |f.ring| && i <= |src| && !short.long
    ensures LongMatch(f, src, i, at, short).len >= short.len
    ensures LongMatch(f, src, i, at, short).long ==> LongMatch(f, src, i, at, short).len > short.len
  {
    hide RingAgree;
  }

  /** A short match names the most recent position of the hash in the packet, a long one the most recent
      in the ring: in both cases the bytes there are the bytes at `i`. */
  lemma {:induction false} FoundIsReal(f: Format, recent: nat, src: seq<byte>, i: nat)
    requires Ready(f) && i + 3 <= |src| && Find(f, recent, src, i).len >= 3
    ensures GoodMatch(f, src, i, Find(f, recent, src, i))
  {
    hide Hash3, RingBytes, RingAgree, Agree, LastWith, RingCandidate;
    var m := Find(f, recent, src, i);
    if m.long {
      RingAgreeMatches(f.ring, (f.pos + |f.ring| - m.off) % |f.ring|, src, i, Min(|src| - i, 66));
    } else {
      AgreeMatches(src, i - m.off, i, Min(|src| - i, if f.Plain? then 130 else 66));
    }
  }

  lemma {:induction false} AgreeMatches(src: seq<byte>, pos: nat, i: nat, max: nat)
    requires pos < i && i + max <= |src|
    ensures var m := Agree(src, pos, i, max); src[pos..pos + m] == src[i..i + m]
    decreases max
  {
    if max > 0 && src[pos] == src[i] {
      AgreeMatches(src, pos + 1, i + 1, max - 1);
      var m := Agree(src, pos + 1, i + 1, max - 1);
      assert src[pos..pos + 1 + m] == [src[pos]] + src[pos + 1..pos + 1 + m];
      assert src[i..i + 1 + m] == [src[i]] + src[i + 1..i + 1 + m];
    }
  }

  /** A packet of 3 to 66 bytes that repeats the last one sent, and whose first three bytes hash like no
      later ones in it, is one reference: three bytes. */
  lemma RepeatShrinks(ring: seq<byte>, pos: nat, src: seq<byte>)
    requires pos < |ring| && 3 <= |src| <= 66 && |src| + 2 <= |ring|
    requires RingBytes(ring, BackFrom(ring, pos, |src|), |src|) == src
    requires LatestInRing(ring, pos, |src|, Hash3(src, 0, CROSS_HT_SIZE), |src|)
    ensures Greedy(Cross(ring, pos), |src|, src, 0, 0) == [192 + (|src| - 3), |src| - 1, 0]
  {
    hide Hash3, RingBytes, BackFrom, LatestInRing, Find, Literals;
    var n, f := |src|, Cross(ring, pos);
    RepeatFound(ring, pos, src);
    GreedyStep(f, n, src, 0, 0);
    GreedyEnd(f, n, src, n, n);
    NoLiterals(src, 0);
    NoLiterals(src, n);
  }

  lemma RepeatFound(ring: seq<byte>, pos: nat, src: seq<byte>)
    requires pos < |ring| && 3 <= |src| <= 66 && |src| + 2 <= |ring|
    requires RingBytes(ring, BackFrom(ring, pos, |src|), |src|) == src
    requires LatestInRing(ring, pos, |src|, Hash3(src, 0, CROSS_HT_SIZE), |src|)
    ensures Find(Cross(ring, pos), |src|, src, 0) == Match(|src|, |src|, true)
  {
    hide Hash3, RingBytes, RingAgree, BackFrom, RingCandidate, LatestInRing, Agree;
    var n, h := |src|, Hash3(src, 0, CROSS_HT_SIZE);
    assert src[0..n] == src;
    RingCandidateIs(ring, pos, n, h, n);
    OffsetBack(ring, pos, n);
    RingAgreeAtLeast(ring, BackFrom(ring, pos, n), src, 0, n, n);
  }

  lemma {:induction false} RunAgrees(b: byte, n: nat, pos: nat, i: nat, max: nat)
    requires pos < i && i + max <= n
    ensures Agree(Run(b, n), pos, i, max) == max
    decreases max
  {
    if max > 0 {
      RunAgrees(b, n, pos + 1, i + 1, max - 1);
    }
  }

  /** In a run every position after the first matches one byte back, as far as a token reaches. */
  lemma RunFinds(b: byte, n: nat, i: nat)
    requires i + 3 <= n
    ensures Find(Plain, 0, Run(b, n), i) ==
            if i == 0 then NO_MATCH else Match(Min(n - i, 130), 1, false)
  {
    var src := Run(b, n);
    if i > 0 {
      SameHash(b, n, i - 1, i);
      hide Hash3;
      assert LastWith(src, i, Hash3(src, i, HT_SIZE), HT_SIZE) == i - 1;
      RunAgrees(b, n, i - 1, i, Min(n - i, 130));
    }
  }

  lemma SameHash(b: byte, n: nat, i: nat, j: nat)
    requires i + 3 <= n && j + 3 <= n
    ensures Hash3(Run(b, n), i, HT_SIZE) == Hash3(Run(b, n), j, HT_SIZE)
  {
  }

  lemma {:induction false} RunTail(b: byte, n: nat, i: nat)
    requires 1 <= i <= n
    ensures |Greedy(Plain, 0, Run(b, n), i, i)| <= if n - i >= 3 then n - i else n - i + 1
    decreases n - i
  {
    hide Find, Literals;
    var src := Run(b, n);
    if n - i >= 3 {
      RunFinds(b, n, i);
      GreedyStep(Plain, 0, src, i, i);
      NoLiterals(src, i);
      RunTail(b, n, i + Min(n - i, 130));
    } else {
      GreedyEnd(Plain, 0, src, i, i);
    }
  }

  /** The bytes of a run of 4 to 131: one literal, then one reference a byte back. */
  lemma RunBytes(b: byte, n: nat)
    requires 4 <= n <= 131
    ensures Greedy(Plain, 0, Run(b, n), 0, 0) == [0, b, 128 + (n - 4), 0]
  {
    hide Find;
    var src := Run(b, n);
    RunFinds(b, n, 0);
    GreedyStep(Plain, 0, src, 0, 0);
    RunFinds(b, n, 1);
    GreedyStep(Plain, 0, src, 1, 0);
    GreedyEnd(Plain, 0, src, n, n);
    assert src[0..1] == [b];
    NoLiterals(src, n);
  }

  /** A run of at least six bytes shrinks. */
  lemma RunShrinks(b: byte, n: nat)
    requires n >= 6
    ensures |Greedy(Plain, 0, Run(b, n), 0, 0)| < n
  {
    hide Find, Literals;
    var src := Run(b, n);
    RunFinds(b, n, 0);
    GreedyStep(Plain, 0, src, 0, 0);
    RunFinds(b, n, 1);
    GreedyStep(Plain, 0, src, 1, 0);
    RunTail(b, n, 1 + Min(n - 1, 130));
  }

  // ---------------------------------------------------------------- emitting tokens

  /** What an encoder has established between two tokens. */
  ghost predicate Progress(f: Format, src: seq<byte>, lz: seq<byte>, done: nat, capacity: nat) {
    && f.Valid() && done <= |src| && |lz| <= capacity
    && Parse(f, lz, 0, [], |src|) == Some(src[..done])
  }

  /** The match names bytes equal to those at `i`. */
  ghost predicate GoodMatch(f: Format, src: seq<byte>, i: nat, m: Match)
    requires Ready(f)
  {
    && 3 <= m.len <= (if f.Plain? then 130 else 66) && i + m.len <= |src|
    && (!m.long ==> 1 <= m.off <= 256 && m.off <= i && src[i - m.off..i - m.off + m.len] == src[i..i + m.len])
    && (m.long ==> f.Cross? && 1 <= m.off <= 65536 && m.off <= |f.ring| &&
                   RingBytes(f.ring, (f.pos + |f.ring| - m.off) % |f.ring|, m.len) == src[i..i + m.len])
  }

  /** Emits the pending literals and then the reference. */
  method EmitMatch(f: Format, src: seq<byte>, start: nat, i: nat, m: Match, lz: seq<byte>, capacity: nat)
    returns (r: Option<seq<byte>>)
    requires Ready(f) && Progress(f, src, lz, start, capacity) && start <= i && GoodMatch(f, src, i, m)
    ensures r.Some? ==> r.value == lz + (Literals(src[start..i]) + Reference(m))
    ensures r.Some? ==> Progress(f, src, r.value, i + m.len, capacity)
    ensures r.None? ==> var n := |lz| + |Literals(src[start..i]) + Reference(m)|; n > capacity || n > |src|
  {
    hide Parse, Literals, GoodMatch;
    MatchFits(f, src, i, m);
    r := FlushLiterals(f, src, start, i, lz, capacity);
    if r.None? {
      return;
    }
    var out := r.value;
    if f.Plain? && |out| >= |src| {
      return None;
    }
    var tok := Reference(m);
    if |out| + |tok| > capacity {
      return None;
    }
    MatchToken(f, src, i, m, out);
    ParseToken(f, out, tok, |src|, src[..i + m.len]);
    r := Some(out + tok);
  }

  lemma MatchFits(f: Format, src: seq<byte>, i: nat, m: Match)
    requires Ready(f) && GoodMatch(f, src, i, m)
    ensures i + m.len <= |src| && m.len >= 3
    ensures if m.long then 3 <= m.len <= 66 && 1 <= m.off <= 65536 else 3 <= m.len <= 130 && 1 <= m.off <= 256
  {
  }

  /** The reference token stands for the matched bytes. */
  lemma MatchToken(f: Format, src: seq<byte>, i: nat, m: Match, out: seq<byte>)
    requires Ready(f) && GoodMatch(f, src, i, m)
    ensures i + m.len <= |src|
    ensures Token(f, out + Reference(m), |out|, src[..i], |src|) == Some((|out| + |Reference(m)|, src[..i + m.len]))
  {
    hide CopyBack, RingBytes;
    var lz := out + Reference(m);
    if m.long {
      assert lz[|out|] == 192 + (m.len - 3);
      assert lz[|out| + 1] == (m.off - 1) % 256 && lz[|out| + 2] == (m.off - 1) / 256;
      assert src[..i] + src[i..i + m.len] == src[..i + m.len];
    } else {
      assert lz[|out|] == 128 + (m.len - 3) && lz[|out| + 1] == m.off - 1;
      CopyBackMatch(src, i, m.off, m.len);
    }
  }

  // ---------------------------------------------------------------- within a packet

  method FindShort(src: seq<byte>, i: nat, j: int, max: nat) returns (m: Match)
    requires -1 <= j < i < |src|
    ensures m == ShortMatch(src, i, j, max)
    ensures m.len >= 3 ==> src[i - m.off..i - m.off + m.len] == src[i..i + m.len]
  {
    m := NO_MATCH;
    if j != -1 && i - j <= 256 {
      var len := MatchLength(src, j, i, Min(|src| - i, max));
      if len >= 3 {
        m := Match(len, i - j, false);
      }
    }
  }

  lemma ShortIsGood(src: seq<byte>, i: nat, j: int, m: Match)
    requires -1 <= j < i < |src| && m == ShortMatch(src, i, j, 130) && m.len >= 3
    requires src[i - m.off..i - m.off + m.len] == src[i..i + m.len]
    ensures GoodMatch(Plain, src, i, m)
  {
  }

  /** lz77_encode: the hash table makes it the greedy parse with the most recent position of the same
      hash.  The stream is returned exactly when it is smaller than the packet and fits, and it stands
      for the packet. */
  method Encode(src: seq<byte>, capacity: nat) returns (r: Option<seq<byte>>)
    ensures r == Kept(Greedy(Plain, 0, src, 0, 0), |src|, capacity)
    ensures r.Some? ==> |r.value| < |src| && |r.value| <= capacity
    ensures r.Some? ==> Expand(Plain, r.value, |src|) == Some(src)
  {
    hide Parse, Hash3, Greedy, Literals, Finds, ShortMatch, GoodMatch, Expand, LastWith;
    var ht := new int[HT_SIZE](_ => -1);
    FindsNothing(ht[..], src);
    var lz: seq<byte>, i: nat, start: nat := [], 0, 0;
    ParseNothing(Plain, |src|);
    assert src[..0] == [];
    ghost var all := Greedy(Plain, 0, src, 0, 0);
    while i + 3 <= |src|
      invariant start <= i <= |src| && Progress(Plain, src, lz, start, capacity)
      invariant Finds(ht[..], src, i) && lz + Greedy(Plain, 0, src, i, start) == all
    {
      GreedyStep(Plain, 0, src, i, start);
      FindsNext(ht[..], src, i);
      FindsAt(ht[..], src, i);
      ghost var was := ht[..];
      var h := Hash3(src, i, HT_SIZE);
      var pos := ht[h];
      ht[h] := i;
      assert ht[..] == was[h := i];
      var m := FindShort(src, i, pos, 130);
      if m.len >= 3 {
        ShortIsGood(src, i, pos, m);
        MatchFits(Plain, src, i, m);
        r := EmitMatch(Plain, src, start, i, m, lz, capacity);
        if r.None? {
          return;
        }
        lz := r.value;
        HashSkipped(src, i, m.len, ht);
        i := i + m.len;
        start := i;
      } else {
        i := i + 1;
      }
      if |lz| >= |src| {
        return None;
      }
    }
    GreedyEnd(Plain, 0, src, i, start);
    r := Finish(Plain, src, start, lz, capacity);
  }

  /** The last literals, and the comparison with the packet. */
  method Finish(ghost f: Format, src: seq<byte>, start: nat, lz: seq<byte>, capacity: nat)
    returns (r: Option<seq<byte>>)
    requires Progress(f, src, lz, start, capacity)
    ensures r == Kept(lz + Literals(src[start..|src|]), |src|, capacity)
    ensures r.Some? ==> |r.value| < |src| && |r.value| <= capacity && Expand(f, r.value, |src|) == Some(src)
  {
    hide Parse, Literals;
    r := FlushLiterals(f, src, start, |src|, lz, capacity);
    if r.Some? && |r.value| >= |src| {
      r := None;
    }
    assert src[..|src|] == src;
  }

  lemma ParseNothing(f: Format, n: nat)
    requires f.Valid()
    ensures Parse(f, [], 0, [], n) == Some([])
  {
  }

  lemma FindsNothing(ht: seq<int>, src: seq<byte>)
    requires |ht| > 0 && forall k :: 0 <= k < |ht| ==> ht[k] == -1
    ensures Finds(ht, src, 0)
  {
  }

  lemma FindsAt(ht: seq<int>, src: seq<byte>, i: nat)
    requires Finds(ht, src, i) && i + 3 <= |src|
    ensures |ht| > 0 && ht[Hash3(src, i, |ht|)] == LastWith(src, i, Hash3(src, i, |ht|), |ht|)
  {
    hide Hash3;
  }

  // ---------------------------------------------------------------- across packets

  /** Hashes the most recent `recent` ring bytes, which end just before `pos`: every slot holds the
      most recent position of its hash. */
  method HashRing(ring: seq<byte>, pos: nat, recent: nat) returns (ht: array<int>)
    requires pos < |ring|
    ensures fresh(ht) && ht.Length == CROSS_HT_SIZE
    ensures forall h :: 0 <= h < CROSS_HT_SIZE ==> ht[h] == RingCandidate(ring, pos, recent, h)
  {
    hide Hash3;
    ht := new int[CROSS_HT_SIZE](_ => -1);
    var scan := recent;
    if |ring| >= 2 && scan > |ring| - 2 {
      scan := |ring| - 2;
    }
    if scan < 3 {
      scan := 0;
    }
    var start := (pos + |ring| - scan) % |ring|;
    var j := 0;
    while j + 2 < scan
      invariant 0 <= j && (scan == 0 ==> j == 0) && (scan > 0 ==> j <= scan - 2)
      invariant forall h :: 0 <= h < CROSS_HT_SIZE ==> ht[h] == RingLast(ring, start, j, h)
    {
      var at := (start + j) % |ring|;
      var three := [ring[at], ring[(at + 1) % |ring|], ring[(at + 2) % |ring|]];
      ht[Hash3(three, 0, CROSS_HT_SIZE)] := at;
      j := j + 1;
    }
  }

  /** The better of the two hash candidates; the ring wins only when strictly longer. */
  method BestMatch(f: Format, src: seq<byte>, i: nat, srcEntry: int, ringEntry: int) returns (m: Match)
    requires f.Cross? && f.pos < |f.ring| && i + 3 <= |src|
    requires -1 <= srcEntry < i && -1 <= ringEntry < |f.ring|
    ensures m == LongMatch(f, src, i, ringEntry, ShortMatch(src, i, srcEntry, 66))
    ensures m.len >= 3 ==> GoodMatch(f, src, i, m)
  {
    hide RingBytes, ShortMatch, Agree, RingAgree;
    m := FindShort(src, i, srcEntry, 66);
    if ringEntry != -1 {
      var size := |f.ring|;
      var off := (f.pos + size - ringEntry) % size;
      if off >= 1 && off <= 65536 {
        var start := (f.pos + size - off) % size;
        var len := RingMatchLength(f.ring, start, src, i, Min(|src| - i, 66));
        if len >= 3 && len > m.len {
          m := Match(len, off, true);
        }
      }
    }
  }

  /** lz77x_encode: the greedy parse with candidates from the packet itself and from the ring of
      earlier packets.  With no ring it is the plain encoder. */
  method EncodeCross(src: seq<byte>, ring: seq<byte>, pos: nat, recent: nat, capacity: nat)
    returns (r: Option<seq<byte>>)
    requires |ring| > 0 ==> pos < |ring|
    ensures var f := if |ring| > 0 then Cross(ring, pos) else Plain;
            && r == Kept(Greedy(f, if |ring| > 0 then recent else 0, src, 0, 0), |src|, capacity)
            && (r.Some? ==> |r.value| < |src| && |r.value| <= capacity && Expand(f, r.value, |src|) == Some(src))
  {
    hide Parse, Hash3, GoodMatch, RingBytes, Greedy, Literals, Finds, ShortMatch, LongMatch, RingCandidate;
    hide Expand, LastWith;
    if |ring| == 0 {
      r := Encode(src, capacity);
      return;
    }
    var f := Cross(ring, pos);
    var ringHt := HashRing(ring, pos, recent);
    var srcHt := new int[CROSS_HT_SIZE](_ => -1);
    FindsNothing(srcHt[..], src);
    var lz: seq<byte>, i: nat, start: nat := [], 0, 0;
    ParseNothing(f, |src|);
    assert src[..0] == [];
    ghost var all := Greedy(f, recent, src, 0, 0);
    while i + 3 <= |src|
      modifies srcHt
      invariant start <= i <= |src| && Progress(f, src, lz, start, capacity)
      invariant Finds(srcHt[..], src, i) && lz + Greedy(f, recent, src, i, start) == all
    {
      GreedyStep(f, recent, src, i, start);
      FindsNext(srcHt[..], src, i);
      FindsAt(srcHt[..], src, i);
      ghost var was := srcHt[..];
      var h := Hash3(src, i, CROSS_HT_SIZE);
      var ringEntry, srcEntry := ringHt[h], srcHt[h];
      srcHt[h] := i;
      assert srcHt[..] == was[h := i];
      var m := BestMatch(f, src, i, srcEntry, ringEntry);
      if m.len >= 3 {
        MatchFits(f, src, i, m);
        r := EmitMatch(f, src, start, i, m, lz, capacity);
        if r.None? {
          return;
        }
        lz := r.value;
        HashSkipped(src, i, m.len, srcHt);
        i := i + m.len;
        start := i;
      } else {
        i := i + 1;
      }
      if |lz| >= |src| {
        return None;
      }
    }
    GreedyEnd(f, recent, src, i, start);
    r := Finish(f, src, start, lz, capacity);
  }

  // ---------------------------------------------------------------- the decoder

  /** lz77_decode and lz77x_decode: the token loop over an output buffer of the announced size.
      It returns exactly what the stream stands for, and nothing for any other stream. */
  method Decode(f: Format, lz: seq<byte>, n: nat) returns (r: Option<seq<byte>>)
    requires f.Valid()
    ensures r == Expand(f, lz, n)
  {
    hide Token;
    var dst := new byte[n];
    var out: nat, i: nat := 0, 0;
    assert dst[..0] == [];
    while i < |lz|
      invariant i <= |lz| && out <= n
      invariant Parse(f, lz, 0, [], n) == Parse(f, lz, i, dst[..out], n)
      decreases |lz| - i
    {
      var ok;
      ok, i, out := DecodeToken(f, lz, i, dst, out);
      if !ok {
        return None;
      }
    }
    if out != n {
      return None;
    }
    r := Some(dst[..out]);
  }

  method DecodeToken(f: Format, lz: seq<byte>, i: nat, dst: array<byte>, out: nat)
    returns (ok: bool, next: nat, end: nat)
    requires f.Valid() && i < |lz| && out <= dst.Length
    modifies dst
    ensures ok ==> i < next <= |lz| && end <= dst.Length
    ensures Token(f, lz, i, old(dst[..out]), dst.Length) == if ok then Some((next, dst[..end])) else None
  {
    hide CopyBack, RingBytes;
    ok, next, end := false, i, out;
    var tok: int := lz[i];
    if tok < 128 {
      var lit := tok + 1;
      if i + 1 + lit > |lz| || out + lit > dst.Length {
        return;
      }
      WriteBytes(dst, out, lz[i + 1..i + 1 + lit]);
      ok, next, end := true, i + 1 + lit, out + lit;
    } else if f.Plain? || tok < 192 {
      if i + 1 >= |lz| {
        return;
      }
      var len, off: int := tok - 128 + 3, lz[i + 1] as int + 1;
      if off > out || out + len > dst.Length {
        return;
      }
      CopyWithin(dst, out, off, len);
      ok, next, end := true, i + 2, out + len;
    } else {
      if i + 3 > |lz| {
        return;
      }
      var len, off := tok - 192 + 3, lz[i + 1] as int + 256 * (lz[i + 2] as int) + 1;
      if |f.ring| == 0 || off > |f.ring| || out + len > dst.Length {
        return;
      }
      WriteBytes(dst, out, RingBytes(f.ring, (f.pos + |f.ring| - off) % |f.ring|, len));
      ok, next, end := true, i + 3, out + len;
    }
  }

  /** Writes `s` at `out`, leaving what comes before. */
  method WriteBytes(dst: array<byte>, out: nat, s: seq<byte>)
    requires out + |s| <= dst.Length
    modifies dst
    ensures dst[..out + |s|] == old(dst[..out]) + s
  {
    for k := 0 to |s|
      invariant dst[..out + k] == old(dst[..out]) + s[..k]
    {
      dst[out + k] := s[k];
      assert dst[..out + k + 1] == dst[..out + k] + [s[k]];
    }
    assert s[..|s|] == s;
  }

  /** The in-place copy from `off` bytes back; it may read bytes it has just written. */
  method CopyWithin(dst: array<byte>, out: nat, off: nat, len: nat)
    requires 1 <= off <= out && out + len <= dst.Length
    modifies dst
    ensures dst[..out + len] == CopyBack(old(dst[..out]), off, len)
  {
    hide CopyBack;
    for k := 0 to len
      invariant CopyBack(old(dst[..out]), off, len) == CopyBack(dst[..out + k], off, len - k)
    {
      CopyBackStep(dst[..out + k], off, len - k);
      ghost var was := dst[..out + k];
      dst[out + k] := dst[out - off + k];
      assert dst[..out + k + 1] == was + [was[|was| - off]];
    }
    CopyBackDone(dst[..out + len], off);
  }

  lemma CopyBackStep(out: seq<byte>, off: nat, len: nat)
    requires 1 <= off <= |out| && len > 0
    ensures CopyBack(out, off, len) == CopyBack(out + [out[|out| - off]], off, len - 1)
  {
  }

  lemma CopyBackDone(out: seq<byte>, off: nat)
    requires 1 <= off <= |out|
    ensures CopyBack(out, off, 0) == out
  {
  }
}
