/** Construction of the tANS tables (netc_tans_build and netc_tans_build_10), once for every
    table size `2^log` and odd spread step. */
module TansTable {
  import opened Machine

  const SYMBOLS: nat := 256

  datatype Params = Params(log: nat, step: nat) {
    predicate Valid() {
      1 <= log <= 15 && step % 2 == 1
    }
    function Size(): nat {
      Pow2(log)
    }
  }

  const PARAMS_12: Params := Params(12, 2563)
  const PARAMS_10: Params := Params(10, 643)

  datatype DecodeEntry = DecodeEntry(symbol: byte, nbBits: nat, base: nat)
  datatype EncodeEntry = EncodeEntry(freq: nat, lower: nat, cumul: nat, nbHi: nat)

  datatype Table = Table(p: Params, freq: seq<nat>, decode: seq<DecodeEntry>, encodeState: seq<nat>,
                         encode: seq<EncodeEntry>, valid: bool)

  // ---------------------------------------------------------------- the spread

  /** The slot the spread loop reaches after `t` placements. */
  function Slot(p: Params, t: nat): (pos: nat)
  {
    if t == 0 then 0 else Low(Slot(p, t - 1) + p.step, p.log)
  }

  /** An inverse of an odd step modulo `2^n`, built bit by bit. */
  function Inverse(step: nat, n: nat): (inv: nat)
  {
    if n <= 1 then 1
    else
      var i := Inverse(step, n - 1);
      if (step * i) % Pow2(n) == 1 then i else i + Pow2(n - 1)
  }

  /** Which placement of the spread fills slot `pos`. */
  function SpreadIndex(p: Params, pos: nat): (t: nat)
  {
    (pos * Inverse(p.step, p.log)) % Pow2(p.log)
  }

  lemma MulAtLeast(k: int, d: nat)
    requires k >= 1
    ensures k * d >= d
  {
  }

  lemma DivModUnique(a: int, q: int, r: int, d: nat)
    requires d > 0 && a == q * d + r && 0 <= r < d
    ensures a / d == q && a % d == r
  {
    var q', r' := a / d, a % d;
    assert (q - q') * d == r' - r;
    if q < q' {
      MulAtLeast(q' - q, d);
      assert false;
    } else if q' < q {
      MulAtLeast(q - q', d);
      assert false;
    }
  }

  lemma ModMultiple(a: int, k: int, m: nat)
    requires m > 0
    ensures (a + k * m) % m == a % m
  {
    assert a + k * m == (a / m + k) * m + a % m;
    DivModUnique(a + k * m, a / m + k, a % m, m);
  }

  lemma ModMul(a: nat, b: nat, m: nat)
    requires m > 0
    ensures ((a % m) * b) % m == (a * b) % m
  {
    var q, r := a / m, a % m;
    assert a * b == r * b + (q * b) * m;
    ModMultiple(r * b, q * b, m);
  }

  /** Reducing before an addition does not change the remainder. */
  lemma ModAdd(a: nat, b: nat, m: nat)
    requires m > 0
    ensures (a % m + b) % m == (a + b) % m
  {
    assert a % m + b == (a + b) + (-(a / m)) * m;
    ModMultiple(a + b, -(a / m), m);
  }

  lemma LowIsMod(x: nat, n: nat)
    ensures Low(x, n) == x % Pow2(n)
  {
    Split(x, n);
    ShlIsMul(Shr(x, n), n);
    DivModUnique(x, Shr(x, n), Low(x, n), Pow2(n));
  }

  lemma {:induction false} ShlIsMul(v: nat, n: nat)
    ensures Shl(v, n) == v * Pow2(n)
  {
    if n != 0 {
      ShlIsMul(v, n - 1);
    }
  }

  lemma {:induction false} InverseCorrect(step: nat, n: nat)
    requires step % 2 == 1 && n >= 1
    ensures (step * Inverse(step, n)) % Pow2(n) == 1
  {
    hide Shl, Pow2;
    if n == 1 {
      Pow2Succ(0);
    } else {
      InverseCorrect(step, n - 1);
      Pow2Succ(n - 1);
      Pow2Mono(1, n - 1);
      Pow2Succ(0);
      InverseStep(step, Inverse(step, n - 1), Pow2(n - 1));
    }
  }

  /** If `step * i` is 1 modulo `h`, then `i` or `i + h` inverts the odd step modulo `2h`. */
  lemma InverseStep(step: nat, i: nat, h: nat)
    requires step % 2 == 1 && h > 1 && (step * i) % h == 1
    ensures (step * i) % (2 * h) == 1 || (step * (i + h)) % (2 * h) == 1
  {
    var x, m := step * i, (step * i) / h;
    DivisionOfOne(x, h);
    if m % 2 == 0 {
      HalveProduct(m, h, m / 2);
      DivModUnique(x, m / 2, 1, 2 * h);
    } else {
      var k := (m + step) / 2;
      Distribute(step, i, h);
      Distribute(h, m, step);
      HalveProduct(m + step, h, k);
      DivModUnique(step * (i + h), k, 1, 2 * h);
    }
  }

  lemma DivisionOfOne(x: nat, h: nat)
    requires h > 1 && x % h == 1
    ensures x == (x / h) * h + 1
  {
  }

  lemma Distribute(a: int, b: int, c: int)
    ensures a * (b + c) == a * b + a * c && (b + c) * a == b * a + c * a
  {
  }

  lemma HalveProduct(m: int, h: int, k: int)
    requires m == 2 * k
    ensures m * h == k * (2 * h)
  {
  }

  lemma {:induction false} SlotClosedForm(p: Params, t: nat)
    ensures Slot(p, t) == (t * p.step) % Pow2(p.log)
  {
    hide Shl, Low, Pow2;
    if t != 0 {
      SlotClosedForm(p, t - 1);
      LowIsMod(Slot(p, t - 1) + p.step, p.log);
      ModAdd((t - 1) * p.step, p.step, Pow2(p.log));
      assert t * p.step == (t - 1) * p.step + p.step;
    }
  }

  lemma SlotBound(p: Params, t: nat)
    ensures Slot(p, t) < Pow2(p.log)
  {
    SlotClosedForm(p, t);
  }

  /** The spread visits every slot exactly once: `SpreadIndex` inverts it on both sides. */
  lemma SpreadIsPermutation(p: Params, t: nat)
    requires p.Valid() && t < p.Size()
    ensures SpreadIndex(p, t) < p.Size()
    ensures Slot(p, SpreadIndex(p, t)) == t
    ensures SpreadIndex(p, Slot(p, t)) == t
  {
    hide Shl, Low, Pow2, Slot, Inverse;
    var m, s, i := Pow2(p.log), p.step, Inverse(p.step, p.log);
    InverseCorrect(s, p.log);
    SlotClosedForm(p, SpreadIndex(p, t));
    SlotClosedForm(p, t);
    MulInverse(t, i, s, m);
    assert s * i == i * s;
    MulInverse(t, s, i, m);
  }

  lemma Reassociate(t: int, i: int, s: int)
    ensures (t * i) * s == (s * i) * t
  {
  }

  lemma MulInverse(t: nat, i: nat, s: nat, m: nat)
    requires t < m && (s * i) % m == 1
    ensures (((t * i) % m) * s) % m == t
  {
    ModMul(t * i, s, m);
    Reassociate(t, i, s);
    ModMul(s * i, t, m);
    DivModUnique(t, 0, t, m);
  }

  // ---------------------------------------------------------------- what a table contains

  /** A frequency table a builder accepts. */
  ghost predicate FreqFits(p: Params, freq: seq<nat>) {
    |freq| == SYMBOLS && Sum(freq) == p.Size()
  }

  /** The symbol whose block of placements contains placement `t`. */
  function SymbolAt(freq: seq<nat>, t: nat): (s: nat)
    requires t < Sum(freq)
    ensures s < |freq| && Sum(freq[..s]) <= t < Sum(freq[..s]) + freq[s]
  {
    var n := |freq| - 1;
    if t >= Sum(freq[..n]) then n
    else
      var r := SymbolAt(freq[..n], t);
      assert freq[..n][..r] == freq[..r];
      r
  }

  lemma SymbolAtUnique(freq: seq<nat>, t: nat, s: nat)
    requires s < |freq| && Sum(freq[..s]) <= t < Sum(freq[..s]) + freq[s]
    ensures t < Sum(freq) && SymbolAt(freq, t) == s
  {
    SumPrefixStep(freq, s);
    SumPrefixTotal(freq, s + 1);
    var r := SymbolAt(freq, t);
    SumPrefixStep(freq, r);
    if r < s {
      SumPrefixMono(freq, r + 1, s);
      assert false;
    } else if s < r {
      SumPrefixMono(freq, s + 1, r);
      assert false;
    }
  }

  /** Bits flushed for a reduced state `x`, clamped at zero as the builder does. */
  function FlushBits(p: Params, x: nat): (nb: nat)
    ensures nb <= p.log
  {
    if FloorLog2(x) > p.log then 0 else p.log - FloorLog2(x)
  }

  function DecodeEntryAt(p: Params, freq: seq<nat>, t: nat): (d: DecodeEntry)
    requires |freq| == SYMBOLS && t < Sum(freq)
  {
    var s := SymbolAt(freq, t);
    var x := freq[s] + (t - Sum(freq[..s]));
    DecodeEntry(s, FlushBits(p, x), Shl(x, FlushBits(p, x)))
  }

  function EncodeEntryOf(p: Params, freq: seq<nat>, s: nat): (e: EncodeEntry)
    requires s < |freq|
  {
    if freq[s] == 0 then EncodeEntry(0, 0, 0, 0)
    else EncodeEntry(freq[s], Shl(freq[s], FlushBits(p, freq[s])), Sum(freq[..s]), FlushBits(p, freq[s]))
  }

  /** The tables of a frequency table, slot by slot. */
  ghost function TableOf(p: Params, freq: seq<nat>): (t: Table)
    requires p.Valid() && FreqFits(p, freq)
  {
    Table(p, freq,
          seq(p.Size(), pos requires 0 <= pos < p.Size() =>
            SpreadIsPermutation(p, pos); DecodeEntryAt(p, freq, SpreadIndex(p, pos))),
          seq(p.Size(), i requires 0 <= i < p.Size() => p.Size() + Slot(p, i)),
          seq(SYMBOLS, s requires 0 <= s < SYMBOLS => EncodeEntryOf(p, freq, s)),
          true)
  }

  /** Where everything is in a table: the `k`-th occurrence of a symbol sits `step` times its place in the
      cumulative order, modulo the table size; its entry asks for as many bits as bring `freq + k` into
      the state range, and its base is that multiple. */
  lemma TableSpread(p: Params, freq: seq<nat>, s: byte, k: nat)
    requires p.Valid() && FreqFits(p, freq) && k < freq[s]
    ensures var place, tab := Sum(freq[..s]) + k, TableOf(p, freq);
            var pos := (place * p.step) % p.Size();
            && place < p.Size() && tab.encodeState[place] == p.Size() + pos
            && tab.decode[pos].symbol == s && tab.decode[pos].base == (freq[s] + k) * Pow2(tab.decode[pos].nbBits)
            && p.Size() <= tab.decode[pos].base < 2 * p.Size()
  {
    hide Shl, Low, Slot, SpreadIndex, FloorLog2, Sum, SymbolAt;
    var place := Sum(freq[..s]) + k;
    SumPrefixStep(freq, s);
    SumPrefixTotal(freq, s + 1);
    SlotClosedForm(p, place);
    SpreadIsPermutation(p, place);
    SlotBound(p, place);
    SymbolAtUnique(freq, place, s);
    var x := freq[s] + k;
    ReducedStateSpan(p, x);
    ShlIsMul(x, FlushBits(p, x));
  }

  /** The two spread steps are five eighths of the table size plus three, and invertible. */
  lemma SpreadSteps()
    ensures PARAMS_12.Size() == 4096 && PARAMS_12.step == 4096 / 2 + 4096 / 8 + 3 && (PARAMS_12.step * 171) % 4096 == 1
    ensures PARAMS_10.Size() == 1024 && PARAMS_10.step == 1024 / 2 + 1024 / 8 + 3 && (PARAMS_10.step * 43) % 1024 == 1
  {
    Pow2Values();
  }

  /** Every entry fits the 16-bit and 8-bit fields it is stored in. */
  lemma EntriesFit(p: Params, freq: seq<nat>, t: nat)
    requires p.Valid() && FreqFits(p, freq) && t < p.Size()
    ensures var d := DecodeEntryAt(p, freq, t);
            && p.Size() <= d.base && d.base + Pow2(d.nbBits) <= 2 * p.Size() <= 65536
            && freq[d.symbol] > 0
    ensures p.Size() + Slot(p, t) < 2 * p.Size()
  {
    hide Shl, Low, FloorLog2, Slot;
    SlotBound(p, t);
    var s := SymbolAt(freq, t);
    var x := freq[s] + (t - Sum(freq[..s]));
    SumPrefixStep(freq, s);
    SumPrefixTotal(freq, s + 1);
    ReducedStateSpan(p, x);
    Pow2Values();
    Pow2Mono(p.log + 1, 16);
    Pow2Succ(p.log);
  }

  /** A reduced state below `2^(log+1)` shifted by its flush width, plus any flushed bits, is a
      state. */
  lemma ReducedStateSpan(p: Params, x: nat)
    requires 1 <= x < 2 * p.Size()
    ensures var nb := FlushBits(p, x);
            p.Size() <= Shl(x, nb) && Shl(x, nb) + Pow2(nb) <= 2 * p.Size()
  {
    hide Shl, FloorLog2;
    var k := FloorLog2(x);
    Pow2Succ(p.log);
    if k > p.log {
      Pow2Mono(p.log + 1, k);
      assert false;
    }
    var nb := p.log - k;
    ShlShl(1, k, nb);
    ShlMono(Pow2(k), x, nb);
    ShlAdd(x, 1, nb);
    ShlMono(x + 1, 2 * Pow2(k), nb);
    ShlAdd(Pow2(k), Pow2(k), nb);
  }

  // ---------------------------------------------------------------- one step of the coder

  /** The number of bits the encoder flushes before coding a symbol in state `x`. */
  function StepBits(e: EncodeEntry, x: nat): (nb: nat)
  {
    if e.nbHi == 0 || x >= e.lower then e.nbHi else e.nbHi - 1
  }

  /** Encoding in state `x` reaches a slot whose decode entry names the same symbol, asks for the
      same number of bits and, with those bits, rebuilds `x`. */
  lemma StepInverse(p: Params, freq: seq<nat>, s: byte, x: nat)
    requires p.Valid() && FreqFits(p, freq) && freq[s] > 0
    requires p.Size() <= x < 2 * p.Size()
    ensures var e := EncodeEntryOf(p, freq, s);
            var nb := StepBits(e, x);
            var i := e.cumul + Shr(x, nb) - e.freq;
            && nb <= p.log && Low(x, nb) < Pow2(nb)
            && e.freq <= Shr(x, nb) < 2 * e.freq
            && 0 <= i < p.Size()
            && DecodeEntryAt(p, freq, i) == DecodeEntry(s, nb, x - Low(x, nb))
  {
    hide Shl, Shr, Low, FloorLog2;
    var f := freq[s];
    var e := EncodeEntryOf(p, freq, s);
    var nb := StepBits(e, x);
    var r := Shr(x, nb);
    SumPrefixStep(freq, s);
    SumPrefixTotal(freq, s + 1);
    Split(x, nb);
    ReducedRange(p, f, x);
    SymbolAtUnique(freq, e.cumul + r - f, s);
  }

  /** Normalising a state for frequency `f` leaves a reduced state in `[f, 2f)` whose own flush
      width is the number of bits removed. */
  lemma ReducedRange(p: Params, f: nat, x: nat)
    requires 1 <= f <= p.Size() <= x < 2 * p.Size()
    ensures var hi := FlushBits(p, f);
            var nb := if hi == 0 || x >= Shl(f, hi) then hi else hi - 1;
            f <= Shr(x, nb) < 2 * f && FlushBits(p, Shr(x, nb)) == nb
  {
    hide Shl, Shr, Low, FloorLog2;
    var k := FloorLog2(f);
    Pow2Succ(p.log);
    if k > p.log {
      Pow2Mono(p.log + 1, k);
      assert false;
    }
    var hi := p.log - k;
    ShlShl(1, k, hi);
    ShlAdd(Pow2(k), Pow2(k), hi);
    if hi == 0 || x >= Shl(f, hi) {
      assert x >= Shl(f, hi) by {
        if hi == 0 {
          ShlZeroWidth(f);
        }
      }
      ShrAtLeast(x, f, hi);
      ShrBelow(x, 2 * Pow2(k), hi);
      FloorLog2Unique(Shr(x, hi), k);
    } else {
      ShlDouble(f, hi);
      ShrBelow(x, 2 * f, hi - 1);
      ShlDouble(Pow2(k), hi);
      ShrAtLeast(x, 2 * Pow2(k), hi - 1);
      Pow2Succ(k);
      FloorLog2Unique(Shr(x, hi - 1), k + 1);
    }
  }

  lemma ShlZeroWidth(f: nat)
    ensures Shl(f, 0) == f
  {
  }

  lemma ShlDouble(f: nat, n: nat)
    requires n > 0
    ensures Shl(2 * f, n - 1) == Shl(f, n)
  {
    ShlAdd(f, f, n - 1);
  }

  // ---------------------------------------------------------------- the builder

  /** netc_tans_build: rejects a table whose frequencies do not sum to the table size. */
  method Build(p: Params, freq: seq<nat>) returns (r: Option<Table>)
    requires p.Valid() && |freq| == SYMBOLS
    ensures r.Some? <==> Sum(freq) == p.Size()
    ensures r.Some? ==> r.value == TableOf(p, freq)
  {
    var cumul := Cumulative(freq);
    if cumul[SYMBOLS] != p.Size() {
      return None;
    }
    var encode := BuildEncodeEntries(p, freq, cumul);
    var states := BuildEncodeStates(p, freq, cumul);
    var decode := BuildDecode(p, freq);
    r := Some(Table(p, freq, decode, states, encode, true));
  }

  /** The running totals; the last one is the sum the validation compares. */
  method Cumulative(freq: seq<nat>) returns (cumul: seq<nat>)
    requires |freq| == SYMBOLS
    ensures |cumul| == SYMBOLS + 1 && cumul[SYMBOLS] == Sum(freq)
    ensures forall s :: 0 <= s <= SYMBOLS ==> cumul[s] == Sum(freq[..s])
  {
    var c := new nat[SYMBOLS + 1];
    c[0] := 0;
    for s := 0 to SYMBOLS
      invariant forall k :: 0 <= k <= s ==> c[k] == Sum(freq[..k])
    {
      SumPrefixStep(freq, s);
      c[s + 1] := c[s] + freq[s];
    }
    assert freq[..SYMBOLS] == freq;
    cumul := c[..];
  }

  method BuildEncodeEntries(p: Params, freq: seq<nat>, cumul: seq<nat>) returns (encode: seq<EncodeEntry>)
    requires |freq| == SYMBOLS && |cumul| == SYMBOLS + 1
    requires forall s :: 0 <= s <= SYMBOLS ==> cumul[s] == Sum(freq[..s])
    ensures |encode| == SYMBOLS
    ensures forall s :: 0 <= s < SYMBOLS ==> encode[s] == EncodeEntryOf(p, freq, s)
  {
    var e := new EncodeEntry[SYMBOLS](_ => EncodeEntry(0, 0, 0, 0));
    for s := 0 to SYMBOLS
      invariant forall k :: 0 <= k < s ==> e[k] == EncodeEntryOf(p, freq, k)
      invariant forall k :: s <= k < SYMBOLS ==> e[k] == EncodeEntry(0, 0, 0, 0)
    {
      if freq[s] != 0 {
        var fl := FloorLog2Loop(freq[s]);
        var nbHi := if fl > p.log then 0 else p.log - fl;
        e[s] := EncodeEntry(freq[s], Shl(freq[s], nbHi), cumul[s], nbHi);
      }
    }
    encode := e[..];
  }

  method BuildEncodeStates(p: Params, freq: seq<nat>, cumul: seq<nat>) returns (states: seq<nat>)
    requires p.Valid() && FreqFits(p, freq) && |cumul| == SYMBOLS + 1
    requires forall s :: 0 <= s <= SYMBOLS ==> cumul[s] == Sum(freq[..s])
    ensures |states| == p.Size()
    ensures forall i :: 0 <= i < p.Size() ==> states[i] == p.Size() + Slot(p, i)
  {
    hide Shl, Low, Sum, Slot;
    SlotStart(p);
    SumPrefixEmpty(freq);
    var a := new nat[p.Size()];
    var pos := 0;
    for s := 0 to SYMBOLS
      invariant cumul[s] <= p.Size() && pos == Slot(p, cumul[s])
      invariant forall i :: 0 <= i < cumul[s] ==> a[i] == p.Size() + Slot(p, i)
    {
      SumPrefixStep(freq, s);
      SumPrefixTotal(freq, s + 1);
      pos := StoreSlots(p, a, cumul[s], freq[s], pos);
    }
    assert freq[..SYMBOLS] == freq;
    states := a[..];
  }

  /** The inner loop: the slots of all occurrences of one symbol, in rank order. */
  method StoreSlots(p: Params, a: array<nat>, first: nat, count: nat, start: nat) returns (pos: nat)
    requires a.Length == p.Size() && first + count <= p.Size() && start == Slot(p, first)
    requires forall i :: 0 <= i < first ==> a[i] == p.Size() + Slot(p, i)
    modifies a
    ensures pos == Slot(p, first + count)
    ensures forall i :: 0 <= i < first + count ==> a[i] == p.Size() + Slot(p, i)
  {
    hide Shl, Low, Slot, Pow2;
    pos := start;
    for k := 0 to count
      invariant pos == Slot(p, first + k)
      invariant forall i :: 0 <= i < first + k ==> a[i] == p.Size() + Slot(p, i)
    {
      SlotNext(p, first + k);
      a[first + k] := p.Size() + pos;
      pos := Low(pos + p.step, p.log);
    }
  }

  lemma SlotNext(p: Params, t: nat)
    ensures Slot(p, t + 1) == Low(Slot(p, t) + p.step, p.log)
  {
  }

  lemma SlotStart(p: Params)
    ensures Slot(p, 0) == 0
  {
  }

  lemma SumPrefixEmpty(freq: seq<nat>)
    ensures Sum(freq[..0]) == 0
  {
  }

  /** The first `t` placements have written their slots. */
  ghost predicate Placed(a: seq<DecodeEntry>, p: Params, freq: seq<nat>, t: nat) {
    && |a| == p.Size() && |freq| == SYMBOLS && t <= Sum(freq)
    && forall i :: 0 <= i < t ==> Slot(p, i) < p.Size() && a[Slot(p, i)] == DecodeEntryAt(p, freq, i)
  }

  /** The next placement does not overwrite an earlier one. */
  lemma PlaceNext(a: seq<DecodeEntry>, p: Params, freq: seq<nat>, t: nat)
    requires p.Valid() && FreqFits(p, freq) && t < p.Size() && Placed(a, p, freq, t)
    ensures Slot(p, t) < p.Size()
    ensures Placed(a[Slot(p, t) := DecodeEntryAt(p, freq, t)], p, freq, t + 1)
  {
    hide DecodeEntryAt, Slot;
    SlotBound(p, t);
    SlotInjective(p, t);
  }

  /** The second run of the spread fills the decode table. */
  method BuildDecode(p: Params, freq: seq<nat>) returns (decode: seq<DecodeEntry>)
    requires p.Valid() && FreqFits(p, freq)
    ensures |decode| == p.Size()
    ensures forall pos :: 0 <= pos < p.Size() ==>
              SpreadIndex(p, pos) < p.Size() && decode[pos] == DecodeEntryAt(p, freq, SpreadIndex(p, pos))
  {
    hide SpreadIndex, DecodeEntryAt, Slot, Sum, Placed;
    SlotStart(p);
    SumPrefixEmpty(freq);
    var a := new DecodeEntry[p.Size()](_ => DecodeEntry(0, 0, 0));
    PlacedNone(a[..], p, freq);
    var pos := 0;
    for s := 0 to SYMBOLS
      invariant Placed(a[..], p, freq, Sum(freq[..s])) && pos == Slot(p, Sum(freq[..s]))
    {
      SumPrefixStep(freq, s);
      SumPrefixTotal(freq, s + 1);
      pos := PlaceSymbol(p, freq, s, a, pos);
    }
    assert freq[..SYMBOLS] == freq;
    decode := a[..];
    PlacedAll(decode, p, freq);
  }

  lemma PlacedNone(a: seq<DecodeEntry>, p: Params, freq: seq<nat>)
    requires |a| == p.Size() && |freq| == SYMBOLS
    ensures Placed(a, p, freq, 0)
  {
  }

  /** Every slot was written by the placement that reaches it. */
  lemma PlacedAll(a: seq<DecodeEntry>, p: Params, freq: seq<nat>)
    requires p.Valid() && FreqFits(p, freq) && Placed(a, p, freq, p.Size())
    ensures |a| == p.Size()
    ensures forall q :: 0 <= q < p.Size() ==>
              SpreadIndex(p, q) < p.Size() && a[q] == DecodeEntryAt(p, freq, SpreadIndex(p, q))
  {
    hide SpreadIndex, DecodeEntryAt, Slot;
    forall q | 0 <= q < p.Size()
      ensures SpreadIndex(p, q) < p.Size() && a[q] == DecodeEntryAt(p, freq, SpreadIndex(p, q))
    {
      SpreadIsPermutation(p, q);
    }
  }

  /** The inner loop: all occurrences of one symbol. */
  method PlaceSymbol(p: Params, freq: seq<nat>, s: byte, a: array<DecodeEntry>, start: nat) returns (pos: nat)
    requires p.Valid() && FreqFits(p, freq) && Sum(freq[..s]) + freq[s] <= p.Size()
    requires Placed(a[..], p, freq, Sum(freq[..s])) && start == Slot(p, Sum(freq[..s]))
    modifies a
    ensures Placed(a[..], p, freq, Sum(freq[..s]) + freq[s]) && pos == Slot(p, Sum(freq[..s]) + freq[s])
  {
    hide Low, Shl, Placed, Slot, Sum, FloorLog2, Pow2, SymbolAt, DecodeEntryAt;
    pos := start;
    for k := 0 to freq[s]
      invariant Placed(a[..], p, freq, Sum(freq[..s]) + k) && pos == Slot(p, Sum(freq[..s]) + k)
    {
      ghost var t := Sum(freq[..s]) + k;
      var x := freq[s] + k;
      var fl := FloorLog2Loop(x);
      var nb := if fl > p.log then 0 else p.log - fl;
      EntryOfSymbol(p, freq, s, k);
      SlotNext(p, t);
      PlaceNext(a[..], p, freq, t);
      PlacedSize(a[..], p, freq, t);
      ghost var was := a[..];
      a[pos] := DecodeEntry(s, nb, Shl(x, nb));
      assert a[..] == was[pos := DecodeEntryAt(p, freq, t)];
      pos := Low(pos + p.step, p.log);
    }
  }

  lemma EntryOfSymbol(p: Params, freq: seq<nat>, s: byte, k: nat)
    requires p.Valid() && FreqFits(p, freq) && k < freq[s] && Sum(freq[..s]) + k < p.Size()
    ensures var x := freq[s] + k;
            var nb := if FloorLog2(x) > p.log then 0 else p.log - FloorLog2(x);
            DecodeEntryAt(p, freq, Sum(freq[..s]) + k) == DecodeEntry(s, nb, Shl(x, nb))
  {
    hide Shl, Sum, FloorLog2;
    SymbolAtUnique(freq, Sum(freq[..s]) + k, s);
  }

  lemma PlacedSize(a: seq<DecodeEntry>, p: Params, freq: seq<nat>, t: nat)
    requires Placed(a, p, freq, t)
    ensures |a| == p.Size()
  {
  }

  lemma SlotInjective(p: Params, t: nat)
    requires p.Valid() && t < p.Size()
    ensures forall i :: 0 <= i < t ==> Slot(p, i) != Slot(p, t)
  {
    SpreadIsPermutation(p, t);
    forall i | 0 <= i < t
      ensures Slot(p, i) != Slot(p, t)
    {
      SpreadIsPermutation(p, i);
    }
  }
}
