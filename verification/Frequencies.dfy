/** Exact-sum frequency scaling: counts to 4096 (freq_normalize in netc_dict.c and
    freq_normalize_adaptive in netc_adaptive.c, the same algorithm) and 4096 to 1024
    (netc_freq_rescale_12_to_10). */
module Frequencies {
  import opened Machine

  const N: nat := 256
  const TOTAL_12: nat := 4096
  const TOTAL_10: nat := 1024
  const BUDGET: nat := 3840

  // ---------------------------------------------------------------- counts to 4096

  /** One past the largest 64-bit value. */
  const DWORD: nat := 0x1_0000_0000_0000_0000

  /** The share of the 3840 free slots for a count; the product is a 64-bit one. */
  function Bonus(count: nat, total: nat): (b: nat)
    requires total > 0
  {
    count * BUDGET % DWORD / total
  }

  /** Without wrap-around it is the proportional share. */
  lemma BonusProportional(count: nat, total: nat)
    requires 0 < total && count <= total && total * BUDGET < DWORD
    ensures Bonus(count, total) == count * BUDGET / total
  {
    SmallRemainder(count * BUDGET);
  }

  lemma SmallRemainder(x: nat)
    requires x < DWORD
    ensures x % DWORD == x
  {
  }

  function Shares(raw: seq<nat>, total: nat): (r: seq<nat>)
    requires total > 0
    ensures |r| == |raw| && forall s :: 0 <= s < |r| ==> r[s] >= 1
  {
    seq(|raw|, s requires 0 <= s < |raw| => 1 + Bonus(raw[s], total))
  }

  /** Symbol and value of the first maximum above 1 among the first `k`; (0, 1) if there is none. */
  function Peak(out: seq<nat>, k: nat): (m: (nat, nat))
    requires k <= |out|
    ensures m == (0, 1) || (m.0 < k && out[m.0] == m.1 > 1)
    ensures forall s :: 0 <= s < k ==> out[s] <= m.1
  {
    if k == 0 then (0, 1)
    else
      var m := Peak(out, k - 1);
      if out[k - 1] > m.1 then (k - 1, out[k - 1]) else m
  }

  function Normalize(raw: seq<nat>): (out: seq<nat>)
    requires |raw| == N
    ensures |out| == N
  {
    var total := Sum(raw);
    if total == 0 then seq(N, _ => TOTAL_12 / N)
    else
      SharesFit(raw, total);
      var sh := Shares(raw, total);
      var m := Peak(sh, N).0;
      sh[m := sh[m] + (TOTAL_12 - Sum(sh))]
  }

  /** The floors of the proportional shares never exceed the budget. */
  lemma {:induction false} SharesBound(raw: seq<nat>, total: nat, k: nat)
    requires total > 0 && k <= |raw|
    ensures (Sum(Shares(raw, total)[..k]) - k) * total <= Sum(raw[..k]) * BUDGET
  {
    hide Bonus;
    if k > 0 {
      SharesBound(raw, total, k - 1);
      var sh := Shares(raw, total);
      SumPrefixStep(sh, k - 1);
      SumPrefixStep(raw, k - 1);
      BonusTimes(raw[k - 1], total);
      MulAdd(Sum(sh[..k - 1]) - (k - 1), Bonus(raw[k - 1], total), total);
    }
  }

  lemma BonusTimes(count: nat, total: nat)
    requires total > 0
    ensures Bonus(count, total) * total <= count * BUDGET
  {
  }

  lemma MulAdd(x: int, b: int, t: int)
    ensures (x + b) * t == x * t + b * t
  {
  }

  lemma SharesFit(raw: seq<nat>, total: nat)
    requires |raw| == N && total == Sum(raw) > 0
    ensures Sum(Shares(raw, total)) <= TOTAL_12
  {
    var sh := Shares(raw, total);
    SharesBound(raw, total, N);
    assert sh[..N] == sh && raw[..N] == raw;
    QuotientBound(Sum(sh) - N, total, BUDGET);
  }

  lemma MulStep(x: int, b: int, t: nat)
    requires x >= b + 1
    ensures x * t >= t * b + t
  {
    MulAdd(b, x - b, t);
    MulAdd(1, x - b - 1, t);
    MulNonNegative(x - b - 1, t);
  }

  lemma MulNonNegative(x: nat, t: nat)
    ensures x * t >= 0
  {
  }

  lemma QuotientBound(x: int, t: nat, b: nat)
    requires t > 0 && x * t <= t * b
    ensures x <= b
  {
    if x > b {
      MulStep(x, b, t);
      assert false;
    }
  }

  lemma {:induction false} SumConst(n: nat, c: nat)
    ensures Sum(seq(n, _ => c)) == n * c
  {
    var s := seq(n, _ => c);
    if n > 0 {
      SumConst(n - 1, c);
      assert s[..n - 1] == seq(n - 1, _ => c);
    }
  }

  /** Every symbol keeps a frequency of at least 1, seen symbols keep at least their share, and the
      table sums to exactly 4096. */
  lemma NormalizeExact(raw: seq<nat>)
    requires |raw| == N
    ensures Sum(Normalize(raw)) == TOTAL_12
    ensures forall s :: 0 <= s < N ==> Normalize(raw)[s] >= 1
    ensures Sum(raw) > 0 ==> forall s :: 0 <= s < N ==> Normalize(raw)[s] >= 1 + Bonus(raw[s], Sum(raw))
  {
    hide Bonus, Peak, Sum;
    var total := Sum(raw);
    if total == 0 {
      SumConst(N, TOTAL_12 / N);
    } else {
      SharesFit(raw, total);
      var sh := Shares(raw, total);
      var m := Peak(sh, N).0;
      SumUpdate(sh, m, sh[m] + (TOTAL_12 - Sum(sh)));
    }
  }

  /** Without any counts every symbol gets the same. */
  lemma NormalizeEmpty(raw: seq<nat>)
    requires |raw| == N && Sum(raw) == 0
    ensures forall s :: 0 <= s < N ==> Normalize(raw)[s] == 16
  {
    hide Sum, Shares, Peak;
  }

  /** `m` is the first symbol with the largest share. */
  ghost predicate FirstLargestShare(raw: seq<nat>, m: nat)
    requires Sum(raw) > 0
  {
    && m < |raw|
    && (forall s :: 0 <= s < |raw| ==> Bonus(raw[s], Sum(raw)) <= Bonus(raw[m], Sum(raw)))
    && forall s :: 0 <= s < m ==> Bonus(raw[s], Sum(raw)) < Bonus(raw[m], Sum(raw))
  }

  /** Where the slots go: every symbol but one gets 1 and its share, so an unseen one exactly 1, and the
      first symbol with the largest share gets what the floors leave over. */
  lemma NormalizeShape(raw: seq<nat>, m: nat)
    requires |raw| == N && Sum(raw) > 0 && FirstLargestShare(raw, m)
    ensures forall s :: 0 <= s < N && s != m ==> Normalize(raw)[s] == 1 + Bonus(raw[s], Sum(raw))
    ensures forall s :: 0 <= s < N && raw[s] == 0 ==> s == m || Normalize(raw)[s] == 1
    ensures Normalize(raw)[m] >= 1 + Bonus(raw[m], Sum(raw))
  {
    hide Bonus, Sum;
    var total := Sum(raw);
    SharesFit(raw, total);
    BonusZero(total);
    PeakIs(Shares(raw, total), N, m);
  }

  lemma {:induction false} PeakIs(out: seq<nat>, k: nat, m: nat)
    requires m < k <= |out| && forall s :: 0 <= s < k ==> 1 <= out[s] <= out[m]
    requires forall s :: 0 <= s < m ==> out[s] < out[m]
    ensures Peak(out, k).0 == m
  {
    if k > m + 1 {
      PeakIs(out, k - 1, m);
    } else {
      PeakBelow(out, m, out[m]);
    }
  }

  lemma {:induction false} PeakBelow(out: seq<nat>, k: nat, v: nat)
    requires k <= |out| && v >= 1 && forall s :: 0 <= s < k ==> 1 <= out[s] < v
    ensures Peak(out, k).1 < v || (v == 1 && Peak(out, k) == (0, 1) && k == 0)
  {
    if k > 0 {
      PeakBelow(out, k - 1, v);
    }
  }

  /** There always is such a symbol. */
  lemma LargestShareExists(raw: seq<nat>) returns (m: nat)
    requires |raw| == N && Sum(raw) > 0
    ensures FirstLargestShare(raw, m)
  {
    hide Bonus, Sum;
    m := 0;
    for k := 1 to N
      invariant m < k && forall s :: 0 <= s < k ==> Bonus(raw[s], Sum(raw)) <= Bonus(raw[m], Sum(raw))
      invariant forall s :: 0 <= s < m ==> Bonus(raw[s], Sum(raw)) < Bonus(raw[m], Sum(raw))
    {
      if Bonus(raw[k], Sum(raw)) > Bonus(raw[m], Sum(raw)) {
        m := k;
      }
    }
  }

  /** The symbol that takes the remainder is most frequent up to the rounding of the shares, and
      outright when no more than 3840 bytes were counted. */
  lemma RemainderToFrequent(raw: seq<nat>, m: nat, s: nat)
    requires |raw| == N && Sum(raw) > 0 && FirstLargestShare(raw, m) && s < N && Sum(raw) * BUDGET < DWORD
    ensures (raw[s] - raw[m]) * BUDGET < Sum(raw)
    ensures Sum(raw) <= BUDGET ==> raw[s] <= raw[m]
  {
    hide Bonus, Sum;
    var total := Sum(raw);
    CountAtMostSum(raw, s);
    CountAtMostSum(raw, m);
    BonusProportional(raw[s], total);
    BonusProportional(raw[m], total);
    FloorsApart(raw[s] * BUDGET, raw[m] * BUDGET, total);
  }

  lemma FloorsApart(a: nat, b: nat, t: nat)
    requires t > 0 && a / t <= b / t
    ensures a - b < t
  {
    MulStepLe(a / t, b / t, t);
    DivParts(a, t);
    DivParts(b, t);
  }

  lemma MulStepLe(x: nat, y: nat, t: nat)
    requires x <= y
    ensures x * t <= y * t
  {
    MulAdd(x, y - x, t);
    MulNonNegative(y - x, t);
  }

  lemma DivParts(a: nat, t: nat)
    requires t > 0
    ensures (a / t) * t <= a < (a / t) * t + t
  {
  }

  lemma CountAtMostSum(raw: seq<nat>, s: nat)
    requires s < |raw|
    ensures raw[s] <= Sum(raw)
  {
    SumPrefixStep(raw, s);
    SumPrefixTotal(raw, s + 1);
  }

  /** Five counts of 41000 bytes where the remainder goes to byte 0, although byte 1 occurs more often:
      both have 936 slots. */
  function NearlyEqual(): (raw: seq<nat>)
    ensures |raw| == N
  {
    [10000, 10001, 9999, 9999, 1001] + seq(251, _ => 0)
  }

  lemma RemainderCanMissMostFrequent()
    ensures var raw := NearlyEqual();
            Sum(raw) == 41000 && FirstLargestShare(raw, 0) && raw[0] < raw[1]
  {
    var raw := NearlyEqual();
    var head: seq<nat> := [10000, 10001, 9999, 9999, 1001];
    assert Sum(head) == 41000 by {
      SumOne(10000);
      SumAppend([10000], 10001);
      SumAppend([10000] + [10001], 9999);
      SumAppend([10000] + [10001] + [9999], 9999);
      SumAppend([10000] + [10001] + [9999] + [9999], 1001);
      assert head == [10000] + [10001] + [9999] + [9999] + [1001];
    }
    SumConst(251, 0);
    SumConcat(head, seq(251, _ => 0));
    hide Sum;
    assert Bonus(10000, 41000) == 936 && Bonus(10001, 41000) == 936;
    assert Bonus(9999, 41000) == 936 && Bonus(1001, 41000) == 93 && Bonus(0, 41000) == 0;
  }

  /** freq_normalize: the branch for a sum above 4096 is unreachable. */
  method NormalizeCounts(raw: seq<nat>, total: nat) returns (freq: seq<nat>)
    requires |raw| == N && total == Sum(raw) && total < DWORD
    ensures freq == Normalize(raw)
  {
    var out := new nat[N](_ => 1);
    if total == 0 {
      for s := 0 to N
        invariant forall k :: 0 <= k < s ==> out[k] == TOTAL_12 / N
      {
        out[s] := TOTAL_12 / N;
      }
      freq := out[..];
      return;
    }
    SharesFit(raw, total);
    hide Bonus, Peak, Sum;
    var tableSum, maxSym;
    out, tableSum, maxSym := ShareLoop(raw, total);
    ghost var sh := out[..];
    if tableSum < TOTAL_12 {
      out[maxSym] := out[maxSym] + (TOTAL_12 - tableSum);
      assert out[..] == sh[maxSym := sh[maxSym] + (TOTAL_12 - tableSum)];
    } else if tableSum > TOTAL_12 {
      assert false;
    }
    freq := out[..];
  }

  /** Proportional shares on top of the floor of 1, their running sum and the first maximum. */
  method ShareLoop(raw: seq<nat>, total: nat) returns (out: array<nat>, tableSum: nat, maxSym: nat)
    requires |raw| == N && total == Sum(raw) > 0
    ensures fresh(out) && out[..] == Shares(raw, total)
    ensures tableSum == Sum(out[..]) && maxSym == Peak(out[..], N).0
  {
    hide Bonus;
    out := new nat[N](_ => 1);
    ghost var sh := Shares(raw, total);
    var maxVal := 1;
    tableSum, maxSym := N, 0;
    for s := 0 to N
      invariant forall k :: 0 <= k < s ==> out[k] == sh[k]
      invariant forall k :: s <= k < N ==> out[k] == 1
      invariant tableSum == Sum(sh[..s]) + (N - s)
      invariant (maxSym, maxVal) == Peak(sh, s)
    {
      SumPrefixStep(sh, s);
      if raw[s] == 0 {
        BonusZero(total);
      } else {
        var bonus := Bonus(raw[s], total);
        BonusSmall(raw, total, s);
        if bonus > 0xFFFE {
          assert false;
        }
        out[s] := 1 + bonus;
        tableSum := tableSum + bonus;
        if out[s] > maxVal {
          maxVal, maxSym := out[s], s;
        }
      }
    }
    assert sh[..N] == sh && out[..] == sh;
  }

  lemma BonusZero(total: nat)
    requires total > 0
    ensures Bonus(0, total) == 0
  {
  }

  /** No share exceeds the table, so the 16-bit clamp is never taken. */
  lemma BonusSmall(raw: seq<nat>, total: nat, s: nat)
    requires |raw| == N && total == Sum(raw) > 0 && s < N
    ensures Bonus(raw[s], total) <= BUDGET
  {
    SumPrefixStep(raw, s);
    SumPrefixTotal(raw, s + 1);
    BonusTimes(raw[s], total);
    QuotientBound(Bonus(raw[s], total), total, BUDGET);
  }

  // ---------------------------------------------------------------- 4096 to 1024

  function Scale(f: nat): (r: nat)
    ensures f == 0 ==> r == 0
    ensures f > 0 ==> r >= 1
  {
    if f == 0 then 0
    else
      var r := (f * TOTAL_10 + TOTAL_12 / 2) / TOTAL_12;
      if r == 0 then 1 else r
  }

  /** A quarter of the frequency, rounded to nearest with halves up, and at least 1 for a present symbol. */
  lemma ScaleNearest(f: nat)
    requires f >= 1
    ensures f >= 2 ==> 4 * Scale(f) - 2 <= f < 4 * Scale(f) + 2
    ensures f == 1 ==> Scale(f) == 1
  {
  }

  function Scaled(freq: seq<nat>): (r: seq<nat>)
    ensures |r| == |freq|
  {
    seq(|freq|, s requires 0 <= s < |freq| => Scale(freq[s]))
  }

  /** The first symbol with the largest frequency among the first `k`. */
  function Largest(freq: seq<nat>, k: nat): (l: nat)
    requires 1 <= k <= |freq|
    ensures l < k && forall s :: 0 <= s < k ==> freq[s] <= freq[l]
  {
    if k == 1 then 0
    else
      var l := Largest(freq, k - 1);
      if freq[k - 1] > freq[l] then k - 1 else l
  }

  /** One pass that takes 1 from symbols other than `l`, from `s` on, while there is excess. */
  function Trim(f: seq<nat>, l: nat, s: nat, excess: nat): (r: seq<nat>)
    requires s <= |f|
    ensures |r| == |f|
    decreases |f| - s
  {
    if s == |f| || excess == 0 then f
    else if s == l || f[s] <= 1 then Trim(f, l, s + 1, excess)
    else Trim(f[s := f[s] - 1], l, s + 1, excess - 1)
  }

  /** Symbol `l` alone can take the rounding error. */
  predicate Absorbs(sc: seq<nat>, l: nat)
    requires l < |sc|
  {
    sc[l] + TOTAL_10 >= 1 + Sum(sc)
  }

  /** What the others must give up once symbol `l` is reduced to 1. */
  function Excess(sc: seq<nat>, l: nat): (e: nat)
    requires l < |sc| && !Absorbs(sc, l)
  {
    SumUpdate(sc, l, 1);
    Sum(sc[l := 1]) - TOTAL_10
  }

  /** The second pass: the error goes to symbol `l`, or what it cannot take to the others. */
  function Corrected(sc: seq<nat>, l: nat): (r: seq<nat>)
    requires l < |sc|
    ensures |r| == |sc|
  {
    if Absorbs(sc, l) then sc[l := sc[l] + TOTAL_10 - Sum(sc)] else Trim(sc[l := 1], l, 0, Excess(sc, l))
  }

  function Rescale(freq: seq<nat>): (r: seq<nat>)
    requires |freq| == N
    ensures |r| == N
  {
    Corrected(Scaled(freq), Largest(freq, N))
  }

  /** How many symbols other than `l`, from `s` on, exceed 1. */
  function Reducible(f: seq<nat>, l: nat, s: nat): (c: nat)
    requires s <= |f|
    decreases |f| - s
  {
    if s == |f| then 0
    else (if s != l && f[s] > 1 then 1 else 0) + Reducible(f, l, s + 1)
  }

  lemma {:induction false} ReducibleLocal(f: seq<nat>, g: seq<nat>, l: nat, s: nat)
    requires s <= |f| == |g| && f[s..] == g[s..]
    ensures Reducible(f, l, s) == Reducible(g, l, s)
    decreases |f| - s
  {
    if s < |f| {
      assert f[s] == f[s..][0] == g[s..][0] == g[s];
      assert f[s + 1..] == f[s..][1..] == g[s..][1..] == g[s + 1..];
      ReducibleLocal(f, g, l, s + 1);
    }
  }

  lemma {:induction false} TrimSum(f: seq<nat>, l: nat, s: nat, excess: nat)
    requires s <= |f|
    ensures Sum(Trim(f, l, s, excess)) + Min(excess, Reducible(f, l, s)) == Sum(f)
    ensures forall i :: 0 <= i < |f| ==> (Trim(f, l, s, excess)[i] == 0 <==> f[i] == 0)
    decreases |f| - s
  {
    hide Sum;
    if s < |f| && excess > 0 {
      if s == l || f[s] <= 1 {
        TrimSum(f, l, s + 1, excess);
      } else {
        var g := f[s := f[s] - 1];
        TrimSum(g, l, s + 1, excess - 1);
        SumUpdate(f, s, f[s] - 1);
        assert f[s + 1..] == g[s + 1..];
        ReducibleLocal(f, g, l, s + 1);
      }
    }
  }

  /** Symbol `l` can take the whole error, or enough other symbols exceed 1. */
  predicate Correctable(sc: seq<nat>, l: nat)
    requires l < |sc|
  {
    Absorbs(sc, l) || Reducible(sc[l := 1], l, 0) >= Excess(sc, l)
  }

  /** The exact condition under which the rescaled table sums to 1024. */
  predicate Rescalable(freq: seq<nat>)
    requires |freq| == N
  {
    Correctable(Scaled(freq), Largest(freq, N))
  }

  /** Absent symbols stay absent, present ones stay present, and the sum is 1024 exactly when the
      table is rescalable; `netc_freq_rescale_12_to_10` reports success either way. */
  lemma RescaleExact(freq: seq<nat>)
    requires |freq| == N && Sum(freq) == TOTAL_12
    ensures Sum(Rescale(freq)) == TOTAL_10 <==> Rescalable(freq)
    ensures forall s :: 0 <= s < N ==> (Rescale(freq)[s] == 0 <==> freq[s] == 0)
  {
    hide Scaled, Largest, Corrected, Correctable, Sum;
    LargestPositive(freq);
    ScaledSupport(freq);
    CorrectedExact(Scaled(freq), Largest(freq, N));
  }

  lemma CorrectedExact(sc: seq<nat>, l: nat)
    requires l < |sc| && sc[l] > 0
    ensures Sum(Corrected(sc, l)) == TOTAL_10 <==> Correctable(sc, l)
    ensures forall s :: 0 <= s < |sc| ==> (Corrected(sc, l)[s] == 0 <==> sc[s] == 0)
  {
    hide Trim, Reducible, Sum;
    if Absorbs(sc, l) {
      SumUpdate(sc, l, sc[l] + TOTAL_10 - Sum(sc));
    } else {
      TrimSum(sc[l := 1], l, 0, Excess(sc, l));
    }
  }

  /** Which symbols move: when the first most frequent symbol absorbs the error nothing else moves;
      otherwise it is left with 1, no other symbol loses more than one slot, none below 2 loses any, and
      earlier symbols lose theirs first. */
  lemma RescaleShape(freq: seq<nat>, l: nat)
    requires |freq| == N && l < N && freq[l] > 0
    requires (forall s :: 0 <= s < N ==> freq[s] <= freq[l]) && forall s :: 0 <= s < l ==> freq[s] < freq[l]
    ensures var sc, r := Scaled(freq), Rescale(freq);
            if Sum(sc) < sc[l] + TOTAL_10 then forall s :: 0 <= s < N && s != l ==> r[s] == sc[s]
            else
              && r[l] == 1
              && (forall s :: 0 <= s < N && s != l ==> r[s] == sc[s] || (sc[s] > 1 && r[s] == sc[s] - 1))
              && forall s, t :: 0 <= s < t < N && s != l && sc[s] > 1 && t != l && r[t] < sc[t] ==> r[s] < sc[s]
  {
    hide Scaled, Sum, Corrected, Largest;
    LargestIs(freq, N, l);
    CorrectedShape(Scaled(freq), l);
  }

  lemma {:induction false} LargestIs(freq: seq<nat>, k: nat, l: nat)
    requires l < k <= |freq| && forall s :: 0 <= s < k ==> freq[s] <= freq[l]
    requires forall s :: 0 <= s < l ==> freq[s] < freq[l]
    ensures Largest(freq, k) == l
  {
    if k > l + 1 {
      LargestIs(freq, k - 1, l);
    }
  }

  lemma CorrectedShape(sc: seq<nat>, l: nat)
    requires l < |sc|
    ensures var r := Corrected(sc, l);
            if Sum(sc) < sc[l] + TOTAL_10 then forall s :: 0 <= s < |sc| && s != l ==> r[s] == sc[s]
            else
              && r[l] == 1
              && (forall s :: 0 <= s < |sc| && s != l ==> r[s] == sc[s] || (sc[s] > 1 && r[s] == sc[s] - 1))
              && forall s, t :: 0 <= s < t < |sc| && s != l && sc[s] > 1 && t != l && r[t] < sc[t] ==> r[s] < sc[s]
  {
    hide Sum, Trim;
    if !Absorbs(sc, l) {
      TrimShape(sc[l := 1], l, 0, Excess(sc, l));
      assert Trim(sc[l := 1], l, 0, Excess(sc, l))[l] == sc[l := 1][l];
    }
  }

  lemma {:induction false} TrimShape(f: seq<nat>, l: nat, s: nat, excess: nat)
    requires s <= |f|
    ensures var r := Trim(f, l, s, excess);
            && (forall i :: 0 <= i < |f| && (i < s || i == l) ==> r[i] == f[i])
            && (forall i :: 0 <= i < |f| ==> r[i] == f[i] || (f[i] > 1 && r[i] == f[i] - 1))
            && forall i, j :: s <= i < j < |f| && i != l && f[i] > 1 && r[j] < f[j] ==> r[i] < f[i]
    decreases |f| - s
  {
    if s < |f| && excess > 0 {
      if s == l || f[s] <= 1 {
        TrimShape(f, l, s + 1, excess);
      } else {
        TrimShape(f[s := f[s] - 1], l, s + 1, excess - 1);
      }
    }
  }

  lemma ScaledSupport(freq: seq<nat>)
    ensures forall s :: 0 <= s < |freq| ==> (Scaled(freq)[s] == 0 <==> freq[s] == 0)
  {
    hide Scale;
  }

  lemma LargestPositive(freq: seq<nat>)
    requires |freq| == N && Sum(freq) > 0
    ensures freq[Largest(freq, N)] > 0
  {
    if freq[Largest(freq, N)] == 0 {
      assert freq == seq(N, _ => 0);
      SumConst(N, 0);
      assert false;
    }
  }

  /** netc_freq_rescale_12_to_10: `None` is its error return, on a table that does not sum to
      4096. */
  method RescaleTable(freq: seq<nat>) returns (r: Option<seq<nat>>)
    requires |freq| == N
    ensures r.Some? <==> Sum(freq) == TOTAL_12
    ensures r.Some? ==> r.value == Rescale(freq)
  {
    hide Scale, Trim, Largest, Sum;
    var total12 := SumLoop(freq);
    if total12 != TOTAL_12 {
      return None;
    }
    ghost var sc := Scaled(freq);
    var out, total10, largest := ScaleLoop(freq);
    var diff := TOTAL_10 - total10;
    var fresh10 := out[largest] + diff;
    if fresh10 < 1 {
      out[largest] := 1;
      assert out[..] == sc[largest := 1];
      var total := SumLoop(out[..]);
      SumUpdate(sc, largest, 1);
      TrimLoop(out, largest, total - TOTAL_10);
    } else {
      out[largest] := fresh10;
      assert out[..] == sc[largest := fresh10];
    }
    r := Some(out[..]);
  }

  /** First pass: scale every symbol and track the largest 12-bit frequency. */
  method ScaleLoop(freq: seq<nat>) returns (out: array<nat>, total10: nat, largest: int)
    requires |freq| == N && Sum(freq) > 0
    ensures fresh(out) && out[..] == Scaled(freq) && total10 == Sum(Scaled(freq))
    ensures largest == Largest(freq, N)
  {
    hide Scale, Sum, Largest;
    SumNone();
    out := new nat[N];
    total10, largest := 0, -1;
    ghost var sc := Scaled(freq);
    for s := 0 to N
      invariant forall k :: 0 <= k < s ==> out[k] == sc[k]
      invariant total10 == Sum(sc[..s])
      invariant largest == -1 ==> forall k :: 0 <= k < s ==> freq[k] == 0
      invariant largest != -1 ==> s > 0 && largest == Largest(freq, s) && freq[largest] > 0
    {
      SumPrefixStep(sc, s);
      if freq[s] == 0 {
        out[s] := 0;
        ScaleZero();
        if largest != -1 {
          LargestNext(freq, s);
        }
      } else {
        var scaled := Scale(freq[s]);
        out[s] := scaled;
        total10 := total10 + scaled;
        if largest == -1 || freq[s] > freq[largest] {
          if largest == -1 {
            LargestAfterZeros(freq, s);
          } else {
            LargestNext(freq, s);
          }
          largest := s;
        } else {
          LargestNext(freq, s);
        }
      }
    }
    assert sc[..N] == sc;
    if largest < 0 {
      assert freq == seq(N, _ => 0);
      SumConst(N, 0);
      assert false;
    }
  }

  lemma ScaleZero()
    ensures Scale(0) == 0
  {
  }

  lemma LargestAfterZeros(freq: seq<nat>, s: nat)
    requires s < |freq| && freq[s] > 0 && forall i :: 0 <= i < s ==> freq[i] == 0
    ensures Largest(freq, s + 1) == s
  {
  }

  lemma LargestNext(freq: seq<nat>, s: nat)
    requires 1 <= s < |freq|
    ensures Largest(freq, s + 1) == if freq[s] > freq[Largest(freq, s)] then s else Largest(freq, s)
  {
  }

  lemma SumNone()
    ensures Sum([]) == 0
  {
  }

  method SumLoop(s: seq<nat>) returns (total: nat)
    ensures total == Sum(s)
  {
    total := 0;
    for i := 0 to |s|
      invariant total == Sum(s[..i])
    {
      SumPrefixStep(s, i);
      total := total + s[i];
    }
    assert s[..|s|] == s;
  }

  /** The redistribution loop; its excess is positive, so symbols only ever lose slots. */
  method TrimLoop(out: array<nat>, l: nat, excess: nat)
    modifies out
    ensures out[..] == Trim(old(out[..]), l, 0, excess)
  {
    var e, s := excess, 0;
    while e != 0 && s < out.Length
      invariant 0 <= s <= out.Length
      invariant Trim(old(out[..]), l, 0, excess) == Trim(out[..], l, s, e)
    {
      if s != l && out[s] > 1 {
        ghost var was := out[..];
        out[s] := out[s] - 1;
        assert out[..] == was[s := was[s] - 1];
        e := e - 1;
      }
      s := s + 1;
    }
  }

  // ---------------------------------------------------------------- a table that does not rescale

  /** 245 symbols at 1, ten at 350 and one at 351. */
  function Unscalable(): (f: seq<nat>)
    ensures |f| == N
  {
    seq(245, _ => 1) + seq(10, _ => 350) + [351]
  }

  lemma {:induction false} SumConcat(a: seq<nat>, b: seq<nat>)
    ensures Sum(a + b) == Sum(a) + Sum(b)
  {
    if b == [] {
      assert a + b == a;
    } else {
      var n := |b| - 1;
      SumConcat(a, b[..n]);
      assert (a + b)[..|a| + n] == a + b[..n];
    }
  }

  lemma {:induction false} ReducibleOnes(f: seq<nat>, l: nat, s: nat, k: nat)
    requires s <= k <= |f| && forall i :: s <= i < k ==> f[i] <= 1
    ensures Reducible(f, l, s) == Reducible(f, l, k)
    decreases k - s
  {
    if s < k {
      ReducibleOnes(f, l, s + 1, k);
    }
  }

  lemma {:induction false} ReducibleBound(f: seq<nat>, l: nat, s: nat)
    requires s <= |f|
    ensures Reducible(f, l, s) <= |f| - s
    decreases |f| - s
  {
    if s < |f| {
      ReducibleBound(f, l, s + 1);
    }
  }

  /** It sums to 4096, every symbol is present, and rescaling leaves a sum other than 1024. */
  lemma RescaleCanMiss()
    ensures Sum(Unscalable()) == TOTAL_12 && !Rescalable(Unscalable())
    ensures Sum(Rescale(Unscalable())) != TOTAL_10
  {
    hide Reducible, Trim, Sum, Largest;
    var f := Unscalable();
    var a, b, c: seq<nat> := seq(245, _ => 1), seq(10, _ => 350), [351];
    SumConst(245, 1);
    SumConst(10, 350);
    SumOne(351);
    SumConcat(a, b);
    SumConcat(a + b, c);
    var l := 255;
    assert f[255] == 351 && forall s :: 0 <= s < 255 ==> f[s] <= 350;
    LargestIs(f, N, l);
    var sc := Scaled(f);
    assert Scale(1) == 1 && Scale(350) == 88 && Scale(351) == 88;
    var a', b', c': seq<nat> := seq(245, _ => 1), seq(10, _ => 88), [88];
    assert sc == a' + b' + c';
    SumConst(10, 88);
    SumOne(88);
    SumConcat(a', b');
    SumConcat(a' + b', c');
    SumUpdate(sc, l, 1);
    assert Excess(sc, l) == 102;
    ReducibleOnes(sc[l := 1], l, 0, 245);
    ReducibleBound(sc[l := 1], l, 245);
    RescaleExact(f);
  }

  lemma SumOne(x: nat)
    ensures Sum([x]) == x
  {
  }
}
