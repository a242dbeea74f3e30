/** Training of the LZP table (netc_dict_train, phase 4): a saturating Boyer-Moore vote per slot,
    then a verification pass that keeps a candidate seen in at least 40% of the slot's hits. */
module Voting {
  import opened Machine
  import opened Filters
  import opened Simd

  const VOTE_MAX: nat := 32767
  const COUNT_MAX: nat := 65535

  datatype Vote = Vote(candidate: byte, count: nat)

  function Clip(packet: seq<byte>): (r: seq<byte>)
    ensures |r| <= MAX_PACKET
  {
    if |packet| > MAX_PACKET then packet[..MAX_PACKET] else packet
  }

  /** One vote, with the 16-bit signed counter saturating. */
  function Voted(v: Vote, b: byte): (r: Vote)
  {
    if v.count == 0 then Vote(b, 1)
    else if v.candidate == b then (if v.count < VOTE_MAX then Vote(b, v.count + 1) else v)
    else Vote(v.candidate, v.count - 1)
  }

  function Tally(hits: seq<byte>): (v: Vote)
    ensures v.count <= VOTE_MAX
  {
    if hits == [] then Vote(0, 0) else Voted(Tally(hits[..|hits| - 1]), hits[|hits| - 1])
  }

  function Saturated(n: nat): (r: nat) {
    Min(n, COUNT_MAX)
  }

  /** The entry a slot with these hits ends up with. */
  function Learned(hits: seq<byte>): (e: LzpEntry)
  {
    var c := Tally(hits).candidate;
    var total, hit := Saturated(|hits|), Saturated(Occurrences(hits, c));
    if total >= 2 && hit * 10 >= total * 4 then LzpEntry(c, 1) else LzpEntry(0, 0)
  }

  // ---------------------------------------------------------------- majority

  /** The vote's bookkeeping up to 65536 hits: every other byte has at most half of what is not
      held by the count; the candidate's surplus is its count unless votes were lost to saturation,
      and then enough hits of other bytes are still to come before it can be replaced. */
  lemma {:induction false} TallyBounds(hits: seq<byte>, b: byte)
    requires |hits| <= COUNT_MAX + 1
    ensures var v, n := Tally(hits), |hits|;
            if b != v.candidate then
              2 * Occurrences(hits, b) <= n - v.count || (n == COUNT_MAX + 1 && 2 * Occurrences(hits, b) <= n)
            else
              2 * Occurrences(hits, b) <= n + v.count || n - Occurrences(hits, b) + v.count >= VOTE_MAX
  {
    if hits != [] {
      TallyBounds(hits[..|hits| - 1], b);
    }
  }

  /** Up to 65536 hits, a byte with a strict majority of a slot hit at least twice is learned. */
  lemma MajorityLearned(hits: seq<byte>, b: byte)
    requires 2 <= |hits| <= COUNT_MAX + 1
    requires 2 * Occurrences(hits, b) > |hits|
    ensures Learned(hits) == LzpEntry(b, 1)
  {
    hide Occurrences, Tally;
    TallyBounds(hits, b);
  }

  /** An entry is valid exactly when the slot was hit twice and the winner of the vote has 40% of the
      hits, counting at most 65535 of them; up to 65535 hits that is 40% of all. */
  lemma ValidShare(hits: seq<byte>)
    ensures var e, c := Learned(hits), Tally(hits).candidate;
            && (e.conf != 0 <==> |hits| >= 2 && 10 * Occurrences(hits, c) >= 4 * Min(|hits|, COUNT_MAX))
            && (e.conf != 0 ==> e == LzpEntry(c, 1))
            && (e.conf != 0 && |hits| <= COUNT_MAX ==> 10 * Occurrences(hits, e.value) >= 4 * |hits|)
  {
    hide Occurrences, Tally;
  }

  // ---------------------------------------------------------------- where saturation bites

  lemma {:induction false} TallyRun(s: seq<byte>, b: byte, n: nat)
    requires Tally(s).candidate == b || Tally(s).count == 0
    ensures n > 0 ==> Tally(s + Run(b, n)) == Vote(b, Min(Tally(s).count + n, VOTE_MAX))
    ensures forall c :: Occurrences(s + Run(b, n), c) == Occurrences(s, c) + if c == b then n else 0
  {
    if n == 0 {
      assert s + Run(b, 0) == s;
    } else {
      TallyRun(s, b, n - 1);
      assert (s + Run(b, n))[..|s| + n - 1] == s + Run(b, n - 1);
      if n == 1 {
        assert s + Run(b, 0) == s;
      }
    }
  }

  lemma {:induction false} TallyDrain(s: seq<byte>, b: byte, n: nat)
    requires Tally(s).candidate != b && n <= Tally(s).count
    ensures Tally(s + Run(b, n)) == Vote(Tally(s).candidate, Tally(s).count - n)
    ensures forall c :: Occurrences(s + Run(b, n), c) == Occurrences(s, c) + if c == b then n else 0
  {
    if n == 0 {
      assert s + Run(b, 0) == s;
    } else {
      TallyDrain(s, b, n - 1);
      assert (s + Run(b, n))[..|s| + n - 1] == s + Run(b, n - 1);
    }
  }

  /** One hit more and the majority can be voted out: two votes are lost to saturation. */
  lemma MajorityCanBeLost()
    ensures var hits := Run(7, VOTE_MAX + 2) + Run(9, VOTE_MAX) + Run(9, 1);
            |hits| == COUNT_MAX + 2 && 2 * Occurrences(hits, 7) > |hits| && Learned(hits) == LzpEntry(9, 1)
  {
    hide Tally, Occurrences;
    var a := Run(7, VOTE_MAX + 2);
    var b := a + Run(9, VOTE_MAX);
    TallyEmpty();
    TallyRun([], 7, VOTE_MAX + 2);
    assert [] + a == a;
    TallyDrain(a, 9, VOTE_MAX);
    TallyRun(b, 9, 1);
  }

  lemma TallyEmpty()
    ensures Tally([]) == Vote(0, 0) && forall c :: Occurrences([], c) == 0
  {
  }

  function Alternating(n: nat): (s: seq<byte>)
    ensures |s| == 2 * n
  {
    if n == 0 then [] else Alternating(n - 1) + Run(1, 1) + Run(2, 1)
  }

  lemma {:induction false} TallyAlternating(n: nat)
    ensures Tally(Alternating(n)).count == 0 && Occurrences(Alternating(n), 7) == 0
  {
    hide Tally, Occurrences;
    if n == 0 {
      TallyEmpty();
    } else {
      TallyAlternating(n - 1);
      TallyRun(Alternating(n - 1), 1, 1);
      TallyDrain(Alternating(n - 1) + Run(1, 1), 2, 1);
    }
  }

  /** From 65536 hits on, a valid prediction may hold less than 40% of them. */
  lemma ShareCanBeMissed()
    ensures var hits := Alternating(19661) + Run(7, 26214);
            |hits| == COUNT_MAX + 1 && Learned(hits) == LzpEntry(7, 1) && 10 * Occurrences(hits, 7) < 4 * |hits|
  {
    hide Tally, Occurrences, Alternating;
    TallyAlternating(19661);
    TallyRun(Alternating(19661), 7, 26214);
  }
}
