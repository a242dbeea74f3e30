/** The circular packet history (ctx_ring_append and its copy decomp_ring_append). */
module RingHistory {
  import opened Machine

  datatype Ring = Ring(data: seq<byte>, pos: nat) {
    predicate Valid() {
      (|data| == 0 && pos == 0) || pos < |data|
    }
  }

  /** An append keeps the last `|data|` bytes of an over-long packet and restarts at slot 0. */
  function Append(r: Ring, s: seq<byte>): (a: Ring)
    requires r.Valid()
    ensures a.Valid() && |a.data| == |r.data|
  {
    var n := |r.data|;
    if n == 0 || s == [] then r
    else if |s| >= n then Ring(s[|s| - n..], 0)
    else Ring(Overwrite(r.data, r.pos, s), Wrap(r.pos + |s|, n))
  }

  /** `s` written at `at`. */
  function Splice(d: seq<byte>, at: nat, s: seq<byte>): (r: seq<byte>)
    requires at + |s| <= |d|
    ensures |r| == |d|
  {
    d[..at] + s + d[at + |s|..]
  }

  /** `s` written at `at`, continuing at the start when it passes the end. */
  function Overwrite(d: seq<byte>, at: nat, s: seq<byte>): (r: seq<byte>)
    requires at < |d| && |s| <= |d|
    ensures |r| == |d|
  {
    if at + |s| <= |d| then Splice(d, at, s)
    else s[|d| - at..] + d[at + |s| - |d|..at] + s[..|d| - at]
  }

  /** Positions past the end continue at the start. */
  function Wrap(x: nat, n: nat): (r: nat)
    requires x < 2 * n
    ensures r == if x < n then x else x - n
  {
    x % n
  }

  /** The slot `k` bytes behind the write position. */
  function Back(r: Ring, k: nat): (i: nat)
    requires r.Valid() && 1 <= k <= |r.data|
    ensures i < |r.data|
  {
    Wrap(r.pos + |r.data| - k, |r.data|)
  }

  /** The byte `k` back from the write position is the `k`-th most recent byte of `hist`, and zero
      before the history began. */
  ghost predicate Holds(r: Ring, hist: seq<byte>) {
    && r.Valid()
    && forall k :: 1 <= k <= |r.data| ==> r.data[Back(r, k)] == if k <= |hist| then hist[|hist| - k] else 0
  }

  lemma AppendHolds(r: Ring, hist: seq<byte>, s: seq<byte>)
    requires Holds(r, hist)
    ensures Holds(Append(r, s), hist + s)
  {
    var n, a, h := |r.data|, Append(r, s), hist + s;
    if s == [] {
      assert h == hist;
    }
    if n != 0 && s != [] {
      forall k | 1 <= k <= n
        ensures a.data[Back(a, k)] == if k <= |h| then h[|h| - k] else 0
      {
        if k > |s| {
          assert a.data[Back(a, k)] == r.data[Back(r, k - |s|)];
        }
      }
    }
  }

  function AppendAll(r: Ring, packets: seq<seq<byte>>): (a: Ring)
    requires r.Valid()
    ensures a.Valid() && |a.data| == |r.data|
  {
    if packets == [] then r
    else Append(AppendAll(r, packets[..|packets| - 1]), packets[|packets| - 1])
  }

  function Concat(packets: seq<seq<byte>>): seq<byte> {
    if packets == [] then [] else Concat(packets[..|packets| - 1]) + packets[|packets| - 1]
  }

  function Zeros(n: nat): (s: seq<byte>)
    ensures |s| == n && forall i :: 0 <= i < n ==> s[i] == 0
  {
    seq(n, _ => 0)
  }

  /** After any sequence of appends to a fresh ring, including packets longer than the ring. */
  lemma {:induction false} RingIsRecentHistory(n: nat, packets: seq<seq<byte>>)
    ensures Holds(AppendAll(Ring(Zeros(n), 0), packets), Concat(packets))
  {
    if packets != [] {
      var m := |packets| - 1;
      RingIsRecentHistory(n, packets[..m]);
      AppendHolds(AppendAll(Ring(Zeros(n), 0), packets[..m]), Concat(packets[..m]), packets[m]);
    }
  }

  class RingBuffer {
    const data: array<byte>
    var pos: nat

    ghost predicate Valid()
      reads this
    {
      (data.Length == 0 && pos == 0) || pos < data.Length
    }

    ghost function View(): (r: Ring)
      reads this, data
      requires Valid()
      ensures r.Valid()
    {
      Ring(data[..], pos)
    }

    constructor (size: nat)
      ensures Valid() && fresh(data) && View() == Ring(Zeros(size), 0)
    {
      data := new byte[size](_ => 0);
      pos := 0;
    }

    method Reset()
      requires Valid()
      modifies this, data
      ensures Valid() && View() == Ring(Zeros(data.Length), 0)
    {
      Store(0, Zeros(data.Length));
      pos := 0;
      assert data[..] == Zeros(data.Length);
    }

    /** memcpy of `s` into the ring at `at`. */
    method Store(at: nat, s: seq<byte>)
      requires at + |s| <= data.Length
      modifies data
      ensures data[..] == Splice(old(data[..]), at, s)
    {
      for k := 0 to |s|
        invariant data[..at] == old(data[..at]) && data[at + |s|..] == old(data[at + |s|..])
        invariant data[at..at + k] == s[..k]
      {
        data[at + k] := s[k];
        assert data[at..at + k + 1] == data[at..at + k] + [s[k]];
      }
      assert data[..] == data[..at] + data[at..at + |s|] + data[at + |s|..];
      assert s[..|s|] == s;
      assert old(data[..])[..at] == old(data[..at]);
    }

    /** One or two copies into the ring, depending on where the packet ends. */
    method AppendBytes(s: seq<byte>)
      requires Valid()
      modifies this, data
      ensures Valid() && View() == Append(old(View()), s)
    {
      hide Wrap, Overwrite;
      var n := data.Length;
      if n == 0 || |s| == 0 {
        return;
      }
      var from, at := s, pos;
      if |s| >= n {
        from := s[|s| - n..];
        at := 0;
        OverwriteAll(data[..], from);
      }
      StoreWrapped(at, from);
      pos := Wrap(at + |from|, n);
    }

    method StoreWrapped(at: nat, s: seq<byte>)
      requires at < data.Length && |s| <= data.Length
      modifies data
      ensures data[..] == Overwrite(old(data[..]), at, s)
    {
      OverwriteInTwo(data[..], at, s);
      hide Overwrite, Splice;
      var tail := data.Length - at;
      if |s| <= tail {
        Store(at, s);
      } else {
        Store(at, s[..tail]);
        Store(0, s[tail..]);
      }
    }
  }

  lemma OverwriteInTwo(d: seq<byte>, at: nat, s: seq<byte>)
    requires at < |d| && |s| <= |d|
    ensures at + |s| <= |d| ==> Overwrite(d, at, s) == Splice(d, at, s)
    ensures at + |s| > |d| ==>
              Overwrite(d, at, s) == Splice(Splice(d, at, s[..|d| - at]), 0, s[|d| - at..])
  {
    if at + |s| > |d| {
      var tail := |d| - at;
      var once := Splice(d, at, s[..tail]);
      assert once == d[..at] + s[..tail];
      assert once[|s| - tail..] == d[|s| - tail..at] + s[..tail];
    }
  }

  lemma OverwriteAll(d: seq<byte>, s: seq<byte>)
    requires |s| == |d| > 0
    ensures Overwrite(d, 0, s) == s
  {
  }
}
