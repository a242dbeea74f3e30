/** The bigram class map of netc_dict_train, phase 2b: previous bytes sorted by the byte that most
    often follows them, then cut into eight groups of 32. */
module ClassMap {
  import opened Machine

  const VALUES: nat := 256
  const GROUP: nat := 32

  /** The first symbol with the largest count among the first `k`, and that count; (0, 0) when
      nothing was counted. */
  function FirstMax(counts: seq<nat>, k: nat): (m: (byte, nat))
    requires k <= |counts| <= VALUES
    ensures m == (0, 0) || (m.0 < k && counts[m.0] == m.1 > 0)
    ensures forall s :: 0 <= s < k ==> counts[s] <= m.1
    ensures forall s :: 0 <= s < m.0 && s < k ==> counts[s] < m.1
  {
    if k == 0 then (0, 0)
    else
      var m := FirstMax(counts, k - 1);
      if counts[k - 1] > m.1 then (k - 1, counts[k - 1]) else m
  }

  /** The order of the sort: by peak, equal peaks by value. */
  predicate Precedes(peak: seq<byte>, u: int, v: int) {
    0 <= u < |peak| && 0 <= v < |peak| && (peak[u] < peak[v] || (peak[u] == peak[v] && u < v))
  }

  ghost predicate Sorted(peak: seq<byte>, s: seq<nat>) {
    forall i, j :: 0 <= i < j < |s| ==> Precedes(peak, s[i], s[j])
  }

  /** `s` lists the values below `n`, each one, in order. */
  ghost predicate Lists(peak: seq<byte>, s: seq<nat>, n: nat) {
    && |s| == n && Sorted(peak, s)
    && (forall i :: 0 <= i < n ==> s[i] < n)
    && (forall v :: 0 <= v < n ==> v in s)
  }

  /** Putting the next value between those it does not precede and those it precedes. */
  lemma InsertLists(peak: seq<byte>, s: seq<nat>, at: nat, n: nat)
    requires |peak| == VALUES && n < VALUES && Lists(peak, s, n) && at <= n
    requires forall i :: at <= i < n ==> peak[s[i]] > peak[n]
    requires at > 0 ==> peak[s[at - 1]] <= peak[n]
    ensures Lists(peak, s[..at] + [n] + s[at..], n + 1)
  {
    var x, y := s[..at], s[at..];
    var t := x + [n] + y;
    forall i | 0 <= i < |x|
      ensures Precedes(peak, x[i], n)
    {
      assert s[i] == x[i] && s[|x| - 1] == x[|x| - 1];
    }
    forall i | 0 <= i < |y|
      ensures Precedes(peak, n, y[i])
    {
      assert s[|x| + i] == y[i];
    }
    forall i, j | 0 <= i < j < |t|
      ensures Precedes(peak, t[i], t[j])
    {
      var i', j' := if i < |x| then i else i - 1, if j < |x| then j else j - 1;
      if i != |x| && j != |x| {
        assert t[i] == s[i'] && t[j] == s[j'];
      }
    }
    forall i | 0 <= i < |t|
      ensures t[i] < n + 1
    {
      if i < |x| {
        assert s[i] == x[i];
      }
    }
    forall v | 0 <= v < n + 1
      ensures v in t
    {
      if v < n {
        assert v in s;
      } else {
        assert t[|x|] == n;
      }
    }
  }

  /** The insertion sort, in place. */
  method SortByPeak(peak: seq<byte>) returns (a: array<nat>)
    requires |peak| == VALUES
    ensures fresh(a) && Lists(peak, a[..], VALUES)
  {
    a := new nat[VALUES](i => i);
    assert a[..1] == [0];
    for i := 1 to VALUES
      invariant Lists(peak, a[..i], i)
      invariant forall k :: i <= k < VALUES ==> a[k] == k
    {
      InsertNext(peak, a, i);
    }
    assert a[..VALUES] == a[..];
  }

  method InsertNext(peak: seq<byte>, a: array<nat>, i: nat)
    requires |peak| == VALUES == a.Length && 1 <= i < VALUES
    requires Lists(peak, a[..i], i) && forall k :: i <= k < VALUES ==> a[k] == k
    modifies a
    ensures Lists(peak, a[..i + 1], i + 1) && forall k :: i < k < VALUES ==> a[k] == k
  {
    hide Lists;
    ghost var s, rest := a[..i], a[i + 1..];
    ListsBelow(peak, s, i);
    assert a[..] == Gap(s, i, i, rest);
    var at := Insert(peak, a, i, s, rest);
    InsertLists(peak, s, at, i);
    assert a[..i + 1] == s[..at] + [i] + s[at..];
    forall k | i < k < VALUES
      ensures a[k] == k
    {
      GapRest(s, at, i, rest, k);
    }
  }

  lemma ListsBelow(peak: seq<byte>, s: seq<nat>, n: nat)
    requires Lists(peak, s, n)
    ensures |s| == n && forall k :: 0 <= k < n ==> s[k] < n
  {
  }

  /** `s` with `x` in a gap at `at`, then `rest`. */
  ghost function Gap(s: seq<nat>, at: nat, x: nat, rest: seq<nat>): (r: seq<nat>)
    requires at <= |s|
    ensures |r| == |s| + 1 + |rest|
  {
    s[..at] + [x] + s[at..] + rest
  }

  /** The inner loop: the listed values with a higher peak than `i` move one place up. */
  method Insert(peak: seq<byte>, a: array<nat>, i: nat, ghost s: seq<nat>, ghost rest: seq<nat>) returns (at: nat)
    requires |peak| == VALUES == a.Length && 1 <= i < VALUES && |s| == i && a[..] == Gap(s, i, i, rest)
    requires forall k :: 0 <= k < i ==> s[k] < i
    modifies a
    ensures at <= i && (at > 0 ==> peak[s[at - 1]] <= peak[i])
    ensures forall k :: at <= k < i ==> peak[s[k]] > peak[i]
    ensures a[..] == Gap(s, at, i, rest)
  {
    hide Gap;
    GapAt(s, i, i, rest);
    assert a[i] == a[..][i] && a[i - 1] == a[..][i - 1];
    var key := a[i];
    var keyPeak := peak[key];
    var j := i - 1;
    ghost var x := i;
    while j >= 0 && peak[a[j]] > keyPeak
      invariant -1 <= j < i && a[..] == Gap(s, j + 1, x, rest) && (j >= 0 ==> a[j] == s[j])
      invariant forall k :: j + 1 <= k < i ==> peak[s[k]] > keyPeak
    {
      GapMove(s, j, x, rest);
      ghost var was := a[..];
      a[j + 1] := a[j];
      assert a[..] == was[j + 1 := s[j]];
      x := s[j];
      GapAt(s, j, x, rest);
      assert j > 0 ==> a[j - 1] == a[..][j - 1];
      j := j - 1;
    }
    at := j + 1;
    ghost var was := a[..];
    a[at] := key;
    assert a[..] == was[at := i];
    GapSet(s, at, x, i, rest);
  }

  lemma GapAt(s: seq<nat>, at: nat, x: nat, rest: seq<nat>)
    requires at <= |s|
    ensures Gap(s, at, x, rest)[at] == x && (at > 0 ==> Gap(s, at, x, rest)[at - 1] == s[at - 1])
  {
  }

  lemma GapRest(s: seq<nat>, at: nat, x: nat, rest: seq<nat>, k: nat)
    requires at <= |s| < k < |s| + 1 + |rest|
    ensures Gap(s, at, x, rest)[k] == rest[k - |s| - 1]
  {
  }

  lemma GapMove(s: seq<nat>, j: nat, x: nat, rest: seq<nat>)
    requires j < |s|
    ensures Gap(s, j + 1, x, rest)[j + 1 := s[j]] == Gap(s, j, s[j], rest)
  {
    GapSet(s, j + 1, x, s[j], rest);
    assert s[..j + 1] + [s[j]] + s[j + 1..] == s[..j] + [s[j]] + s[j..];
  }

  lemma GapSet(s: seq<nat>, at: nat, x: nat, y: nat, rest: seq<nat>)
    requires at <= |s|
    ensures Gap(s, at, x, rest)[at := y] == Gap(s, at, y, rest)
  {
  }

  // ---------------------------------------------------------------- the groups

  ghost function Members(classMap: seq<byte>, g: nat): (r: set<nat>) {
    set v: nat | v < |classMap| && classMap[v] == g
  }

  /** What determines the class map: eight classes of 32 values, in the order of the peaks. */
  ghost predicate Classifies(peak: seq<byte>, classMap: seq<byte>) {
    && |classMap| == |peak| == VALUES
    && (forall v :: 0 <= v < VALUES ==> classMap[v] < VALUES / GROUP)
    && (forall g :: 0 <= g < VALUES / GROUP ==> |Members(classMap, g)| == GROUP)
    && (forall u, v :: Precedes(peak, u, v) ==> classMap[u] <= classMap[v])
  }

  method Divide(peak: seq<byte>) returns (classMap: seq<byte>)
    requires |peak| == VALUES
    ensures Classifies(peak, classMap)
  {
    hide Precedes, Sorted;
    var sorted := SortByPeak(peak);
    var map_ := new byte[VALUES](_ => 0);
    ghost var s := sorted[..];
    for g := 0 to VALUES / GROUP
      modifies map_
      invariant forall i :: 0 <= i < g * GROUP ==> map_[s[i]] == i / GROUP
    {
      for k := 0 to GROUP
        modifies map_
        invariant forall i :: 0 <= i < g * GROUP + k ==> map_[s[i]] == i / GROUP
      {
        Distinct(peak, s, VALUES, g * GROUP + k);
        map_[sorted[g * GROUP + k]] := g;
      }
    }
    classMap := map_[..];
    GroupsClassify(peak, s, classMap);
  }

  lemma Distinct(peak: seq<byte>, s: seq<nat>, n: nat, i: nat)
    requires Lists(peak, s, n) && i < n
    ensures forall j :: 0 <= j < n && j != i ==> s[j] != s[i]
  {
    forall j | 0 <= j < n && j != i
      ensures s[j] != s[i]
    {
      assert Precedes(peak, s[if i < j then i else j], s[if i < j then j else i]);
    }
  }

  lemma GroupsClassify(peak: seq<byte>, s: seq<nat>, classMap: seq<byte>)
    requires |peak| == VALUES == |classMap| && Lists(peak, s, VALUES)
    requires forall i :: 0 <= i < VALUES ==> classMap[s[i]] == i / GROUP
    ensures Classifies(peak, classMap)
  {
    forall v | 0 <= v < VALUES
      ensures classMap[v] < VALUES / GROUP
    {
      assert v in s;
      var i :| 0 <= i < VALUES && s[i] == v;
    }
    forall g | 0 <= g < VALUES / GROUP
      ensures |Members(classMap, g)| == GROUP
    {
      GroupSize(peak, s, classMap, g);
    }
    forall u, v | Precedes(peak, u, v)
      ensures classMap[u] <= classMap[v]
    {
      assert u in s && v in s;
      var i :| 0 <= i < VALUES && s[i] == u;
      var j :| 0 <= j < VALUES && s[j] == v;
      if j < i {
        NotAfter(peak, s, j, i);
        assert false;
      }
    }
  }

  lemma NotAfter(peak: seq<byte>, s: seq<nat>, j: nat, i: nat)
    requires Sorted(peak, s) && j < i < |s|
    ensures !Precedes(peak, s[i], s[j])
  {
    assert Precedes(peak, s[j], s[i]);
  }

  lemma GroupSize(peak: seq<byte>, s: seq<nat>, classMap: seq<byte>, g: nat)
    requires |classMap| == VALUES && Lists(peak, s, VALUES) && g < VALUES / GROUP
    requires forall i :: 0 <= i < VALUES ==> classMap[s[i]] == i / GROUP
    ensures |Members(classMap, g)| == GROUP
  {
    hide Sorted;
    var part := s[g * GROUP..(g + 1) * GROUP];
    forall i, j | 0 <= i < j < |part|
      ensures part[i] != part[j]
    {
      Distinct(peak, s, VALUES, g * GROUP + j);
    }
    SetSize(part);
    var m, elems := Members(classMap, g), Elements(part);
    forall v | v in m
      ensures v in elems
    {
      assert v in s;
      var i :| 0 <= i < VALUES && s[i] == v;
      assert part[i - g * GROUP] == v;
    }
    forall v | v in elems
      ensures v in m
    {
      var i :| 0 <= i < |part| && part[i] == v;
      assert s[g * GROUP + i] == v;
    }
    assert m == elems;
  }

  ghost function Elements(s: seq<nat>): (r: set<nat>) {
    set v | v in s
  }

  lemma {:induction false} SetSize(s: seq<nat>)
    requires forall i, j :: 0 <= i < j < |s| ==> s[i] != s[j]
    ensures |Elements(s)| == |s|
  {
    if s != [] {
      var n := |s| - 1;
      SetSize(s[..n]);
      var head := Elements(s[..n]);
      assert s == s[..n] + [s[n]];
      assert Elements(s) == head + {s[n]};
      assert s[n] !in head;
    }
  }

  // ---------------------------------------------------------------- the map is determined

  /** The values in the classes up to `g`. */
  ghost function UpTo(classMap: seq<byte>, g: int): (r: set<nat>) {
    set v: nat | v < |classMap| && classMap[v] <= g
  }

  lemma {:induction false} UpToSize(peak: seq<byte>, classMap: seq<byte>, g: int)
    requires Classifies(peak, classMap) && -1 <= g < VALUES / GROUP
    ensures |UpTo(classMap, g)| == GROUP * (g + 1)
    decreases g + 1
  {
    if g == -1 {
      assert UpTo(classMap, g) == {};
    } else {
      UpToSize(peak, classMap, g - 1);
      assert UpTo(classMap, g) == UpTo(classMap, g - 1) + Members(classMap, g);
      assert UpTo(classMap, g - 1) !! Members(classMap, g);
    }
  }

  /** The classes up to `g` are an initial segment of the order, so one map's lie in the other's. */
  lemma UpToNested(peak: seq<byte>, a: seq<byte>, b: seq<byte>, g: nat)
    requires Classifies(peak, a) && Classifies(peak, b) && g < VALUES / GROUP
    ensures UpTo(a, g) <= UpTo(b, g)
  {
    var x, y := UpTo(a, g), UpTo(b, g);
    if v :| v in x && v !in y {
      forall u | u in y
        ensures u in x
      {
        assert Precedes(peak, u, v) || Precedes(peak, v, u);
      }
      UpToSize(peak, a, g);
      UpToSize(peak, b, g);
      SubsetSize(y, x - {v});
      assert false;
    }
  }

  lemma {:induction false} SubsetSize(x: set<nat>, y: set<nat>)
    requires x <= y
    ensures |x| <= |y|
  {
    if x != {} {
      var v :| v in x;
      SubsetSize(x - {v}, y - {v});
    }
  }

  /** Two class maps with these properties are equal: the sort leaves no freedom. */
  lemma ClassMapUnique(peak: seq<byte>, a: seq<byte>, b: seq<byte>)
    requires Classifies(peak, a) && Classifies(peak, b)
    ensures a == b
  {
    forall v | 0 <= v < VALUES
      ensures a[v] == b[v]
    {
      UpToNested(peak, a, b, a[v]);
      UpToNested(peak, b, a, b[v]);
      assert v in UpTo(a, a[v]) && v in UpTo(b, b[v]);
    }
  }
}
