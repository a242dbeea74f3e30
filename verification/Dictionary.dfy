/** Dictionary blobs (netc_dict_save and netc_dict_load) and the whole of netc_dict_train. */
module Dictionary {
  import opened Machine
  import opened TansTable
  import opened TansCoder
  import opened Adaptive
  import opened Filters
  import opened Contexts
  import opened Frequencies
  import opened Simd
  import opened Connection
  import opened Training
  import opened Voting
  import ClassMap

  type word = x: int | 0 <= x < 0x1_0000_0000

  /** The CRC of a byte string; any function will do. */
  type Checksum = seq<byte> -> word

  datatype LoadError = DictInvalid | WrongVersion
  datatype Loaded = Ok(dict: Dict) | Err(error: LoadError)

  // ---------------------------------------------------------------- layout

  const MAGIC: nat := 0x4E455443
  const HEAD: nat := 8
  const ROW: nat := 512
  const V3_BLOB_SIZE: nat := 40972
  const NO_TABLE: Table := Table(PARAMS_12, [], [], [], [], false)

  function ClassesOf(version: byte): (n: nat) {
    if version >= 5 then CLASSES else 4
  }

  function RowCount(version: byte): (n: nat) {
    BUCKETS + BUCKETS * ClassesOf(version)
  }

  function FreqBase(version: byte): (n: nat) {
    HEAD + if version >= 5 then 256 else 0
  }

  function LzpBase(version: byte): (n: nat) {
    FreqBase(version) + ROW * RowCount(version)
  }

  predicate HasLzp(dictFlags: byte) {
    dictFlags % 2 == 1
  }

  function BodySize(version: byte, dictFlags: byte): (n: nat) {
    LzpBase(version) + if HasLzp(dictFlags) then 4 + 2 * LZP_SIZE else 0
  }

  function DefaultClassMap(): (m: seq<byte>)
    ensures |m| == 256
  {
    seq(256, i requires 0 <= i < 256 => i / 64)
  }

  /** The sizes of the blobs of each version, without and with an LZP table. */
  lemma BlobSizes()
    ensures BodySize(5, 0) + 4 == 73996 && BodySize(5, 1) + 4 == 336144 && LzpBase(5) == 73992 && FreqBase(5) == 264
    ensures BodySize(4, 0) + 4 == 40972 == V3_BLOB_SIZE && BodySize(3, 0) == BodySize(4, 0)
  {
  }

  // ---------------------------------------------------------------- what a blob says

  function U16(data: seq<byte>, off: nat): (v: nat)
    requires off + 2 <= |data|
  {
    LeValue(data[off..off + 2])
  }

  function U32(data: seq<byte>, off: nat): (v: nat)
    requires off + 4 <= |data|
  {
    LeValue(data[off..off + 4])
  }

  /** Frequency row `r`: the unigram rows, then the bigram rows bucket by bucket. */
  function RowAt(data: seq<byte>, base: nat, r: nat): (f: seq<nat>)
    requires base + ROW * (r + 1) <= |data|
    ensures |f| == SYMBOLS
  {
    seq(SYMBOLS, s requires 0 <= s < SYMBOLS => U16(data, base + ROW * r + 2 * s))
  }

  ghost predicate RowsFit(data: seq<byte>, base: nat, n: nat)
    requires base + ROW * n <= |data|
  {
    forall r :: 0 <= r < n ==> FreqFits(PARAMS_12, RowAt(data, base, r))
  }

  ghost function TableAt(data: seq<byte>, base: nat, r: nat): (t: Table)
    requires base + ROW * (r + 1) <= |data| && PARAMS_12.Valid() && FreqFits(PARAMS_12, RowAt(data, base, r))
  {
    TableOf(PARAMS_12, RowAt(data, base, r))
  }

  /** A stored LZP table may be shorter; the remaining slots stay empty. */
  function LzpAt(data: seq<byte>, off: nat, n: nat): (t: LzpTable)
    requires n <= LZP_SIZE && off + 2 * n <= |data|
    ensures |t| == LZP_SIZE
  {
    seq(LZP_SIZE, h requires 0 <= h < LZP_SIZE =>
      if h < n then LzpEntry(data[off + 2 * h], data[off + 2 * h + 1]) else LzpEntry(0, 0))
  }

  ghost function BigramRowAt(data: seq<byte>, version: byte, b: nat): (row: seq<Table>)
    requires b < BUCKETS && LzpBase(version) <= |data|
    requires PARAMS_12.Valid() && RowsFit(data, FreqBase(version), RowCount(version))
    ensures |row| == CLASSES
  {
    seq(CLASSES, c requires 0 <= c < CLASSES =>
      if c < ClassesOf(version) then TableAt(data, FreqBase(version), BUCKETS + b * ClassesOf(version) + c)
      else NO_TABLE)
  }

  /** The dictionary of a blob that passed the checks on header, size and checksum. */
  ghost function Content(data: seq<byte>, size: nat): (r: Loaded)
    requires |data| >= HEAD && |data| >= size == BodySize(data[4], data[7]) + 4 && PARAMS_12.Valid()
  {
    var v := data[4];
    var base, lzp := FreqBase(v), LzpBase(v);
    if !RowsFit(data, base, RowCount(v)) then Err(DictInvalid)
    else if HasLzp(data[7]) && U32(data, lzp) > LZP_SIZE then Err(DictInvalid)
    else
      Ok(Dict(v, data[5], data[7],
              seq(BUCKETS, b requires 0 <= b < BUCKETS => TableAt(data, base, b)),
              seq(BUCKETS, b requires 0 <= b < BUCKETS => BigramRowAt(data, v, b)),
              if v >= 5 then data[HEAD..HEAD + 256] else DefaultClassMap(),
              if HasLzp(data[7]) then Some(LzpAt(data, lzp + 4, U32(data, lzp))) else None,
              U32(data, size - 4)))
  }

  /** What netc_dict_load makes of any byte string. */
  ghost function Load(crc: Checksum, data: seq<byte>): (r: Loaded)
  {
    Params10Valid();
    if |data| < V3_BLOB_SIZE || U32(data, 0) != MAGIC then Err(DictInvalid)
    else if data[4] < 3 || data[4] > 5 || data[6] != BUCKETS then Err(WrongVersion)
    else
      var size := BodySize(data[4], data[7]) + 4;
      if |data| < size || U32(data, size - 4) != crc(data[..size - 4]) then Err(DictInvalid)
      else Content(data, size)
  }

  // ---------------------------------------------------------------- how a blob is written

  function Words(f: seq<nat>): (s: seq<byte>)
    ensures |s| == 2 * |f|
  {
    if f == [] then [] else Words(f[..|f| - 1]) + LeBytes(f[|f| - 1], 2)
  }

  /** Shape of a dictionary in memory. */
  ghost predicate Shaped(d: Dict) {
    && 3 <= d.version <= 5 && |d.tables| == BUCKETS && |d.bigram| == BUCKETS && |d.classMap| == 256
    && (forall b :: 0 <= b < BUCKETS ==> |d.bigram[b]| == CLASSES)
    && (HasLzp(d.dictFlags) <==> d.lzp.Some?)
    && (d.lzp.Some? ==> |d.lzp.value| == LZP_SIZE)
  }

  ghost function RowTable(d: Dict, r: nat): (t: Table)
    requires Shaped(d) && r < RowCount(d.version)
  {
    if r < BUCKETS then d.tables[r]
    else d.bigram[(r - BUCKETS) / ClassesOf(d.version)][(r - BUCKETS) % ClassesOf(d.version)]
  }

  /** Every stored table was built from its frequencies; a version before 5 has four classes and
      the fixed class map. */
  ghost predicate WellFormed(d: Dict) {
    && Shaped(d)
    && (forall r :: 0 <= r < RowCount(d.version) ==> Built(PARAMS_12, RowTable(d, r)))
    && (d.version < 5 ==>
          && d.classMap == DefaultClassMap()
          && forall b, c :: 0 <= b < BUCKETS && 4 <= c < CLASSES ==> d.bigram[b][c] == NO_TABLE)
  }

  ghost function Rows(d: Dict, n: nat): (s: seq<byte>)
    requires WellFormed(d) && n <= RowCount(d.version)
    ensures |s| == ROW * n
  {
    if n == 0 then []
    else
      assert Built(PARAMS_12, RowTable(d, n - 1));
      Rows(d, n - 1) + Words(RowTable(d, n - 1).freq)
  }

  function LzpBytes(t: LzpTable): (s: seq<byte>)
    ensures |s| == 2 * |t|
  {
    if t == [] then [] else LzpBytes(t[..|t| - 1]) + [t[|t| - 1].value, t[|t| - 1].conf]
  }

  function Head(d: Dict): (s: seq<byte>)
    ensures |s| == HEAD
  {
    LeBytes(MAGIC, 4) + [d.version, d.modelId, BUCKETS, d.dictFlags]
  }

  function LzpSection(d: Dict): (s: seq<byte>)
    requires d.lzp.Some? ==> |d.lzp.value| == LZP_SIZE
    ensures |s| == if d.lzp.Some? then 4 + 2 * LZP_SIZE else 0
  {
    if d.lzp.Some? then LeBytes(LZP_SIZE, 4) + LzpBytes(d.lzp.value) else []
  }

  ghost function Body(d: Dict): (s: seq<byte>)
    requires WellFormed(d)
    ensures |s| == BodySize(d.version, d.dictFlags)
  {
    Head(d) + (if d.version >= 5 then d.classMap else []) + Rows(d, RowCount(d.version)) + LzpSection(d)
  }

  ghost function Blob(d: Dict): (s: seq<byte>)
    requires WellFormed(d)
    ensures |s| == BodySize(d.version, d.dictFlags) + 4
  {
    Body(d) + LeBytes(d.checksum, 4)
  }

  // ---------------------------------------------------------------- reading back what was written

  lemma U16OfBytes(v: nat)
    requires v < 65536
    ensures LeValue(LeBytes(v, 2)) == v
  {
    hide LeValue, LeBytes, Pow2;
    Pow2Values();
    LeValueOfBytes(v, 2);
  }

  lemma U32OfBytes(v: word)
    ensures LeValue(LeBytes(v, 4)) == v
  {
    hide LeValue, LeBytes, Pow2;
    Pow2Values();
    LeValueOfBytes(v, 4);
  }

  lemma {:induction false} WordsAt(f: seq<nat>, s: nat)
    requires s < |f|
    ensures Words(f)[2 * s..2 * s + 2] == LeBytes(f[s], 2)
  {
    hide LeBytes;
    var n := |f| - 1;
    var w := Words(f[..n]);
    if s < n {
      WordsAt(f[..n], s);
      assert Words(f)[2 * s..2 * s + 2] == w[2 * s..2 * s + 2];
    }
  }

  lemma {:induction false} RowsAt(d: Dict, n: nat, r: nat)
    requires WellFormed(d) && r < n <= RowCount(d.version)
    ensures Rows(d, n)[ROW * r..ROW * (r + 1)] == Words(RowTable(d, r).freq)
  {
    hide Words, WellFormed, Rows, RowTable;
    ShapedOf(d);
    RowsNext(d, n - 1);
    var w, last := Rows(d, n - 1), Words(RowTable(d, n - 1).freq);
    if r < n - 1 {
      RowsAt(d, n - 1, r);
      PrefixSlice(w, last, ROW * r, ROW * (r + 1));
    } else {
      assert (w + last)[ROW * r..ROW * (r + 1)] == last;
    }
  }

  lemma PrefixSlice(w: seq<byte>, rest: seq<byte>, lo: nat, hi: nat)
    requires lo <= hi <= |w|
    ensures (w + rest)[lo..hi] == w[lo..hi]
  {
  }

  lemma Cut(data: seq<byte>, a: nat, b: nat, c: nat)
    requires a <= b <= c <= |data|
    ensures data[a..c] == data[a..b] + data[b..c]
  {
  }

  lemma {:induction false} LzpBytesAt(t: LzpTable, h: nat)
    requires h < |t|
    ensures LzpBytes(t)[2 * h] == t[h].value && LzpBytes(t)[2 * h + 1] == t[h].conf
  {
    if h < |t| - 1 {
      LzpBytesAt(t[..|t| - 1], h);
    }
  }

  /** Where the parts of a saved dictionary are, whatever follows it. */
  ghost predicate Parts(d: Dict, data: seq<byte>)
    requires WellFormed(d)
  {
    var v, size := d.version, BodySize(d.version, d.dictFlags) + 4;
    var lzp := LzpBase(v);
    && |data| >= size
    && data[..4] == LeBytes(MAGIC, 4)
    && data[4] == v && data[5] == d.modelId && data[6] == BUCKETS && data[7] == d.dictFlags
    && (v >= 5 ==> data[HEAD..HEAD + 256] == d.classMap)
    && data[FreqBase(v)..lzp] == Rows(d, RowCount(v))
    && (d.lzp.Some? ==> data[lzp..lzp + 4] == LeBytes(LZP_SIZE, 4) && data[lzp + 4..size - 4] == LzpBytes(d.lzp.value))
    && data[..size - 4] == Body(d)
    && data[size - 4..size] == LeBytes(d.checksum, 4)
  }

  lemma BlobParts(d: Dict, extra: seq<byte>)
    requires WellFormed(d)
    ensures Parts(d, Blob(d) + extra)
  {
    ShapedOf(d);
    hide LeBytes, Rows, LzpBytes, Head, WellFormed, LzpSection;
    var head, rows, sec := Head(d), Rows(d, RowCount(d.version)), LzpSection(d);
    var cm := if d.version >= 5 then d.classMap else [];
    var data := Blob(d) + extra;
    Sections(head, cm, rows, sec, LeBytes(d.checksum, 4), extra);
    HeadParts(d, data);
    if d.lzp.Some? {
      SectionParts(d, data);
    }
  }

  /** The parts of a concatenation are found at their offsets. */
  lemma Sections(a: seq<byte>, b: seq<byte>, c: seq<byte>, d: seq<byte>, e: seq<byte>, f: seq<byte>)
    ensures var s, i := a + b + c + d + e + f, |a| + |b|;
            && s[..|a|] == a && s[|a|..i] == b && s[i..i + |c|] == c && s[i + |c|..i + |c| + |d|] == d
            && s[..i + |c| + |d|] == a + b + c + d
            && s[i + |c| + |d|..i + |c| + |d| + |e|] == e
  {
    var s := a + b + c + d + e + f;
    PrefixSlice(a + b + c + d + e, f, 0, |a + b + c + d + e|);
    assert s[..|a + b + c + d|] == a + b + c + d;
    assert s[..|a + b + c|] == a + b + c;
    assert s[..|a + b|] == a + b;
  }

  lemma HeadParts(d: Dict, data: seq<byte>)
    requires |data| >= HEAD && data[..HEAD] == Head(d)
    ensures data[..4] == LeBytes(MAGIC, 4)
    ensures data[4] == d.version && data[5] == d.modelId && data[6] == BUCKETS && data[7] == d.dictFlags
  {
    hide LeBytes;
    assert data[..4] == data[..HEAD][..4];
    assert forall i :: 4 <= i < 8 ==> data[i] == data[..HEAD][i];
  }

  lemma SectionParts(d: Dict, data: seq<byte>)
    requires d.lzp.Some? && |d.lzp.value| == LZP_SIZE
    requires LzpBase(d.version) + |LzpSection(d)| <= |data|
    requires data[LzpBase(d.version)..LzpBase(d.version) + |LzpSection(d)|] == LzpSection(d)
    ensures var lzp := LzpBase(d.version);
            && data[lzp..lzp + 4] == LeBytes(LZP_SIZE, 4)
            && data[lzp + 4..lzp + |LzpSection(d)|] == LzpBytes(d.lzp.value)
  {
    hide LeBytes, LzpBytes;
    var lzp, n := LzpBase(d.version), |LzpSection(d)|;
    SubSlice(data, lzp, lzp + n, 0, 4);
    SubSlice(data, lzp, lzp + n, 4, n);
  }

  lemma RowReadBack(d: Dict, data: seq<byte>, r: nat)
    requires WellFormed(d) && Parts(d, data) && r < RowCount(d.version)
    ensures FreqFits(PARAMS_12, RowTable(d, r).freq)
    ensures RowAt(data, FreqBase(d.version), r) == RowTable(d, r).freq
  {
    assert Built(PARAMS_12, RowTable(d, r));
    hide WellFormed, Parts;
    RowSlice(d, data, r);
    RowOfWords(data, FreqBase(d.version), r, RowTable(d, r).freq);
  }

  lemma RowOfWords(data: seq<byte>, base: nat, r: nat, f: seq<nat>)
    requires FreqFits(PARAMS_12, f) && base + ROW * (r + 1) <= |data|
    requires data[base + ROW * r..base + ROW * r + ROW] == Words(f)
    ensures RowAt(data, base, r) == f
  {
    hide LeBytes, LeValue, Words, U16;
    forall s | 0 <= s < SYMBOLS
      ensures RowAt(data, base, r)[s] == f[s]
    {
      WordReadBack(data, base + ROW * r, f, s);
    }
  }

  lemma RowSlice(d: Dict, data: seq<byte>, r: nat)
    requires WellFormed(d) && Parts(d, data) && r < RowCount(d.version)
    ensures LzpBase(d.version) <= |data|
    ensures var at := FreqBase(d.version) + ROW * r; data[at..at + ROW] == Words(RowTable(d, r).freq)
  {
    hide LeBytes, LeValue, Rows, Words, Body, LzpBytes, WellFormed;
    var base, n := FreqBase(d.version), RowCount(d.version);
    RowsAt(d, n, r);
    SubSlice(data, base, LzpBase(d.version), ROW * r, ROW * (r + 1));
  }

  lemma SubSlice(data: seq<byte>, a: nat, b: nat, lo: nat, hi: nat)
    requires a <= b <= |data| && lo <= hi <= b - a
    ensures data[a..b][lo..hi] == data[a + lo..a + hi]
  {
    var x, y := data[a..b][lo..hi], data[a + lo..a + hi];
    assert forall i :: 0 <= i < |x| ==> x[i] == data[a..b][lo + i];
    assert x == y;
  }

  lemma WordReadBack(data: seq<byte>, at: nat, f: seq<nat>, s: nat)
    requires s < SYMBOLS && FreqFits(PARAMS_12, f) && at + ROW <= |data| && data[at..at + ROW] == Words(f)
    ensures U16(data, at + 2 * s) == f[s]
  {
    hide LeBytes, LeValue, Words;
    WordsAt(f, s);
    SubSlice(data, at, at + ROW, 2 * s, 2 * s + 2);
    FreqBelow(f, s);
    U16OfBytes(f[s]);
  }

  lemma FreqBelow(f: seq<nat>, s: nat)
    requires FreqFits(PARAMS_12, f) && s < SYMBOLS
    ensures f[s] <= 4096
  {
    Pow2Values();
    FreqAtMostSum(f, s);
  }

  lemma SliceAt(data: seq<byte>, a: nat, b: nat, k: nat)
    requires a <= b <= |data| && k < b - a
    ensures data[a..b][k] == data[a + k]
  {
  }

  lemma LzpReadBack(d: Dict, data: seq<byte>)
    requires WellFormed(d) && Parts(d, data) && d.lzp.Some?
    ensures U32(data, LzpBase(d.version)) == LZP_SIZE
    ensures LzpAt(data, LzpBase(d.version) + 4, LZP_SIZE) == d.lzp.value
  {
    hide LeBytes, LeValue, Rows, Body, LzpBytes;
    U32OfBytes(LZP_SIZE);
    var t, at, size := d.lzp.value, LzpBase(d.version) + 4, BodySize(d.version, d.dictFlags) + 4;
    forall h | 0 <= h < LZP_SIZE
      ensures LzpAt(data, at, LZP_SIZE)[h] == t[h]
    {
      LzpBytesAt(t, h);
      SliceAt(data, at, size - 4, 2 * h);
      SliceAt(data, at, size - 4, 2 * h + 1);
    }
  }

  /** The row number of a bigram table and back. */
  lemma RowOfBigram(version: byte, b: nat, c: nat)
    requires b < BUCKETS && c < ClassesOf(version)
    ensures var r := BUCKETS + b * ClassesOf(version) + c;
            BUCKETS <= r < RowCount(version)
            && (r - BUCKETS) / ClassesOf(version) == b && (r - BUCKETS) % ClassesOf(version) == c
  {
  }

  lemma BigramOfRow(version: byte, r: nat)
    requires BUCKETS <= r < RowCount(version)
    ensures var n := ClassesOf(version);
            var b, c := (r - BUCKETS) / n, (r - BUCKETS) % n;
            b < BUCKETS && c < n && r == BUCKETS + b * n + c
  {
  }

  lemma ContentReadBack(d: Dict, data: seq<byte>)
    requires WellFormed(d) && Parts(d, data) && 0 <= d.checksum < 0x1_0000_0000 && PARAMS_12.Valid()
    ensures Content(data, BodySize(d.version, d.dictFlags) + 4) == Ok(d)
  {
    hide LeBytes, LeValue, Rows, Body, LzpBytes, Built, FreqFits, RowAt, TableOf, LzpAt;
    var v, base := d.version, FreqBase(d.version);
    forall r | 0 <= r < RowCount(v)
      ensures FreqFits(PARAMS_12, RowAt(data, base, r)) && TableAt(data, base, r) == RowTable(d, r)
    {
      RowReadBack(d, data, r);
      TableReadBack(d, data, r);
    }
    U32OfBytes(d.checksum);
    if d.lzp.Some? {
      LzpReadBack(d, data);
    }
    forall b | 0 <= b < BUCKETS
      ensures BigramRowAt(data, v, b) == d.bigram[b]
    {
      BigramReadBack(d, data, b);
    }
    assert seq(BUCKETS, b requires 0 <= b < BUCKETS => TableAt(data, base, b)) == d.tables;
    assert seq(BUCKETS, b requires 0 <= b < BUCKETS => BigramRowAt(data, v, b)) == d.bigram;
  }

  lemma TableReadBack(d: Dict, data: seq<byte>, r: nat)
    requires WellFormed(d) && Parts(d, data) && r < RowCount(d.version) && PARAMS_12.Valid()
    ensures FreqFits(PARAMS_12, RowAt(data, FreqBase(d.version), r))
    ensures TableAt(data, FreqBase(d.version), r) == RowTable(d, r)
  {
    hide Parts, TableOf, FreqFits, RowAt;
    RowReadBack(d, data, r);
    assert Built(PARAMS_12, RowTable(d, r));
  }

  lemma BigramReadBack(d: Dict, data: seq<byte>, b: nat)
    requires WellFormed(d) && Parts(d, data) && PARAMS_12.Valid() && b < BUCKETS
    requires LzpBase(d.version) <= |data| && RowsFit(data, FreqBase(d.version), RowCount(d.version))
    ensures BigramRowAt(data, d.version, b) == d.bigram[b]
  {
    hide Parts, TableOf, FreqFits, RowAt, Built;
    forall c | 0 <= c < CLASSES
      ensures BigramRowAt(data, d.version, b)[c] == d.bigram[b][c]
    {
      if c < ClassesOf(d.version) {
        RowOfBigram(d.version, b, c);
        TableReadBack(d, data, BUCKETS + b * ClassesOf(d.version) + c);
      }
    }
  }

  /** Loading a saved dictionary accepts it exactly when its checksum is that of its body, and then
      returns it unchanged, tables and all; bytes after the blob are ignored. */
  lemma SaveLoad(crc: Checksum, d: Dict, extra: seq<byte>)
    requires WellFormed(d) && 0 <= d.checksum < 0x1_0000_0000
    ensures Load(crc, Blob(d) + extra) == if d.checksum == crc(Body(d)) then Ok(d) else Err(DictInvalid)
  {
    hide LeBytes, LeValue, Rows, Body, Blob, LzpBytes, Content, Built;
    Params10Valid();
    BlobParts(d, extra);
    U32OfBytes(MAGIC);
    U32OfBytes(d.checksum);
    ContentReadBack(d, Blob(d) + extra);
  }

  // ---------------------------------------------------------------- writing back what was read

  lemma Freq12Fits(f: seq<nat>)
    requires FreqFits(PARAMS_12, f) && PARAMS_12.Valid()
    ensures TableOf(PARAMS_12, f).freq == f && Built(PARAMS_12, TableOf(PARAMS_12, f))
  {
  }

  lemma BigramCell(data: seq<byte>, version: byte, b: nat, c: nat)
    requires b < BUCKETS && c < ClassesOf(version) && LzpBase(version) <= |data|
    requires PARAMS_12.Valid() && RowsFit(data, FreqBase(version), RowCount(version))
    ensures BigramRowAt(data, version, b)[c] == TableAt(data, FreqBase(version), BUCKETS + b * ClassesOf(version) + c)
  {
  }

  /** The table of row `r` in a loaded dictionary. */
  lemma ContentTable(data: seq<byte>, size: nat, d: Dict, r: nat)
    requires PARAMS_12.Valid() && |data| >= HEAD && |data| >= size == BodySize(data[4], data[7]) + 4
    requires Content(data, size) == Ok(d) && 3 <= data[4] <= 5 && r < RowCount(data[4])
    ensures Shaped(d) && FreqFits(PARAMS_12, RowAt(data, FreqBase(data[4]), r))
    ensures RowTable(d, r) == TableOf(PARAMS_12, RowAt(data, FreqBase(data[4]), r))
    ensures Built(PARAMS_12, RowTable(d, r))
  {
    hide TableOf, FreqFits, RowAt, LzpAt, LeValue;
    Freq12Fits(RowAt(data, FreqBase(data[4]), r));
    if r >= BUCKETS {
      var n := ClassesOf(data[4]);
      var b, c := (r - BUCKETS) / n, (r - BUCKETS) % n;
      BigramOfRow(data[4], r);
      assert d.bigram[b] == BigramRowAt(data, data[4], b);
      BigramCell(data, data[4], b, c);
    }
  }

  lemma ContentWellFormed(data: seq<byte>, size: nat, d: Dict)
    requires PARAMS_12.Valid() && |data| >= HEAD && |data| >= size == BodySize(data[4], data[7]) + 4
    requires Content(data, size) == Ok(d) && 3 <= data[4] <= 5
    ensures WellFormed(d)
  {
    hide TableOf, FreqFits, RowAt, LzpAt, LeValue, Built;
    ContentTable(data, size, d, 0);
    forall r | 0 <= r < RowCount(d.version)
      ensures Built(PARAMS_12, RowTable(d, r))
    {
      ContentTable(data, size, d, r);
    }
  }

  lemma {:induction false} WordsOfSlice(data: seq<byte>, at: nat, f: seq<nat>)
    requires at + 2 * |f| <= |data| && forall s :: 0 <= s < |f| ==> f[s] == U16(data, at + 2 * s)
    ensures Words(f) == data[at..at + 2 * |f|]
  {
    hide LeBytes, U16, Words;
    WordsLast(f);
    if f != [] {
      var n := |f| - 1;
      WordsOfSlice(data, at, f[..n]);
      U16Bytes(data, at + 2 * n);
      Cut(data, at, at + 2 * n, at + 2 * |f|);
    }
  }

  lemma WordsLast(f: seq<nat>)
    ensures f == [] ==> Words(f) == []
    ensures f != [] ==> Words(f) == Words(f[..|f| - 1]) + LeBytes(f[|f| - 1], 2)
  {
  }

  lemma U16Bytes(data: seq<byte>, off: nat)
    requires off + 2 <= |data|
    ensures LeBytes(U16(data, off), 2) == data[off..off + 2]
  {
    hide LeValue, LeBytes;
    LeBytesOfValue(data[off..off + 2]);
  }

  lemma {:induction false} RowsOfSlice(data: seq<byte>, size: nat, d: Dict, n: nat)
    requires PARAMS_12.Valid() && |data| >= HEAD && |data| >= size == BodySize(data[4], data[7]) + 4
    requires Content(data, size) == Ok(d) && 3 <= data[4] <= 5 && WellFormed(d) && n <= RowCount(d.version)
    requires d.version == data[4]
    ensures Rows(d, n) == data[FreqBase(d.version)..FreqBase(d.version) + ROW * n]
  {
    hide TableOf, FreqFits, Words, LeValue, Content, WellFormed, U16;
    if n > 0 {
      var base := FreqBase(d.version);
      RowsOfSlice(data, size, d, n - 1);
      ContentTable(data, size, d, n - 1);
      var f := RowAt(data, base, n - 1);
      Freq12Fits(f);
      WordsOfSlice(data, base + ROW * (n - 1), f);
      Cut(data, base, base + ROW * (n - 1), base + ROW * n);
    }
  }

  lemma {:induction false} LzpOfSlice(data: seq<byte>, at: nat, t: LzpTable)
    requires at + 2 * |t| <= |data|
    requires forall h :: 0 <= h < |t| ==> t[h] == LzpEntry(data[at + 2 * h], data[at + 2 * h + 1])
    ensures LzpBytes(t) == data[at..at + 2 * |t|]
  {
    hide LzpBytes;
    LzpBytesLast(t);
    if t != [] {
      var n := |t| - 1;
      assert t[n] == LzpEntry(data[at + 2 * n], data[at + 2 * n + 1]);
      LzpOfSlice(data, at, t[..n]);
      Cut(data, at, at + 2 * n, at + 2 * |t|);
      assert data[at + 2 * n..at + 2 * n + 2] == [data[at + 2 * n], data[at + 2 * n + 1]];
    }
  }

  lemma LzpBytesLast(t: LzpTable)
    ensures t == [] ==> LzpBytes(t) == []
    ensures t != [] ==> LzpBytes(t) == LzpBytes(t[..|t| - 1]) + [t[|t| - 1].value, t[|t| - 1].conf]
  {
  }

  lemma ContentFields(data: seq<byte>, size: nat, d: Dict)
    requires PARAMS_12.Valid() && |data| >= HEAD && |data| >= size == BodySize(data[4], data[7]) + 4
    requires Content(data, size) == Ok(d)
    ensures d.version == data[4] && d.modelId == data[5] && d.dictFlags == data[7] && d.checksum == U32(data, size - 4)
    ensures d.version >= 5 ==> d.classMap == data[HEAD..HEAD + 256]
    ensures HasLzp(data[7]) ==> var n := U32(data, LzpBase(data[4]));
              n <= LZP_SIZE && d.lzp == Some(LzpAt(data, LzpBase(data[4]) + 4, n))
    ensures !HasLzp(data[7]) ==> d.lzp.None?
  {
  }

  /** A full LZP section is written back as it was. */
  lemma SectionSame(data: seq<byte>, size: nat, d: Dict)
    requires PARAMS_12.Valid() && |data| >= HEAD && |data| >= size == BodySize(data[4], data[7]) + 4
    requires Content(data, size) == Ok(d)
    requires HasLzp(data[7]) ==> U32(data, LzpBase(data[4])) == LZP_SIZE
    ensures d.lzp.Some? ==> |d.lzp.value| == LZP_SIZE
    ensures LzpSection(d) == data[LzpBase(data[4])..size - 4]
  {
    hide LeValue, LeBytes, LzpBytes, Content;
    ContentFields(data, size, d);
    if HasLzp(data[7]) {
      var at := LzpBase(data[4]);
      LeBytesOfValue(data[at..at + 4]);
      LzpOfSlice(data, at + 4, d.lzp.value);
      assert data[at..size - 4] == data[at..at + 4] + data[at + 4..size - 4];
    }
  }

  lemma HeadSame(data: seq<byte>, d: Dict)
    requires |data| >= HEAD && U32(data, 0) == MAGIC && data[6] == BUCKETS
    requires d.version == data[4] && d.modelId == data[5] && d.dictFlags == data[7]
    ensures Head(d) == data[..HEAD]
  {
    hide LeValue, LeBytes;
    LeBytesOfValue(data[0..4]);
    assert data[..HEAD] == data[0..4] + [data[4], data[5], data[6], data[7]];
  }

  lemma BlobSame(data: seq<byte>, size: nat, d: Dict)
    requires PARAMS_12.Valid() && |data| >= HEAD && |data| >= size == BodySize(data[4], data[7]) + 4
    requires Content(data, size) == Ok(d) && WellFormed(d) && U32(data, 0) == MAGIC && data[6] == BUCKETS
    requires 3 <= data[4] <= 5 && (HasLzp(data[7]) ==> U32(data, LzpBase(data[4])) == LZP_SIZE)
    ensures Blob(d) == data[..size]
  {
    hide LeValue, LeBytes, LzpBytes, Content, WellFormed, Rows, Head, LzpSection;
    ContentFields(data, size, d);
    HeadSame(data, d);
    RowsOfSlice(data, size, d, RowCount(d.version));
    SectionSame(data, size, d);
    LeBytesOfValue(data[size - 4..size]);
    var base, lzp := FreqBase(d.version), LzpBase(d.version);
    var cm := if d.version >= 5 then d.classMap else [];
    assert cm == data[HEAD..base];
    assert data[..size] ==
           data[..HEAD] + data[HEAD..base] + data[base..lzp] + data[lzp..size - 4] + data[size - 4..size];
  }

  /** Saving a loaded dictionary gives back the bytes that were loaded exactly when the blob has no
      LZP section or a full one; the loader also accepts shorter ones. */
  lemma LoadSave(crc: Checksum, data: seq<byte>)
    requires Load(crc, data).Ok?
    ensures var d := Load(crc, data).dict;
            && WellFormed(d) && |Blob(d)| <= |data|
            && d.checksum == crc(data[..|Body(d)|])
            && (Blob(d) == data[..|Blob(d)|] <==> (HasLzp(d.dictFlags) ==> U32(data, LzpBase(d.version)) == LZP_SIZE))
  {
    hide TableOf, FreqFits, Built, RowAt, LzpAt, LeValue, LeBytes, Rows, LzpBytes, Content, WellFormed, Blob, Body;
    Params10Valid();
    var d, size := Load(crc, data).dict, BodySize(data[4], data[7]) + 4;
    ContentWellFormed(data, size, d);
    ContentFields(data, size, d);
    var lzp := LzpBase(d.version);
    if HasLzp(data[7]) && U32(data, lzp) != LZP_SIZE {
      BlobParts(d, []);
      assert Blob(d) + [] == Blob(d);
      LzpReadBack(d, Blob(d));
      SubSlice(data, 0, size, lzp, lzp + 4);
      assert data[..size] == data[0..size];
    } else {
      BlobSame(data, size, d);
    }
  }

  /** A loaded dictionary, saved and loaded again, is the same one, unless a shortened LZP section
      was filled up and the checksum of the longer body differs. */
  lemma ReloadExact(crc: Checksum, data: seq<byte>)
    requires Load(crc, data).Ok?
    ensures var d := Load(crc, data).dict;
            WellFormed(d) && Load(crc, Blob(d)) == if d.checksum == crc(Body(d)) then Ok(d) else Err(DictInvalid)
    ensures var d := Load(crc, data).dict;
            (HasLzp(d.dictFlags) ==> LzpBase(d.version) + 4 <= |data| && U32(data, LzpBase(d.version)) == LZP_SIZE)
            ==> Load(crc, Blob(d)) == Ok(d)
  {
    hide Load, WellFormed, Blob, Body, U32, BodySize;
    var d := Load(crc, data).dict;
    LoadSave(crc, data);
    SaveLoad(crc, d, []);
    assert Blob(d) + [] == Blob(d);
    BlobBody(d, data);
  }

  lemma BlobBody(d: Dict, data: seq<byte>)
    requires WellFormed(d) && |Blob(d)| <= |data|
    ensures Blob(d) == data[..|Blob(d)|] ==> Body(d) == data[..|Body(d)|]
  {
    hide WellFormed, LeBytes, Body;
    assert Blob(d)[..|Body(d)|] == Body(d);
  }

  // ---------------------------------------------------------------- save

  /** Writes `bytes` at `off` and returns the offset after them. */
  method Put(blob: array<byte>, off: nat, bytes: seq<byte>) returns (next: nat)
    requires off + |bytes| <= blob.Length
    modifies blob
    ensures next == off + |bytes| && blob[..next] == old(blob[..off]) + bytes
  {
    for i := 0 to |bytes|
      invariant blob[..off + i] == old(blob[..off]) + bytes[..i]
    {
      blob[off + i] := bytes[i];
      assert blob[..off + i + 1] == blob[..off + i] + [bytes[i]];
    }
    next := off + |bytes|;
  }

  /** netc_dict_save. */
  method Save(d: Dict) returns (blob: array<byte>)
    requires WellFormed(d)
    ensures fresh(blob) && blob[..] == Blob(d)
  {
    hide WellFormed, Rows, LeBytes, LzpBytes, Words, Body;
    ShapedOf(d);
    var size := BodySize(d.version, d.dictFlags) + 4;
    blob := new byte[size](_ => 0);
    var off := SaveFront(d, blob);
    off := SaveRows(d, blob, off, Front(d));
    off := SaveSection(d, blob, off);
    assert blob[..off] == Body(d) by { BodyJoined(d); }
    off := Put(blob, off, LeBytes(d.checksum, 4));
    assert blob[..off] == blob[..];
  }

  ghost function Front(d: Dict): (s: seq<byte>)
    requires |d.classMap| == 256
    ensures |s| == FreqBase(d.version)
  {
    Head(d) + if d.version >= 5 then d.classMap else []
  }

  lemma BodyJoined(d: Dict)
    requires WellFormed(d)
    ensures Body(d) == Front(d) + Rows(d, RowCount(d.version)) + LzpSection(d)
  {
    hide Rows, LeBytes, LzpBytes;
  }

  method SaveFront(d: Dict, blob: array<byte>) returns (off: nat)
    requires |d.classMap| == 256 && FreqBase(d.version) <= blob.Length
    modifies blob
    ensures off == FreqBase(d.version) && blob[..off] == Front(d)
  {
    hide LeBytes;
    off := Put(blob, 0, LeBytes(MAGIC, 4));
    off := Put(blob, off, [d.version, d.modelId, BUCKETS, d.dictFlags]);
    if d.version >= 5 {
      off := Put(blob, off, d.classMap);
    }
  }

  method SaveSection(d: Dict, blob: array<byte>, off: nat) returns (next: nat)
    requires (HasLzp(d.dictFlags) <==> d.lzp.Some?) && (d.lzp.Some? ==> |d.lzp.value| == LZP_SIZE)
    requires off + |LzpSection(d)| <= blob.Length
    modifies blob
    ensures next == off + |LzpSection(d)| && blob[..next] == old(blob[..off]) + LzpSection(d)
  {
    hide LeBytes, LzpBytes;
    next := off;
    if HasLzp(d.dictFlags) {
      next := Put(blob, next, LeBytes(LZP_SIZE, 4));
      next := SaveLzp(d.lzp.value, blob, next);
    }
  }

  lemma ShapedOf(d: Dict)
    requires WellFormed(d)
    ensures Shaped(d)
  {
  }

  /** The unigram rows, then the bigram rows of the classes the version stores. */
  method SaveRows(d: Dict, blob: array<byte>, off: nat, ghost front: seq<byte>) returns (next: nat)
    requires WellFormed(d) && off + ROW * RowCount(d.version) <= blob.Length && blob[..off] == front
    modifies blob
    ensures next == off + ROW * RowCount(d.version) && blob[..next] == front + Rows(d, RowCount(d.version))
  {
    hide WellFormed, Rows, Words, RowTable;
    ShapedOf(d);
    RowsNone(d);
    next := off;
    for b := 0 to BUCKETS
      invariant next == off + ROW * b && blob[..next] == front + Rows(d, b)
    {
      UnigramRow(d, b);
      next := SaveNext(d, blob, next, b, d.tables[b], front);
    }
    for b := 0 to BUCKETS
      invariant next == off + ROW * (BUCKETS + b * ClassesOf(d.version))
      invariant blob[..next] == front + Rows(d, BUCKETS + b * ClassesOf(d.version))
    {
      next := SaveBigrams(d, blob, next, b, front);
    }
  }

  method SaveBigrams(d: Dict, blob: array<byte>, off: nat, b: nat, ghost front: seq<byte>) returns (next: nat)
    requires WellFormed(d) && b < BUCKETS && off + ROW * ClassesOf(d.version) <= blob.Length
    requires blob[..off] == front + Rows(d, BUCKETS + b * ClassesOf(d.version))
    modifies blob
    ensures next == off + ROW * ClassesOf(d.version)
    ensures blob[..next] == front + Rows(d, BUCKETS + (b + 1) * ClassesOf(d.version))
  {
    hide WellFormed, Rows, Words, RowTable;
    ShapedOf(d);
    next := off;
    var n := ClassesOf(d.version);
    var first := BUCKETS + b * n;
    assert BUCKETS + (b + 1) * n == first + n <= RowCount(d.version);
    for c := 0 to n
      invariant next == off + ROW * c && blob[..next] == front + Rows(d, first + c)
    {
      BigramRow(d, b, c);
      next := SaveNext(d, blob, next, first + c, d.bigram[b][c], front);
    }
  }

  lemma UnigramRow(d: Dict, b: nat)
    requires Shaped(d) && b < BUCKETS
    ensures b < RowCount(d.version) && RowTable(d, b) == d.tables[b]
  {
  }

  lemma BigramRow(d: Dict, b: nat, c: nat)
    requires Shaped(d) && b < BUCKETS && c < ClassesOf(d.version)
    ensures var r := BUCKETS + b * ClassesOf(d.version) + c;
            r < RowCount(d.version) && RowTable(d, r) == d.bigram[b][c]
  {
    RowOfBigram(d.version, b, c);
  }

  method SaveNext(d: Dict, blob: array<byte>, off: nat, r: nat, t: Table, ghost front: seq<byte>) returns (next: nat)
    requires WellFormed(d) && r < RowCount(d.version) && off + ROW <= blob.Length
    requires t == RowTable(d, r) && blob[..off] == front + Rows(d, r)
    modifies blob
    ensures next == off + ROW && blob[..next] == front + Rows(d, r + 1)
  {
    hide WellFormed, Rows, Words, RowTable;
    RowsNext(d, r);
    next := SaveRow(t.freq, blob, off);
    assert front + Rows(d, r) + Words(t.freq) == front + Rows(d, r + 1);
  }

  lemma RowsNone(d: Dict)
    requires WellFormed(d)
    ensures Rows(d, 0) == []
  {
  }

  lemma RowsNext(d: Dict, r: nat)
    requires WellFormed(d) && r < RowCount(d.version)
    ensures |RowTable(d, r).freq| == SYMBOLS && Rows(d, r + 1) == Rows(d, r) + Words(RowTable(d, r).freq)
  {
    assert Built(PARAMS_12, RowTable(d, r));
  }

  method SaveRow(freq: seq<nat>, blob: array<byte>, off: nat) returns (next: nat)
    requires |freq| == SYMBOLS && off + ROW <= blob.Length
    modifies blob
    ensures next == off + ROW && blob[..next] == old(blob[..off]) + Words(freq)
  {
    hide LeBytes;
    next := off;
    for s := 0 to SYMBOLS
      invariant next == off + 2 * s && blob[..next] == old(blob[..off]) + Words(freq[..s])
    {
      assert freq[..s + 1][..s] == freq[..s];
      next := Put(blob, next, LeBytes(freq[s], 2));
    }
    assert freq[..SYMBOLS] == freq;
  }

  method SaveLzp(t: LzpTable, blob: array<byte>, off: nat) returns (next: nat)
    requires |t| == LZP_SIZE && off + 2 * LZP_SIZE <= blob.Length
    modifies blob
    ensures next == off + 2 * LZP_SIZE && blob[..next] == old(blob[..off]) + LzpBytes(t)
  {
    next := off;
    for h := 0 to LZP_SIZE
      invariant next == off + 2 * h && blob[..next] == old(blob[..off]) + LzpBytes(t[..h])
    {
      assert t[..h + 1][..h] == t[..h];
      next := Put(blob, next, [t[h].value, t[h].conf]);
    }
    assert t[..LZP_SIZE] == t;
  }

  // ---------------------------------------------------------------- load

  method LoadRow(data: seq<byte>, base: nat, r: nat) returns (freq: seq<nat>)
    requires base + ROW * (r + 1) <= |data|
    ensures freq == RowAt(data, base, r)
  {
    hide U16;
    freq := [];
    var off := base + ROW * r;
    for s := 0 to SYMBOLS
      invariant off == base + ROW * r + 2 * s && |freq| == s
      invariant forall k :: 0 <= k < s ==> freq[k] == U16(data, base + ROW * r + 2 * k)
    {
      freq := freq + [U16(data, off)];
      off := off + 2;
    }
  }

  /** The tables of `n` consecutive rows, or nothing when one of them does not sum to 4096. */
  method LoadTables(data: seq<byte>, base: nat, first: nat, n: nat) returns (r: Option<seq<Table>>)
    requires base + ROW * (first + n) <= |data| && PARAMS_12.Valid()
    ensures r.Some? <==> forall k :: first <= k < first + n ==> FreqFits(PARAMS_12, RowAt(data, base, k))
    ensures r.Some? ==> |r.value| == n && forall k :: 0 <= k < n ==> r.value[k] == TableAt(data, base, first + k)
  {
    hide RowAt, TableOf;
    var ts: seq<Table> := [];
    for i := 0 to n
      invariant |ts| == i && forall k :: first <= k < first + i ==> FreqFits(PARAMS_12, RowAt(data, base, k))
      invariant forall k :: 0 <= k < i ==> ts[k] == TableAt(data, base, first + k)
    {
      var freq := LoadRow(data, base, first + i);
      var t := Build(PARAMS_12, freq);
      if t.None? {
        return None;
      }
      ts := ts + [t.value];
    }
    r := Some(ts);
  }

  method LoadBigrams(data: seq<byte>, version: byte) returns (r: Option<seq<seq<Table>>>)
    requires LzpBase(version) <= |data| && PARAMS_12.Valid()
    requires forall k :: 0 <= k < BUCKETS ==> FreqFits(PARAMS_12, RowAt(data, FreqBase(version), k))
    ensures r.Some? <==> RowsFit(data, FreqBase(version), RowCount(version))
    ensures r.Some? ==> |r.value| == BUCKETS
    ensures r.Some? ==> forall b :: 0 <= b < BUCKETS ==> r.value[b] == BigramRowAt(data, version, b)
  {
    hide RowAt, FreqFits, TableOf;
    var base, n := FreqBase(version), ClassesOf(version);
    var rows: seq<seq<Table>> := [];
    for b := 0 to BUCKETS
      invariant |rows| == b && forall k :: 0 <= k < BUCKETS + b * n ==> FreqFits(PARAMS_12, RowAt(data, base, k))
      invariant forall i :: 0 <= i < b ==> RowLoaded(data, version, i, rows[i])
    {
      var t := LoadTables(data, base, BUCKETS + b * n, n);
      if t.None? {
        return None;
      }
      rows := rows + [t.value + seq(CLASSES - n, _ => NO_TABLE)];
    }
    r := Some(rows);
  }

  ghost predicate RowLoaded(data: seq<byte>, version: byte, b: nat, row: seq<Table>)
    requires LzpBase(version) <= |data| && PARAMS_12.Valid() && b < BUCKETS
  {
    var n := ClassesOf(version);
    && (forall k :: BUCKETS + b * n <= k < BUCKETS + (b + 1) * n ==>
          FreqFits(PARAMS_12, RowAt(data, FreqBase(version), k)))
    && |row| == CLASSES
    && (forall c :: 0 <= c < n ==> row[c] == TableAt(data, FreqBase(version), BUCKETS + b * n + c))
    && forall c :: n <= c < CLASSES ==> row[c] == NO_TABLE
  }

  method LoadLzp(data: seq<byte>, at: nat, n: nat) returns (t: LzpTable)
    requires n <= LZP_SIZE && at + 2 * n <= |data|
    ensures t == LzpAt(data, at, n)
  {
    var table := new LzpEntry[LZP_SIZE](_ => LzpEntry(0, 0));
    var off := at;
    for h := 0 to n
      invariant off == at + 2 * h
      invariant forall k :: 0 <= k < LZP_SIZE ==>
                  table[k] == if k < h then LzpEntry(data[at + 2 * k], data[at + 2 * k + 1]) else LzpEntry(0, 0)
    {
      table[h] := LzpEntry(data[off], data[off + 1]);
      off := off + 2;
    }
    t := table[..];
  }

  /** netc_dict_load on any byte string. */
  method LoadBlob(crc: Checksum, data: seq<byte>) returns (r: Loaded)
    ensures r == Load(crc, data)
  {
    hide RowAt, FreqFits, TableOf, LzpAt, LeValue;
    if |data| < V3_BLOB_SIZE {
      return Err(DictInvalid);
    }
    if U32(data, 0) != MAGIC {
      return Err(DictInvalid);
    }
    var version := data[4];
    if version < 3 || version > 5 {
      return Err(WrongVersion);
    }
    if data[6] != BUCKETS {
      return Err(WrongVersion);
    }
    var size := BodySize(version, data[7]) + 4;
    if |data| < size {
      return Err(DictInvalid);
    }
    var stored := U32(data, size - 4);
    if stored != crc(data[..size - 4]) {
      return Err(DictInvalid);
    }
    Params10Valid();
    r := LoadContent(data, size);
  }

  method LoadContent(data: seq<byte>, size: nat) returns (r: Loaded)
    requires |data| >= HEAD && |data| >= size == BodySize(data[4], data[7]) + 4 && PARAMS_12.Valid()
    ensures r == Content(data, size)
  {
    hide RowAt, FreqFits, TableOf, LzpAt, LeValue, BigramRowAt;
    var version := data[4];
    var classMap := if version >= 5 then data[HEAD..HEAD + 256] else DefaultClassMap();
    var tables := LoadTables(data, FreqBase(version), 0, BUCKETS);
    if tables.None? {
      return Err(DictInvalid);
    }
    var bigram := LoadBigrams(data, version);
    if bigram.None? {
      return Err(DictInvalid);
    }
    var lzp: Option<LzpTable> := None;
    if HasLzp(data[7]) {
      var at := LzpBase(version);
      var n := U32(data, at);
      if n > LZP_SIZE {
        return Err(DictInvalid);
      }
      var t := LoadLzp(data, at + 4, n);
      lzp := Some(t);
    }
    r := Ok(Dict(version, data[5], data[7], tables.value, bigram.value, classMap, lzp, U32(data, size - 4)));
    assert tables.value == seq(BUCKETS, b requires 0 <= b < BUCKETS => TableAt(data, FreqBase(version), b));
    assert bigram.value == seq(BUCKETS, b requires 0 <= b < BUCKETS => BigramRowAt(data, version, b));
  }

  // ---------------------------------------------------------------- train

  /** netc_dict_train: model identifiers 0 and 255 are reserved.  The dictionary is fit for use by
      both sides of a connection and survives saving and loading. */
  method Train(crc: Checksum, packets: seq<seq<byte>>, modelId: byte) returns (r: Option<Dict>)
    requires |packets| <= PACKET_LIMIT
    ensures r.Some? <==> modelId != 0 && modelId != 255
    ensures r.Some? ==> TrainedFrom(packets, r.value) && r.value.modelId == modelId
    ensures r.Some? ==> DictOk(r.value) && WellFormed(r.value) && r.value.checksum == crc(Body(r.value))
  {
    hide LzpFilter, LzpOf, ClassMap.Classifies, TrainedTable, DictOk, WellFormed, Body;
    if modelId == 0 || modelId == 255 {
      return None;
    }
    var classMap := TrainClassMap(packets);
    ClassesSmall(packets, classMap);
    var tables := TrainSegments(packets);
    var flat := TrainTables(ByBigram(classMap), packets);
    var lzp := TrainLzp(packets);
    // Phase 5 always follows and replaces the tables of the unfiltered packets.
    var filtered := FilterAll(lzp, packets);
    tables := TrainTables(ByBucket, filtered);
    flat := TrainTables(ByBigram(classMap), filtered);
    var bigram := Reshape(flat);
    var d := Dict(5, modelId, 1, tables, bigram, classMap, Some(lzp), 0);
    TrainedOk(packets, d);
    var blob := Save(d);
    var sum := crc(blob[..blob.Length - 4]);
    assert blob[..blob.Length - 4] == Body(d) by { assert blob[..] == Blob(d); }
    TrainedOk(packets, d.(checksum := sum));
    BodyWithoutChecksum(d, sum);
    r := Some(d.(checksum := sum));
  }

  method Reshape(flat: seq<Table>) returns (rows: seq<seq<Table>>)
    requires |flat| == BUCKETS * CLASSES
    ensures |rows| == BUCKETS && forall b :: 0 <= b < BUCKETS ==> |rows[b]| == CLASSES
    ensures forall b, c :: 0 <= b < BUCKETS && 0 <= c < CLASSES ==> rows[b][c] == flat[b * CLASSES + c]
  {
    rows := seq(BUCKETS, b requires 0 <= b < BUCKETS => flat[b * CLASSES..(b + 1) * CLASSES]);
  }

  lemma ClassesSmall(packets: seq<seq<byte>>, classMap: seq<byte>)
    requires ClassMap.Classifies(Peaks(packets), classMap)
    ensures GroupingOk(ByBigram(classMap)) && |classMap| == 256
  {
  }

  /** What training computes from the packets: the LZP table, the class map, and for every bucket
      and class the table of the filtered bytes that fall in it. */
  ghost predicate TrainedFrom(packets: seq<seq<byte>>, d: Dict) {
    && d.version == 5 && d.dictFlags == 1 && d.lzp == Some(LzpOf(packets))
    && ClassMap.Classifies(Peaks(packets), d.classMap)
    && |d.tables| == |d.bigram| == BUCKETS
    && var filtered := Filtered(LzpOf(packets), packets);
       && (forall b :: 0 <= b < BUCKETS ==> d.tables[b] == TrainedTable(ByBucket, filtered, b))
       && (forall b :: 0 <= b < BUCKETS ==> |d.bigram[b]| == CLASSES)
       && forall b, c :: 0 <= b < BUCKETS && 0 <= c < CLASSES ==>
            d.bigram[b][c] == TrainedTable(ByBigram(d.classMap), filtered, b * CLASSES + c)
  }

  /** A trained dictionary is usable and well formed. */
  lemma TrainedOk(packets: seq<seq<byte>>, d: Dict)
    requires TrainedFrom(packets, d)
    ensures DictOk(d) && WellFormed(d)
  {
    hide TrainedTable, LzpOf, FullTable, Filtered;
    ClassesSmall(packets, d.classMap);
    var filtered := Filtered(LzpOf(packets), packets);
    forall b | 0 <= b < BUCKETS
      ensures FullTable(d.tables[b])
    {
      TrainedTableFull(ByBucket, filtered, b);
    }
    forall b, c | 0 <= b < BUCKETS && 0 <= c < CLASSES
      ensures FullTable(d.bigram[b][c])
    {
      TrainedTableFull(ByBigram(d.classMap), filtered, b * CLASSES + c);
    }
    forall r | 0 <= r < RowCount(d.version)
      ensures Built(PARAMS_12, RowTable(d, r))
    {
      if r >= BUCKETS {
        BigramOfRow(d.version, r);
      }
      FullTableBuilt(RowTable(d, r));
    }
  }

  /** Training and coding agree on contexts: at every offset, after every byte, the coder uses the
      normalised counts of the bytes of the filtered packets that followed that byte's class in that
      bucket, and the LZP filter the entry learned from the bytes at that offset after that byte. */
  lemma TrainedInContext(packets: seq<seq<byte>>, d: Dict, filtered: seq<seq<byte>>, prev: byte, i: nat)
    requires TrainedFrom(packets, d) && |filtered| == |packets| && |LzpOf(packets)| == LZP_SIZE
    requires forall p :: 0 <= p < |packets| ==>
               filtered[p] ==
               LzpFilter(LzpOf(packets), if |packets[p]| > 65535 then packets[p][..65535] else packets[p])
    ensures DictOk(d) && GroupingOk(ByBigram(d.classMap)) && |d.bigram[0]| == CLASSES
    ensures && SelectorOk(PARAMS_12, PctxSelector(d, d.tables, true))
            && SelectorOk(PARAMS_12, PctxSelector(d, d.tables, false))
            && Pick(PARAMS_12, PctxSelector(d, d.tables, false), i, prev).freq ==
               Normalize(Histogram(Hits(ByBucket, filtered, |filtered|, GroupOf(ByBucket, prev, i))))
            && Pick(PARAMS_12, PctxSelector(d, d.tables, true), i, prev).freq ==
               Normalize(Histogram(Hits(ByBigram(d.classMap), filtered, |filtered|,
                                        GroupOf(ByBigram(d.classMap), prev, i))))
    ensures |d.lzp.value| == LZP_SIZE
    ensures var e := Learned(SlotHits(packets, GroupOf(BySlot, prev, i)));
            Prediction(d.lzp.value, prev, i) == if e.conf != 0 then e.value else 0
  {
    hide FullTable, Hits, Learned, LzpSlot, Bucket, SelectorOk, DictOk, Normalize, Histogram, LzpFilter, LzpOf, TableOf;
    assert filtered == Filtered(LzpOf(packets), packets);
    TrainedOk(packets, d);
    ClassesSmall(packets, d.classMap);
    TrainedTablesFull(d);
    DictShape(d);
    PctxSelectorOk(d, d.tables, true);
    PctxSelectorOk(d, d.tables, false);
    var b, c := Bucket(i), BigramClass(prev, Some(d.classMap));
    TrainedTableFull(ByBigram(d.classMap), filtered, b * CLASSES + c);
    TrainedTableFull(ByBigram(d.classMap), filtered, 0);
    FullTableBuilt(d.bigram[b][c]);
    FullTableBuilt(d.bigram[0][0]);
    TrainedFreq(ByBucket, filtered, b);
    TrainedFreq(ByBigram(d.classMap), filtered, b * CLASSES + c);
    SlotEntry(packets, GroupOf(BySlot, prev, i));
  }

  lemma TrainedFreq(g: Grouping, packets: seq<seq<byte>>, k: nat)
    requires GroupingOk(g)
    ensures TrainedTable(g, packets, k).freq == Normalize(Histogram(Hits(g, packets, |packets|, k)))
  {
    hide Normalize, Histogram, Hits;
  }

  lemma SlotEntry(packets: seq<seq<byte>>, h: nat)
    requires h < LZP_SIZE
    ensures |LzpOf(packets)| == LZP_SIZE && LzpOf(packets)[h] == Learned(SlotHits(packets, h))
  {
    hide Learned, Hits;
  }

  lemma TrainedTablesFull(d: Dict)
    requires DictOk(d)
    ensures FullTables(d.tables)
  {
  }

  /** Training is a function of the packets: no choice in it shows in the result. */
  lemma TrainingDetermined(packets: seq<seq<byte>>, a: Dict, b: Dict)
    requires TrainedFrom(packets, a) && TrainedFrom(packets, b)
    ensures a.tables == b.tables && a.bigram == b.bigram && a.classMap == b.classMap && a.lzp == b.lzp
  {
    hide ClassMap.Classifies, TrainedTable, LzpOf, Filtered;
    ClassMap.ClassMapUnique(Peaks(packets), a.classMap, b.classMap);
    ClassesSmall(packets, a.classMap);
    assert forall i :: 0 <= i < BUCKETS ==> a.bigram[i] == b.bigram[i];
  }

  lemma {:induction false} RowsWithoutChecksum(d: Dict, sum: nat, n: nat)
    requires WellFormed(d) && WellFormed(d.(checksum := sum)) && n <= RowCount(d.version)
    ensures Rows(d, n) == Rows(d.(checksum := sum), n)
  {
    hide WellFormed, Words;
    if n > 0 {
      RowsWithoutChecksum(d, sum, n - 1);
    }
  }

  lemma BodyWithoutChecksum(d: Dict, sum: nat)
    requires WellFormed(d) && WellFormed(d.(checksum := sum))
    ensures Body(d) == Body(d.(checksum := sum))
  {
    hide WellFormed, Rows, LzpBytes, LeBytes;
    RowsWithoutChecksum(d, sum, RowCount(d.version));
  }
}
