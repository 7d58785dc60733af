/** The row compressor `_compress_tiff` (rasterprynt.py): PackBits run-length
    encoding as described in section 9 ("PackBits Compression") of the TIFF 6.0
    specification, together with the decoder a printer applies to it. */
module PackBits {
  import opened Wrappers
  import opened Bytes

  /** One piece the compressor yields: a literal span copied verbatim, or a run
      of `count + 1` copies of `value`. */
  datatype Chunk = Literal(data: Bytes) | Run(count: nat, value: byte)

  /** The bytes of the row a chunk stands for. */
  function Expand(c: Chunk): Bytes
  {
    match c
    case Literal(d) => d
    case Run(n, v) => Repeat(v, n + 1)
  }

  /** The bytes of the row a chunk sequence stands for. */
  function ExpandAll(cs: seq<Chunk>): Bytes
  {
    if |cs| == 0 then [] else Expand(cs[0]) + ExpandAll(cs[1..])
  }

  /** A chunk whose header fits the signed header byte: a literal of 1..128
      bytes (header 0..127) or a run of 2..128 bytes (header -1..-127). */
  predicate WellFormed(c: Chunk)
  {
    match c
    case Literal(d) => 1 <= |d| <= 128
    case Run(n, _) => 1 <= n <= 127
  }

  predicate AllWellFormed(cs: seq<Chunk>)
  {
    forall i :: 0 <= i < |cs| ==> WellFormed(cs[i])
  }

  /** The bytes of one yielded chunk: `pack('!b', len - 1) + span` for a literal,
      `pack('!bB', -count, value)` for a run. */
  function ChunkBytes(c: Chunk): Bytes
    requires WellFormed(c)
  {
    match c
    case Literal(d) => [SignedByte(|d| - 1)] + d
    case Run(n, v) => [SignedByte(-(n as int)), v]
  }

  /** The concatenation of the yielded chunks. */
  function Serialize(cs: seq<Chunk>): Bytes
    requires AllWellFormed(cs)
  {
    if |cs| == 0 then [] else ChunkBytes(cs[0]) + Serialize(cs[1..])
  }

  /** The PackBits decoder of TIFF 6.0 section 9: a header `n` in 0..127 copies
      the next `n + 1` bytes, a header `n` in -127..-1 repeats the next byte
      `1 - n` times, and -128 is skipped. Truncated input is rejected. */
  function Decode(s: Bytes): Option<Bytes>
    decreases |s|
  {
    if |s| == 0 then Some([])
    else
      var h := Signed(s[0]);
      if h >= 0 then
        if |s| < h + 2 then None
        else
          match Decode(s[h + 2..])
          case None => None
          case Some(t) => Some(s[1..h + 2] + t)
      else if h == -128 then Decode(s[1..])
      else if |s| < 2 then None
      else
        match Decode(s[2..])
        case None => None
        case Some(t) => Some(Repeat(s[1], 1 - h) + t)
  }

  /** The inner loop of `_compress_tiff`: how many bytes after `row[pos]` repeat
      it. The run it measures is maximal. */
  function RunCount(row: Bytes, pos: nat): (count: nat)
    requires pos < |row|
    ensures pos + count < |row|
    decreases |row| - pos
  {
    if pos + 1 < |row| && row[pos + 1] == row[pos] then 1 + RunCount(row, pos + 1) else 0
  }

  /** The run `RunCount` measures is made of copies of `row[pos]` and is
      maximal: it ends at the end of the row or before a different byte. */
  lemma {:induction false} RunCountMaximal(row: Bytes, pos: nat)
    requires pos < |row|
    ensures var count := RunCount(row, pos);
            && (forall k :: pos <= k <= pos + count ==> row[k] == row[pos])
            && (pos + count + 1 == |row| || row[pos + count + 1] != row[pos + count])
    decreases |row| - pos
  {
    if pos + 1 < |row| && row[pos + 1] == row[pos] {
      RunCountMaximal(row, pos + 1);
    }
  }

  /** Flushing the pending literal span `row[start..pos]`, if any. */
  function Flush(row: Bytes, start: nat, pos: nat): seq<Chunk>
    requires start <= pos <= |row|
  {
    if start < pos then [Literal(row[start..pos])] else []
  }

  /** The outer loop of `_compress_tiff` from the state where the pending literal
      span is `row[start..pos]` and `row[pos..]` is still to be scanned. */
  function CompressFrom(row: Bytes, start: nat, pos: nat): seq<Chunk>
    requires start <= pos <= |row|
    decreases |row| - pos
  {
    if pos < |row| then
      var count := RunCount(row, pos);
      if count > 0 then
        Flush(row, start, pos) + [Run(count, row[pos])]
          + CompressFrom(row, pos + count + 1, pos + count + 1)
      else
        CompressFrom(row, start, pos + 1)
    else
      Flush(row, start, pos)
  }

  /** `_compress_tiff(row)` as the sequence of chunks it yields. */
  function CompressTiff(row: Bytes): seq<Chunk>
  {
    CompressFrom(row, 0, 0)
  }

  /** `b''.join(_compress_tiff(row))` for a row that fits the signed headers. */
  function CompressedRow(row: Bytes): (r: Bytes)
    requires |row| <= 128
    ensures Decode(r) == Some(row)
    ensures |r| <= 2 * |row|
  {
    CompressTiffWellFormed(row);
    CompressTiffRoundTrip(row);
    SerializeLength(CompressTiff(row));
    CompressTiffExpands(row);
    Serialize(CompressTiff(row))
  }

  // ---------------------------------------------------------------------------
  // Shape of the chunk sequence

  /** A chunk the compressor can produce: a nonempty literal with no two equal
      neighbours, or a run of at least two bytes. */
  predicate ChunkCanonical(c: Chunk)
  {
    match c
    case Literal(d) => |d| >= 1 && forall k :: 0 <= k < |d| - 1 ==> d[k] != d[k + 1]
    case Run(n, _) => n >= 1
  }

  /** Two consecutive chunks: a literal is always followed by a run, and the
      bytes on either side of the boundary differ (so every run is maximal). */
  predicate Boundary(a: Chunk, b: Chunk)
  {
    && |Expand(a)| > 0 && |Expand(b)| > 0
    && (a.Literal? ==> b.Run?)
    && Expand(a)[|Expand(a)| - 1] != Expand(b)[0]
  }

  /** The shape of every output of the compressor. */
  predicate Canonical(cs: seq<Chunk>)
    decreases |cs|
  {
    |cs| == 0 ||
    (&& ChunkCanonical(cs[0])
     && (|cs| > 1 ==> Boundary(cs[0], cs[1]))
     && Canonical(cs[1..]))
  }

  // ---------------------------------------------------------------------------
  // Lemmas

  lemma {:induction false} ExpandAllAppend(a: seq<Chunk>, b: seq<Chunk>)
    ensures ExpandAll(a + b) == ExpandAll(a) + ExpandAll(b)
    decreases |a|
  {
    if |a| == 0 {
      assert a + b == b;
    } else {
      assert (a + b)[1..] == a[1..] + b;
      ExpandAllAppend(a[1..], b);
    }
  }

  lemma {:induction false} SerializeLength(cs: seq<Chunk>)
    requires AllWellFormed(cs)
    ensures |Serialize(cs)| <= 2 * |ExpandAll(cs)|
    decreases |cs|
  {
    if |cs| > 0 {
      SerializeLength(cs[1..]);
    }
  }

  lemma AllWellFormedAppend(a: seq<Chunk>, b: seq<Chunk>)
    requires AllWellFormed(a) && AllWellFormed(b)
    ensures AllWellFormed(a + b)
  {
    assert forall i :: |a| <= i < |a + b| ==> (a + b)[i] == b[i - |a|];
  }

  /** Each chunk the compressor yields fits its header byte. */
  lemma {:induction false} CompressFromWellFormed(row: Bytes, start: nat, pos: nat)
    requires |row| <= 128
    requires start <= pos <= |row|
    ensures AllWellFormed(CompressFrom(row, start, pos))
    decreases |row| - pos
  {
    if pos < |row| {
      var count := RunCount(row, pos);
      if count > 0 {
        var q := pos + count + 1;
        var f, run, rest := Flush(row, start, pos), Run(count, row[pos]), CompressFrom(row, q, q);
        assert CompressFrom(row, start, pos) == f + [run] + rest;
        CompressFromWellFormed(row, q, q);
        assert AllWellFormed(f);
        assert AllWellFormed([run]);
        AllWellFormedAppend(f, [run]);
        AllWellFormedAppend(f + [run], rest);
      } else {
        assert CompressFrom(row, start, pos) == CompressFrom(row, start, pos + 1);
        CompressFromWellFormed(row, start, pos + 1);
      }
    } else {
      assert CompressFrom(row, start, pos) == Flush(row, start, pos);
    }
  }

  /** Rows of at most 128 bytes never overflow a header: run headers lie in
      -127..-1 and literal headers in 0..127. */
  lemma CompressTiffWellFormed(row: Bytes)
    requires |row| <= 128
    ensures AllWellFormed(CompressTiff(row))
    ensures forall i :: 0 <= i < |CompressTiff(row)| ==>
              var c := CompressTiff(row)[i];
              c.Run? ==> -127 <= Signed(ChunkBytes(c)[0]) <= -1
    ensures forall i :: 0 <= i < |CompressTiff(row)| ==>
              var c := CompressTiff(row)[i];
              c.Literal? ==> Signed(ChunkBytes(c)[0]) == |c.data| - 1
  {
    CompressFromWellFormed(row, 0, 0);
  }

  /** The compressor loses nothing: its chunks spell out the rest of the row. */
  lemma {:induction false} CompressFromExpands(row: Bytes, start: nat, pos: nat)
    requires start <= pos <= |row|
    ensures ExpandAll(CompressFrom(row, start, pos)) == row[start..]
    decreases |row| - pos
  {
    if pos < |row| {
      var count := RunCount(row, pos);
      if count > 0 {
        var q := pos + count + 1;
        CompressFromExpands(row, q, q);
        RunStepExpands(row, start, pos);
      } else {
        assert CompressFrom(row, start, pos) == CompressFrom(row, start, pos + 1);
        CompressFromExpands(row, start, pos + 1);
      }
    } else {
      assert CompressFrom(row, start, pos) == Flush(row, start, pos);
      assert ExpandAll(Flush(row, start, pos)) == row[start..pos];
    }
  }

  /** One step of the outer loop that finds a run: flushing the pending span and
      emitting the run spell out the row up to the end of the run. */
  lemma {:induction false} RunStepExpands(row: Bytes, start: nat, pos: nat)
    requires start <= pos < |row| && RunCount(row, pos) > 0
    requires var q := pos + RunCount(row, pos) + 1;
             ExpandAll(CompressFrom(row, q, q)) == row[q..]
    ensures ExpandAll(CompressFrom(row, start, pos)) == row[start..]
  {
    var count := RunCount(row, pos);
    var q := pos + count + 1;
    var head, rest := Flush(row, start, pos) + [Run(count, row[pos])], CompressFrom(row, q, q);
    calc {
      ExpandAll(CompressFrom(row, start, pos));
      { CompressFromRunStep(row, start, pos); }
      ExpandAll(head + rest);
      { FlushRunExpands(row, start, pos); SpellsSplit(head, rest, row, start, q); }
      row[start..];
    }
  }

  lemma SpellsSplit(head: seq<Chunk>, rest: seq<Chunk>, row: Bytes, start: nat, q: nat)
    requires start <= q <= |row|
    requires ExpandAll(head) == row[start..q] && ExpandAll(rest) == row[q..]
    ensures ExpandAll(head + rest) == row[start..]
  {
    ExpandAllAppend(head, rest);
    SliceSplit(row, start, q);
  }

  lemma SliceSplit(row: Bytes, start: nat, q: nat)
    requires start <= q <= |row|
    ensures row[start..] == row[start..q] + row[q..]
  {
  }

  /** The outer loop's step when a run starts at `pos`. */
  lemma CompressFromRunStep(row: Bytes, start: nat, pos: nat)
    requires start <= pos < |row| && RunCount(row, pos) > 0
    ensures var count := RunCount(row, pos);
            var q := pos + count + 1;
            CompressFrom(row, start, pos) == (Flush(row, start, pos) + [Run(count, row[pos])]) + CompressFrom(row, q, q)
  {
  }

  /** A run chunk spells out the bytes the inner loop counted. */
  lemma {:induction false} RunChunkExpands(row: Bytes, pos: nat)
    requires pos < |row|
    ensures var count := RunCount(row, pos);
            Expand(Run(count, row[pos])) == row[pos..pos + count + 1]
  {
    var count := RunCount(row, pos);
    RunCountMaximal(row, pos);
    var r := Repeat(row[pos], count + 1);
    var s := row[pos..pos + count + 1];
    assert |r| == |s|;
    forall i | 0 <= i < |r|
      ensures r[i] == s[i]
    {
      assert s[i] == row[pos + i];
    }
  }

  /** The pending span and the run found after it spell out the row up to the
      end of that run. */
  lemma {:induction false} FlushRunExpands(row: Bytes, start: nat, pos: nat)
    requires start <= pos < |row| && RunCount(row, pos) > 0
    ensures var count := RunCount(row, pos);
            ExpandAll(Flush(row, start, pos) + [Run(count, row[pos])]) == row[start..pos + count + 1]
  {
    var count := RunCount(row, pos);
    var q := pos + count + 1;
    var run := Run(count, row[pos]);
    RunChunkExpands(row, pos);
    assert ExpandAll([run]) == Expand(run) + ExpandAll([]);
    if start < pos {
      var lit := Literal(row[start..pos]);
      assert Flush(row, start, pos) + [run] == [lit, run];
      assert ExpandAll([lit, run]) == row[start..pos] + ExpandAll([run]);
      assert row[start..q] == row[start..pos] + row[pos..q];
    } else {
      assert Flush(row, start, pos) + [run] == [run];
    }
  }

  lemma CompressTiffExpands(row: Bytes)
    ensures ExpandAll(CompressTiff(row)) == row
  {
    CompressFromExpands(row, 0, 0);
  }

  /** Decoding the bytes of one chunk followed by anything decodes the rest. */
  lemma DecodeChunk(c: Chunk, rest: Bytes)
    requires WellFormed(c)
    ensures Decode(ChunkBytes(c) + rest) ==
            match Decode(rest)
            case None => None
            case Some(t) => Some(Expand(c) + t)
  {
    var s := ChunkBytes(c) + rest;
    match c
    case Literal(d) =>
      var h := |d| - 1;
      assert Signed(s[0]) == h;
      assert s[1..h + 2] == d;
      assert s[h + 2..] == rest;
    case Run(n, v) =>
      assert Signed(s[0]) == -(n as int);
      assert s[1] == v;
      assert s[2..] == rest;
  }

  /** The decoder undoes serialization of any well-formed chunk sequence. */
  lemma {:induction false} DecodeSerialize(cs: seq<Chunk>)
    requires AllWellFormed(cs)
    ensures Decode(Serialize(cs)) == Some(ExpandAll(cs))
    decreases |cs|
  {
    if |cs| > 0 {
      DecodeSerialize(cs[1..]);
      DecodeChunk(cs[0], Serialize(cs[1..]));
    }
  }

  /** The main theorem: PackBits-decoding the compressed row gives the row back. */
  lemma CompressTiffRoundTrip(row: Bytes)
    requires |row| <= 128
    ensures AllWellFormed(CompressTiff(row))
    ensures Decode(Serialize(CompressTiff(row))) == Some(row)
  {
    CompressTiffWellFormed(row);
    DecodeSerialize(CompressTiff(row));
    CompressTiffExpands(row);
  }

  lemma {:induction false} CanonicalAppend(a: seq<Chunk>, b: seq<Chunk>)
    requires Canonical(a) && Canonical(b)
    requires |a| > 0 && |b| > 0 ==> Boundary(a[|a| - 1], b[0])
    ensures Canonical(a + b)
    decreases |a|
  {
    if |a| == 0 {
      assert a + b == b;
    } else {
      var ab := a + b;
      assert Canonical(ab[1..]) by {
        assert ab[1..] == a[1..] + b;
        CanonicalAppend(a[1..], b);
      }
      assert ChunkCanonical(ab[0]) by {
        assert ab[0] == a[0];
      }
      assert |ab| > 1 ==> Boundary(ab[0], ab[1]) by {
        if |a| > 1 {
          assert ab[0] == a[0] && ab[1] == a[1];
        } else if |b| > 0 {
          assert ab[0] == a[|a| - 1] && ab[1] == b[0];
        }
      }
    }
  }

  /** The compressor's output is canonical when the pending span holds only
      positions that start no run. */
  lemma {:induction false} CompressFromCanonical(row: Bytes, start: nat, pos: nat)
    requires start <= pos <= |row|
    requires forall k :: start <= k < pos ==> k + 1 == |row| || row[k + 1] != row[k]
    ensures Canonical(CompressFrom(row, start, pos))
    decreases |row| - pos
  {
    if pos < |row| {
      var count := RunCount(row, pos);
      RunCountMaximal(row, pos);
      var q := pos + count + 1;
      if count > 0 {
        CompressFromCanonical(row, q, q);
        RunStepCanonical(row, start, pos);
      } else {
        assert CompressFrom(row, start, pos) == CompressFrom(row, start, pos + 1);
        CompressFromCanonical(row, start, pos + 1);
      }
    } else if start < pos {
      assert CompressFrom(row, start, pos) == [Literal(row[start..pos])];
      assert ChunkCanonical(Literal(row[start..pos]));
    }
  }

  /** The outer loop's step when a run starts at `pos` keeps the output canonical. */
  lemma {:induction false} RunStepCanonical(row: Bytes, start: nat, pos: nat)
    requires start <= pos < |row| && RunCount(row, pos) > 0
    requires forall k :: start <= k < pos ==> k + 1 == |row| || row[k + 1] != row[k]
    requires var q := pos + RunCount(row, pos) + 1;
             Canonical(CompressFrom(row, q, q))
    ensures Canonical(CompressFrom(row, start, pos))
  {
    var count := RunCount(row, pos);
    var q := pos + count + 1;
    var run := Run(count, row[pos]);
    var head, rest := Flush(row, start, pos) + [run], CompressFrom(row, q, q);
    CompressFromRunStep(row, start, pos);
    FlushRunCanonical(row, start, pos);
    if |rest| > 0 {
      RunCountMaximal(row, pos);
      CompressFromExpands(row, q, q);
      ExpandAllFirst(rest);
      assert Boundary(run, rest[0]);
    }
    CanonicalAppend(head, rest);
  }

  /** The pending span and the run after it form a canonical sequence ending in
      that run. */
  lemma FlushRunCanonical(row: Bytes, start: nat, pos: nat)
    requires start <= pos < |row| && RunCount(row, pos) > 0
    requires forall k :: start <= k < pos ==> k + 1 == |row| || row[k + 1] != row[k]
    ensures var run := Run(RunCount(row, pos), row[pos]);
            var head := Flush(row, start, pos) + [run];
            Canonical(head) && head[|head| - 1] == run
  {
    var run := Run(RunCount(row, pos), row[pos]);
    assert Canonical([run]);
    if start < pos {
      var lit := Literal(row[start..pos]);
      assert ChunkCanonical(lit);
      assert Boundary(lit, run);
      assert Flush(row, start, pos) + [run] == [lit, run];
    } else {
      assert Flush(row, start, pos) + [run] == [run];
    }
  }

  lemma ExpandAllFirst(cs: seq<Chunk>)
    requires |cs| > 0 && |Expand(cs[0])| > 0
    ensures |ExpandAll(cs)| > 0 && ExpandAll(cs)[0] == Expand(cs[0])[0]
  {
    assert ExpandAll(cs) == Expand(cs[0]) + ExpandAll(cs[1..]);
  }

  /** Chunk shape: literals are nonempty and hold no two equal neighbours, runs
      cover at least two bytes, every literal is followed by a run, and the
      bytes either side of each chunk boundary differ, so runs are maximal. */
  lemma CompressTiffCanonical(row: Bytes)
    ensures Canonical(CompressTiff(row))
  {
    CompressFromCanonical(row, 0, 0);
  }

  lemma {:induction false} CanonicalExpandsNonempty(cs: seq<Chunk>)
    requires Canonical(cs)
    ensures |cs| > 0 <==> |ExpandAll(cs)| > 0
  {
  }

  /** Whether the byte at `k` repeats in the byte after it. */
  predicate RepeatsAt(d: Bytes, k: int)
  {
    0 <= k && k + 1 < |d| && d[k] == d[k + 1]
  }

  /** What a canonical sequence's first chunk says about the row it spells. */
  lemma FirstChunkFacts(a: seq<Chunk>)
    requires Canonical(a) && |a| > 0
    ensures var d := ExpandAll(a); var m := |Expand(a[0])|;
            && 1 <= m <= |d|
            && d[..m] == Expand(a[0])
            && (m == |d| <==> |a| == 1)
            && (m < |d| ==> !RepeatsAt(d, m - 1))
            && (a[0].Literal? && m < |d| ==> RepeatsAt(d, m))
            && (a[0].Literal? ==> forall k :: 0 <= k < m - 1 ==> !RepeatsAt(d, k))
            && (a[0].Run? ==> m >= 2 && forall k :: 0 <= k < m - 1 ==> RepeatsAt(d, k))
  {
    var d := ExpandAll(a);
    var m := |Expand(a[0])|;
    assert d == Expand(a[0]) + ExpandAll(a[1..]);
    CanonicalExpandsNonempty(a[1..]);
    if |a| > 1 {
      var tail := ExpandAll(a[1..]);
      assert tail == Expand(a[1]) + ExpandAll(a[2..]);
      assert d[m] == Expand(a[1])[0];
      if a[0].Literal? {
        assert a[1].Run?;
        assert |Expand(a[1])| >= 2;
        assert d[m + 1] == Expand(a[1])[1];
      }
    }
  }

  /** The first chunk of one canonical spelling of a row is never shorter than,
      nor a literal where the other has, a run. */
  lemma FirstChunkOrder(a: seq<Chunk>, b: seq<Chunk>)
    requires Canonical(a) && Canonical(b) && |a| > 0 && |b| > 0
    requires ExpandAll(a) == ExpandAll(b)
    ensures |Expand(a[0])| >= |Expand(b[0])|
    ensures a[0].Run? ==> b[0].Run?
  {
    var d := ExpandAll(a);
    var ma := |Expand(a[0])|;
    var mb := |Expand(b[0])|;
    FirstChunkFacts(a);
    FirstChunkFacts(b);
    var runA, runB := a[0].Run?, b[0].Run?;
    // Each impossible case meets two contradicting facts about one position.
    assert runA && !runB ==> RepeatsAt(d, 0);
    assert ma < mb && runA ==> RepeatsAt(d, ma - 1);
    assert ma < mb && !runA && runB ==> RepeatsAt(d, 0);
    assert ma < mb && !runA && !runB ==> RepeatsAt(d, ma);
  }

  /** A row has exactly one canonical spelling. */
  lemma {:induction false} CanonicalUnique(a: seq<Chunk>, b: seq<Chunk>)
    requires Canonical(a) && Canonical(b)
    requires ExpandAll(a) == ExpandAll(b)
    ensures a == b
    decreases |a|
  {
    CanonicalExpandsNonempty(a);
    CanonicalExpandsNonempty(b);
    if |a| > 0 {
      var d := ExpandAll(a);
      FirstChunkOrder(a, b);
      FirstChunkOrder(b, a);
      FirstChunkFacts(a);
      FirstChunkFacts(b);
      var m := |Expand(a[0])|;
      assert Expand(a[0]) == d[..m] == Expand(b[0]);
      if a[0].Run? {
        assert a[0].value == d[0] == b[0].value;
      }
      assert a[0] == b[0];
      assert d == Expand(a[0]) + ExpandAll(a[1..]);
      assert d == Expand(b[0]) + ExpandAll(b[1..]);
      assert ExpandAll(a[1..]) == d[m..] == ExpandAll(b[1..]);
      CanonicalUnique(a[1..], b[1..]);
      assert a == [a[0]] + a[1..];
      assert b == [b[0]] + b[1..];
    }
  }

  /** The compressor's output is the one canonical spelling of the row: any
      chunking with the shape properties that spells `row` is what it yields. */
  lemma CompressTiffIsTheCanonicalSpelling(row: Bytes, cs: seq<Chunk>)
    requires Canonical(cs) && ExpandAll(cs) == row
    ensures CompressTiff(row) == cs
  {
    CompressTiffCanonical(row);
    CompressTiffExpands(row);
    CanonicalUnique(CompressTiff(row), cs);
  }

  /** `_empty_row`'s sanity check: `n` zero bytes compress to the single chunk
      `pack('!bB', 1 - n, 0)`. */
  lemma ZeroRowCompression(n: nat)
    requires 1 <= n <= 128
    ensures AllWellFormed(CompressTiff(Zeros(n)))
    ensures Serialize(CompressTiff(Zeros(n))) == [SignedByte(1 - n), 0]
  {
    var row := Zeros(n);
    var count := RunCount(row, 0);
    RunCountMaximal(row, 0);
    assert count == n - 1;
    if n == 1 {
      assert CompressTiff(row) == CompressFrom(row, 0, 1) == [Literal(row[0..1])];
    } else {
      assert CompressFrom(row, n, n) == [];
      assert CompressTiff(row) == [Run(n - 1, 0)];
    }
  }

  /** Past 128 bytes the round trip can break: 129 equal bytes form one run
      of count 128, outside `WellFormed`. `pack('!bB', -128, 0)` still accepts
      it, but -128 is the header PackBits decoders skip, so those two bytes do
      not decode back to the row. */
  lemma LongRunBreaksRoundTrip()
    ensures CompressTiff(Zeros(129)) == [Run(128, 0)]
    ensures !AllWellFormed(CompressTiff(Zeros(129)))
    ensures Decode([SignedByte(-128), 0]) != Some(Zeros(129))
  {
    var row := Zeros(129);
    RunCountMaximal(row, 0);
    assert RunCount(row, 0) == 128;
    assert CompressFrom(row, 129, 129) == [];
    assert CompressTiff(row) == [Run(128, 0)];
    assert !WellFormed(CompressTiff(row)[0]);
  }
}
