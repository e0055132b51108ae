/**
  The checkpoint file written by `Genetic::save` and read by `Genetic::load`:
  the generation (4 bytes), the number of individuals (4 bytes), then for
  each individual its W weights (8 bytes each) followed by its W connection
  flags (1 byte each). W, the topology size, is not stored: the reader takes
  it from a genome the factory builds.
 */
module Checkpoint {
  import opened Wrappers
  import opened Bytes
  import opened Population

  /** What a checkpoint records: the generation counter and every genome, in order. */
  datatype Snapshot = Snapshot(generation: int32, genomes: seq<Genome>)

  /** All genomes of the snapshot have topology size w. */
  predicate Uniform(s: Snapshot, w: nat) {
    AllHaveSize(s.genomes, w)
  }

  /** Bytes one individual occupies in the file. */
  function BlockSize(w: nat): nat {
    9 * w
  }

  // ----- writing -----

  function WeightBytes(ws: seq<word64>): (bs: seq<byte>)
    ensures |bs| == 8 * |ws|
  {
    if |ws| == 0 then [] else Word64Bytes(ws[0]) + WeightBytes(ws[1..])
  }

  /** A `bool` copied into the byte stream becomes the `char` 1 or 0. */
  function MaskByte(b: bool): byte {
    if b then 1 else 0
  }

  function MaskBytes(ms: seq<bool>): (bs: seq<byte>)
    ensures |bs| == |ms|
    ensures forall i :: 0 <= i < |ms| ==> bs[i] == MaskByte(ms[i])
  {
    seq(|ms|, i requires 0 <= i < |ms| => MaskByte(ms[i]))
  }

  /** One individual's block: its weights, then its connection flags. */
  function GenomeBytes(g: Genome): (bs: seq<byte>)
    ensures |bs| == 8 * |g.weights| + |g.connections|
  {
    WeightBytes(g.weights) + MaskBytes(g.connections)
  }

  function BlockBytes(gs: seq<Genome>): seq<byte> {
    if |gs| == 0 then [] else GenomeBytes(gs[0]) + BlockBytes(gs[1..])
  }

  /** The population size is `individuals.size()` converted to `int`: its low 32 bits. */
  function CountBytes(n: nat): (bs: seq<byte>)
    ensures |bs| == 4
  {
    Pow256Values();
    LittleEndian(n % 0x1_0000_0000, 4)
  }

  /** The bytes `save` writes for a snapshot. */
  function Encode(s: Snapshot): (bs: seq<byte>)
    ensures |bs| >= 8
  {
    Int32Bytes(s.generation) + CountBytes(|s.genomes|) + BlockBytes(s.genomes)
  }

  /**
    The header of a written file reads back as the generation and, when it
    fits an `int`, the population size.
   */
  lemma HeaderReadsBack(s: Snapshot)
    ensures Int32FromBytes(Encode(s)[..4]) == s.generation
    ensures |s.genomes| <= INT32_MAX ==> Int32FromBytes(Encode(s)[4..8]) as int == |s.genomes|
  {
    EncodeHeader(s);
    Int32RoundTrip(s.generation);
    if |s.genomes| <= INT32_MAX {
      CountRoundTrip(|s.genomes|);
    }
  }

  /** A population size that fits an `int` reads back from its four bytes. */
  lemma CountRoundTrip(n: nat)
    requires n <= INT32_MAX
    ensures Int32FromBytes(CountBytes(n)) as int == n
  {
    Pow256Values();
    LittleEndianRoundTrip(n, 4);
  }

  // ----- reading -----

  function DecodeWeights(bs: seq<byte>, w: nat): (ws: seq<word64>)
    requires |bs| == 8 * w
    ensures |ws| == w
  {
    if w == 0 then [] else [Word64FromBytes(bs[..8])] + DecodeWeights(bs[8..], w - 1)
  }

  /**
    `load` reads a flag into a `char` and tests `> 0`. `char` is signed on
    the hosts the program targets, so bytes 1 to 127 read as connected and
    0 and 128 to 255 as not connected.
   */
  function MaskBit(b: byte): bool {
    0 < b < 0x80
  }

  function DecodeMask(bs: seq<byte>): (ms: seq<bool>)
    ensures |ms| == |bs|
    ensures forall i :: 0 <= i < |bs| ==> ms[i] == MaskBit(bs[i])
  {
    seq(|bs|, i requires 0 <= i < |bs| => MaskBit(bs[i]))
  }

  /** One individual rebuilt from its block of 9 * w bytes. */
  function DecodeGenome(bs: seq<byte>, w: nat): (g: Genome)
    requires |bs| == BlockSize(w)
    ensures HasSize(g, w)
  {
    Genome(DecodeWeights(bs[..8 * w], w), DecodeMask(bs[8 * w..]))
  }

  /**
    `count` consecutive blocks from the front of bs; bytes after them are
    not read. None when bs is too short to hold them.
   */
  function DecodeBlocks(bs: seq<byte>, count: nat, w: nat): (r: Option<seq<Genome>>)
    ensures r.Some? <==> count * BlockSize(w) <= |bs|
    ensures r.Some? ==> |r.value| == count
    ensures r.Some? ==> AllHaveSize(r.value, w)
    decreases count
  {
    if count == 0 then Some([])
    else if |bs| < BlockSize(w) then
      assert count * BlockSize(w) >= BlockSize(w) by {
        MulLeftMonotone(1, count, BlockSize(w));
      }
      None
    else
      MulSuccessor(count, BlockSize(w));
      match DecodeBlocks(bs[BlockSize(w)..], count - 1, w)
      case None => None
      case Some(gs) => Some([DecodeGenome(bs[..BlockSize(w)], w)] + gs)
  }

  /**
    The snapshot `load` reads from bs with topology size w. None when the
    header is incomplete, the stored count is negative, or the file is too
    short for the stored count.
   */
  function Decode(bs: seq<byte>, w: nat): (r: Option<Snapshot>)
    ensures r.Some? <==>
              && |bs| >= 8
              && Int32FromBytes(bs[4..8]) >= 0
              && 8 + Int32FromBytes(bs[4..8]) as int * BlockSize(w) <= |bs|
    ensures r.Some? ==> r.value.generation == Int32FromBytes(bs[..4])
    ensures r.Some? ==> |r.value.genomes| == Int32FromBytes(bs[4..8]) as int
    ensures r.Some? ==> Uniform(r.value, w)
  {
    if |bs| < 8 then None
    else
      var count := Int32FromBytes(bs[4..8]);
      if count < 0 then None
      else
        match DecodeBlocks(bs[8..], count as nat, w)
        case None => None
        case Some(gs) => Some(Snapshot(Int32FromBytes(bs[..4]), gs))
  }

  // ----- round trip -----

  lemma MaskRoundTrip(ms: seq<bool>)
    ensures DecodeMask(MaskBytes(ms)) == ms
  {
  }

  lemma {:induction false} WeightsRoundTrip(ws: seq<word64>)
    ensures DecodeWeights(WeightBytes(ws), |ws|) == ws
  {
    if |ws| > 0 {
      var bs := WeightBytes(ws);
      assert bs[..8] == Word64Bytes(ws[0]);
      assert bs[8..] == WeightBytes(ws[1..]);
      Word64RoundTrip(ws[0]);
      WeightsRoundTrip(ws[1..]);
    }
  }

  lemma GenomeRoundTrip(g: Genome, w: nat)
    requires HasSize(g, w)
    ensures DecodeGenome(GenomeBytes(g), w) == g
  {
    var bs := GenomeBytes(g);
    assert bs[..8 * w] == WeightBytes(g.weights);
    assert bs[8 * w..] == MaskBytes(g.connections);
    WeightsRoundTrip(g.weights);
    MaskRoundTrip(g.connections);
  }

  /** The blocks read back as the genomes written, whatever follows them. */
  lemma {:induction false} BlocksRoundTrip(gs: seq<Genome>, w: nat, tail: seq<byte>)
    requires AllHaveSize(gs, w)
    ensures DecodeBlocks(BlockBytes(gs) + tail, |gs|, w) == Some(gs)
  {
    if |gs| > 0 {
      var head := GenomeBytes(gs[0]);
      var rest := BlockBytes(gs[1..]) + tail;
      assert HasSize(gs[0], w);
      assert |head| == BlockSize(w);
      assert BlockBytes(gs) + tail == head + rest;
      SplitConcat(head, rest);
      GenomeRoundTrip(gs[0], w);
      BlocksRoundTrip(gs[1..], w, tail);
      assert DecodeBlocks(head + rest, |gs|, w) == Some([gs[0]] + gs[1..]);
      assert [gs[0]] + gs[1..] == gs;
    }
  }

  lemma SplitConcat<T>(a: seq<T>, b: seq<T>)
    ensures (a + b)[..|a|] == a
    ensures (a + b)[|a|..] == b
  {
  }

  /**
    Loading what `save` wrote restores the generation, the population size,
    every weight bit for bit and every connection flag, provided all genomes
    have the topology size the reader expects and the size fits an `int`.
   */
  lemma RoundTrip(s: Snapshot, w: nat)
    requires Uniform(s, w)
    requires |s.genomes| <= INT32_MAX
    ensures Decode(Encode(s), w) == Some(s)
  {
    var bs := Encode(s);
    HeaderReadsBack(s);
    assert bs[8..] == BlockBytes(s.genomes) + [];
    BlocksRoundTrip(s.genomes, w, []);
  }

  // ----- layout -----

  lemma {:induction false} BlockBytesLength(gs: seq<Genome>, w: nat)
    requires AllHaveSize(gs, w)
    ensures |BlockBytes(gs)| == |gs| * BlockSize(w)
  {
    if |gs| > 0 {
      assert HasSize(gs[0], w);
      BlockBytesLength(gs[1..], w);
      MulSuccessor(|gs|, BlockSize(w));
    }
  }

  /** The file is 8 header bytes plus 9 * W bytes per individual. */
  lemma EncodeLength(s: Snapshot, w: nat)
    requires Uniform(s, w)
    ensures |Encode(s)| == 8 + 9 * w * |s.genomes|
  {
    BlockBytesLength(s.genomes, w);
    assert |s.genomes| * BlockSize(w) == 9 * w * |s.genomes|;
  }

  lemma {:induction false} BlockBytesAppend(a: seq<Genome>, c: seq<Genome>)
    ensures BlockBytes(a + c) == BlockBytes(a) + BlockBytes(c)
  {
    if |a| > 0 {
      assert (a + c)[1..] == a[1..] + c;
      BlockBytesAppend(a[1..], c);
    } else {
      assert a + c == c;
    }
  }

  /** Individual i's block starts i blocks after the blocks' start. */
  lemma BlockAt(gs: seq<Genome>, w: nat, i: nat)
    requires AllHaveSize(gs, w)
    requires i < |gs|
    ensures (i + 1) * BlockSize(w) <= |BlockBytes(gs)|
    ensures BlockBytes(gs)[i * BlockSize(w)..(i + 1) * BlockSize(w)] == GenomeBytes(gs[i])
  {
    var b := BlockSize(w);
    var before, after := gs[..i], gs[i + 1..];
    assert gs == before + [gs[i]] + after;
    BlockBytesAppend(before + [gs[i]], after);
    BlockBytesAppend(before, [gs[i]]);
    assert BlockBytes([gs[i]]) == GenomeBytes(gs[i]);
    BlockBytesLength(before, w);
    BlockBytesLength(gs, w);
    MulSuccessor(i + 1, b);
    MulLeftMonotone(i + 1, |gs|, b);
    var prefix := BlockBytes(before);
    assert |prefix| == i * b;
    assert BlockBytes(gs) == prefix + GenomeBytes(gs[i]) + BlockBytes(after);
  }

  /** Weight j of a weight vector occupies bytes 8j to 8j + 7. */
  lemma {:induction false} WeightAt(ws: seq<word64>, j: nat)
    requires j < |ws|
    ensures WeightBytes(ws)[8 * j..8 * j + 8] == Word64Bytes(ws[j])
  {
    if j > 0 {
      WeightAt(ws[1..], j - 1);
      assert WeightBytes(ws) == Word64Bytes(ws[0]) + WeightBytes(ws[1..]);
      assert WeightBytes(ws)[8 * j..8 * j + 8] == WeightBytes(ws[1..])[8 * (j - 1)..8 * (j - 1) + 8];
    }
  }

  lemma SliceOfSlice<T>(s: seq<T>, lo: nat, hi: nat, a: nat, b: nat)
    requires lo <= hi <= |s| && a <= b <= hi - lo
    ensures s[lo..hi][a..b] == s[lo + a..lo + b]
  {
    var whole, part := s[lo..hi], s[lo..hi][a..b];
    forall k | 0 <= k < |part|
      ensures part[k] == s[lo + a + k]
    {
      assert part[k] == whole[a + k];
    }
  }

  /** Within one block: weight j in bytes 8j to 8j + 7, flag j at byte 8w + j. */
  lemma GenomeLayout(g: Genome, w: nat, j: nat)
    requires HasSize(g, w) && j < w
    ensures GenomeBytes(g)[8 * j..8 * j + 8] == Word64Bytes(g.weights[j])
    ensures GenomeBytes(g)[8 * w + j] == MaskByte(g.connections[j])
  {
    WeightAt(g.weights, j);
    assert GenomeBytes(g)[..8 * w] == WeightBytes(g.weights);
  }

  /** The header: the generation in bytes 0 to 3, the population size in bytes 4 to 7. */
  lemma EncodeHeader(s: Snapshot)
    ensures Encode(s)[..4] == Int32Bytes(s.generation)
    ensures Encode(s)[4..8] == CountBytes(|s.genomes|)
  {
    var header := Int32Bytes(s.generation) + CountBytes(|s.genomes|);
    assert Encode(s) == header + BlockBytes(s.genomes);
    assert header[..4] == Int32Bytes(s.generation);
  }

  /** Individual i's block is the 9 * W bytes that start 8 + 9 * W * i bytes into the file. */
  lemma EncodeBlockAt(s: Snapshot, w: nat, i: nat)
    requires Uniform(s, w)
    requires i < |s.genomes|
    ensures 8 + (i + 1) * BlockSize(w) <= |Encode(s)|
    ensures Encode(s)[8 + i * BlockSize(w)..8 + (i + 1) * BlockSize(w)] == GenomeBytes(s.genomes[i])
  {
    var header := Int32Bytes(s.generation) + CountBytes(|s.genomes|);
    var blocks := BlockBytes(s.genomes);
    assert Encode(s) == header + blocks;
    BlockAt(s.genomes, w, i);
  }

  /** Where a block holding g sits at offset `at` in bs, weight j and flag j sit at their offsets within it. */
  lemma FieldsInBlock(bs: seq<byte>, at: nat, g: Genome, w: nat, j: nat)
    requires HasSize(g, w) && j < w
    requires at + BlockSize(w) <= |bs|
    requires bs[at..at + BlockSize(w)] == GenomeBytes(g)
    ensures bs[at + 8 * j..at + 8 * j + 8] == Word64Bytes(g.weights[j])
    ensures bs[at + 8 * w + j] == MaskByte(g.connections[j])
  {
    var block := bs[at..at + BlockSize(w)];
    GenomeLayout(g, w, j);
    SliceOfSlice(bs, at, at + BlockSize(w), 8 * j, 8 * j + 8);
    assert bs[at + 8 * w + j] == block[8 * w + j];
  }

  /**
    Where `save` puts each field of individual i: weight j and flag j inside
    the i-th block of 9 * W bytes after the header.
   */
  lemma EncodeLayout(s: Snapshot, w: nat, i: nat, j: nat)
    requires Uniform(s, w)
    requires i < |s.genomes| && j < w
    ensures var at := 8 + i * BlockSize(w);
      && at + BlockSize(w) <= |Encode(s)|
      && Encode(s)[at + 8 * j..at + 8 * j + 8] == Word64Bytes(s.genomes[i].weights[j])
      && Encode(s)[at + 8 * w + j] == MaskByte(s.genomes[i].connections[j])
  {
    var b := BlockSize(w);
    var at := 8 + i * b;
    assert HasSize(s.genomes[i], w);
    EncodeBlockAt(s, w, i);
    MulSuccessor(i + 1, b);
    FieldsInBlock(Encode(s), at, s.genomes[i], w, j);
  }
}
