/** The word disassembler of `generateCode`: for each parameter, one chunk per
    word whose window meets the parameter's bit range; a chunk shifts the
    word right, masks the overlap and shifts it to its place in the
    parameter's code, and the chunks are ORed together. */
module Disassembler {
  import opened Bits
  import opened Planner

  /** `((encoded[word] >> rshift) & mask) << lshift`; a zero shift is not emitted. */
  datatype Chunk = Chunk(word: nat, rshift: nat, mask: nat, lshift: nat)

  /** `decoded.<param> = ... (chunk0 | chunk1 | ...) ...;` for parameter number `param`. */
  datatype DecodeLine = DecodeLine(param: nat, chunks: seq<Chunk>)

  /** `Math.max(i * width, from)`: where the overlap of the offset with word `i` starts. */
  function OverlapFrom(o: Offset, width: nat, i: nat): nat
  {
    if i * width > o.from then i * width else o.from
  }

  /** `Math.min((i + 1) * width, to)`: where the overlap of the offset with word `i` ends. */
  function OverlapTo(o: Offset, width: nat, i: nat): nat
  {
    if (i + 1) * width < o.to then (i + 1) * width else o.to
  }

  /** The chunks read for offset `o` from words `0 .. m - 1`. */
  function ParamChunks(o: Offset, width: nat, m: nat): seq<Chunk>
  {
    if m == 0 then []
    else
      var i := m - 1;
      var prev := ParamChunks(o, width, i);
      var overlapFrom, overlapTo := OverlapFrom(o, width, i), OverlapTo(o, width, i);
      var startBitIndex := i * width - o.from;
      if overlapFrom >= overlapTo then prev
      else
        prev + [Chunk(i, overlapFrom - i * width, Mask(overlapTo - overlapFrom),
                      if startBitIndex > 0 then startBitIndex else 0)]
  }

  /** One decoding line per offset, in layout order, reading words `0 .. n - 1`. */
  function DecodeLines(offs: seq<Offset>, width: nat, n: nat): seq<DecodeLine>
  {
    seq(|offs|, j requires 0 <= j < |offs| => DecodeLine(j, ParamChunks(offs[j], width, n)))
  }

  /** Lines 66-100 of `generateCode` without the floating-point scaling: for
      each offset, a loop over all words that keeps a chunk for each word
      whose window meets the offset. */
  method DisassembleOps(offsets: seq<Offset>, outputBitLength: nat, outputCount: nat)
    returns (decodingLines: seq<DecodeLine>)
    ensures decodingLines == DecodeLines(offsets, outputBitLength, outputCount)
  {
    decodingLines := [];
    for j := 0 to |offsets|
      invariant decodingLines == DecodeLines(offsets[..j], outputBitLength, outputCount)
    {
      var offset := offsets[j];
      var parts: seq<Chunk> := [];
      for i := 0 to outputCount
        invariant parts == ParamChunks(offset, outputBitLength, i)
      {
        var overlapFrom := if i * outputBitLength > offset.from then i * outputBitLength else offset.from;
        var overlapTo := if (i + 1) * outputBitLength < offset.to then (i + 1) * outputBitLength else offset.to;
        var startBitIndex := i * outputBitLength - offset.from;
        if overlapFrom >= overlapTo {
          continue;
        }
        var shiftAmount := overlapFrom - i * outputBitLength;
        var length := overlapTo - overlapFrom;
        var bitmask := Pow2(length) - 1;
        parts := parts + [Chunk(i, shiftAmount, bitmask, if startBitIndex > 0 then startBitIndex else 0)];
      }
      assert offsets[..j + 1][..j] == offsets[..j];
      decodingLines := decodingLines + [DecodeLine(j, parts)];
    }
    assert offsets[..|offsets|] == offsets;
  }

  // ---------------------------------------------------------------------------
  // Shape of the chunks

  /** How many of the offset's bits lie in words `0 .. m - 1`. */
  function Covered(o: Offset, width: nat, m: nat): nat
  {
    if m * width <= o.from || o.to <= o.from then 0
    else if m * width >= o.to then o.to - o.from
    else m * width - o.from
  }

  /** Bits of the offset that lie in word `i` (zero when the windows do not meet). */
  function OverlapLength(o: Offset, width: nat, i: nat): nat
  {
    if OverlapFrom(o, width, i) < OverlapTo(o, width, i) then OverlapTo(o, width, i) - OverlapFrom(o, width, i) else 0
  }

  /** Sum of the overlaps of the offset with words `0 .. m - 1`. */
  function OverlapSum(o: Offset, width: nat, m: nat): nat
  {
    if m == 0 then 0 else OverlapSum(o, width, m - 1) + OverlapLength(o, width, m - 1)
  }

  /** The per-word overlaps partition the offset: those with words before `m`
      add up to the offset's bits before word `m`, and so, once the words
      reach its end, to its whole length. */
  lemma {:induction false} OverlapsPartition(o: Offset, width: nat, m: nat)
    requires width >= 1 && o.from <= o.to
    ensures OverlapSum(o, width, m) == Covered(o, width, m)
    ensures m * width >= o.to ==> OverlapSum(o, width, m) == o.to - o.from
  {
    if m > 0 {
      OverlapsPartition(o, width, m - 1);
      assert m * width == (m - 1) * width + width;
    }
  }

  /** Chunk `t` reads `len` bits from its word, `1 <= len <= width`, that do
      not pass the word's end; its mask is `2^len - 1`; its left shift is the
      number of the offset's bits in earlier words; and the chunks read
      distinct words in ascending order (`ChunksTile` adds that no word is
      skipped). */
  lemma {:induction false} ChunkGeometry(o: Offset, width: nat, m: nat)
    requires width >= 1 && o.from <= o.to
    ensures forall t :: 0 <= t < |ParamChunks(o, width, m)| ==>
      ChunkFits(ParamChunks(o, width, m)[t], o, width) && ParamChunks(o, width, m)[t].word < m
    ensures forall s, t :: 0 <= s < t < |ParamChunks(o, width, m)| ==>
      ParamChunks(o, width, m)[s].word < ParamChunks(o, width, m)[t].word
  {
    if m > 0 {
      ChunkGeometry(o, width, m - 1);
      var prev, chunks := ParamChunks(o, width, m - 1), ParamChunks(o, width, m);
      assert forall t :: 0 <= t < |prev| ==> chunks[t] == prev[t];
      if |chunks| > |prev| {
        var i := m - 1;
        assert (i + 1) * width == i * width + width;
        assert ChunkFits(chunks[|prev|], o, width);
      }
    }
  }

  /** What `ChunkGeometry` states of one chunk. */
  predicate ChunkFits(c: Chunk, o: Offset, width: nat)
  {
    var len := OverlapLength(o, width, c.word);
    && 1 <= len <= width
    && c.rshift == OverlapFrom(o, width, c.word) - c.word * width
    && c.rshift + len <= width
    && c.mask == Mask(len)
    && c.lshift == Covered(o, width, c.word)
    && Covered(o, width, c.word + 1) == c.lshift + len
  }

  /** Each chunk lands right after the one before it. */
  predicate Adjacent(o: Offset, width: nat, chunks: seq<Chunk>)
  {
    forall t :: 0 < t < |chunks| ==>
      chunks[t].lshift == chunks[t - 1].lshift + OverlapLength(o, width, chunks[t - 1].word)
  }

  /** A chunk landing right after the last one keeps the chunks adjacent. */
  lemma AdjacentAppend(o: Offset, width: nat, prev: seq<Chunk>, c: Chunk)
    requires Adjacent(o, width, prev)
    requires |prev| > 0 ==> c.lshift == prev[|prev| - 1].lshift + OverlapLength(o, width, prev[|prev| - 1].word)
    ensures Adjacent(o, width, prev + [c])
  {
    var chunks := prev + [c];
    forall t | 0 < t < |chunks|
      ensures chunks[t].lshift == chunks[t - 1].lshift + OverlapLength(o, width, chunks[t - 1].word)
    {
      assert chunks[t - 1] == prev[t - 1];
      if t < |prev| {
        assert chunks[t] == prev[t];
      }
    }
  }

  /** The chunks read from words `0 .. m - 1` tile the offset's bits in those
      words: there is one as soon as a word past `from` is read, the first
      lands at bit 0, each later one right after the one before it, and the
      last ends where the bits read so far end. */
  predicate TiledUpTo(o: Offset, width: nat, m: nat)
  {
    var chunks := ParamChunks(o, width, m);
    && (m * width > o.from && o.from < o.to ==> |chunks| > 0)
    && (|chunks| > 0 ==> chunks[0].lshift == 0)
    && Adjacent(o, width, chunks)
    && (|chunks| > 0 ==> o.from < o.to)
    && (|chunks| > 0 ==> chunks[|chunks| - 1].lshift + OverlapLength(o, width, chunks[|chunks| - 1].word) == Covered(o, width, m))
    && (|chunks| == 0 ==> Covered(o, width, m) == 0)
  }

  /** Reading one more word keeps the chunks tiled. */
  lemma TiledStep(o: Offset, width: nat, i: nat)
    requires width >= 1 && o.from <= o.to
    requires TiledUpTo(o, width, i)
    ensures TiledUpTo(o, width, i + 1)
  {
    var prev := ParamChunks(o, width, i);
    var base := i * width;
    assert (i + 1) * width == base + width;
    if OverlapFrom(o, width, i) < OverlapTo(o, width, i) {
      var c := LastChunk(o, width, i);
      AdjacentAppend(o, width, prev, c);
      assert ParamChunks(o, width, i + 1)[0] == (prev + [c])[0];
    } else {
      NoChunk(o, width, i);
    }
  }

  /** By induction on the words read, the chunks stay tiled. */
  lemma {:induction false} TiledInduct(o: Offset, width: nat, m: nat)
    requires width >= 1 && o.from <= o.to
    ensures TiledUpTo(o, width, m)
  {
    if m > 0 {
      TiledInduct(o, width, m - 1);
      TiledStep(o, width, m - 1);
    }
  }

  /** The chunks tile the offset's bits without gaps: once a word past `from`
      is read there is a chunk, the first lands at bit 0, each later one lands
      right after the one before it, and once the words reach `to` the last
      one ends at the parameter's length. */
  lemma ChunksTile(o: Offset, width: nat, m: nat)
    requires width >= 1 && o.from <= o.to
    ensures m * width > o.from && o.from < o.to ==> |ParamChunks(o, width, m)| > 0
    ensures |ParamChunks(o, width, m)| > 0 ==> ParamChunks(o, width, m)[0].lshift == 0
    ensures forall t :: 0 < t < |ParamChunks(o, width, m)| ==>
      ParamChunks(o, width, m)[t].lshift
      == ParamChunks(o, width, m)[t - 1].lshift + OverlapLength(o, width, ParamChunks(o, width, m)[t - 1].word)
    ensures |ParamChunks(o, width, m)| > 0 && m * width >= o.to ==>
      ParamChunks(o, width, m)[|ParamChunks(o, width, m)| - 1].lshift
      + OverlapLength(o, width, ParamChunks(o, width, m)[|ParamChunks(o, width, m)| - 1].word)
      == o.to - o.from
  {
    TiledInduct(o, width, m);
    assert Adjacent(o, width, ParamChunks(o, width, m));
  }

  // ---------------------------------------------------------------------------
  // What the emitted decoder computes

  /** One chunk evaluated on the received words. */
  function ChunkValue(c: Chunk, words: seq<nat>): nat
  {
    if c.word < |words| then Shl(BitAnd(Shr(words[c.word], c.rshift), c.mask), c.lshift) else 0
  }

  /** The OR of the chunks, in order. */
  function DecodeValue(chunks: seq<Chunk>, words: seq<nat>): nat
  {
    if chunks == [] then 0
    else BitOr(DecodeValue(chunks[..|chunks| - 1], words), ChunkValue(chunks[|chunks| - 1], words))
  }

  /** Each decoding line evaluated on the received words, in line order. */
  function Decode(lines: seq<DecodeLine>, words: seq<nat>): seq<nat>
  {
    seq(|lines|, j requires 0 <= j < |lines| => DecodeValue(lines[j].chunks, words))
  }

  /** The sum of the chunk values. */
  function ChunkSum(chunks: seq<Chunk>, words: seq<nat>): nat
  {
    if chunks == [] then 0 else ChunkSum(chunks[..|chunks| - 1], words) + ChunkValue(chunks[|chunks| - 1], words)
  }

  /** Whatever the words hold, the chunks of one offset are bit-disjoint: each
      lands above the bits of the chunks before it, so their OR is their sum
      and the order of the ORs does not matter; the result has no bit beyond
      the offset's bits read so far. */
  lemma {:induction false} DecodeIsSum(o: Offset, width: nat, m: nat, words: seq<nat>)
    requires width >= 1 && o.from <= o.to && o.to - o.from <= UintBits
    ensures DecodeValue(ParamChunks(o, width, m), words) == ChunkSum(ParamChunks(o, width, m), words)
    ensures DecodeValue(ParamChunks(o, width, m), words) < Pow2(Covered(o, width, m))
  {
    if m > 0 {
      DecodeIsSum(o, width, m - 1, words);
      DecodeSumStep(o, width, m - 1, words);
    }
  }

  lemma DecodeSumStep(o: Offset, width: nat, i: nat, words: seq<nat>)
    requires width >= 1 && o.from <= o.to && o.to - o.from <= UintBits
    requires DecodeValue(ParamChunks(o, width, i), words) == ChunkSum(ParamChunks(o, width, i), words)
    requires DecodeValue(ParamChunks(o, width, i), words) < Pow2(Covered(o, width, i))
    ensures DecodeValue(ParamChunks(o, width, i + 1), words) == ChunkSum(ParamChunks(o, width, i + 1), words)
    ensures DecodeValue(ParamChunks(o, width, i + 1), words) < Pow2(Covered(o, width, i + 1))
  {
    var prev := ParamChunks(o, width, i);
    if OverlapFrom(o, width, i) < OverlapTo(o, width, i) {
      var c := LastChunk(o, width, i);
      DecodeAppend(prev, c, words);
      var cov, len := Covered(o, width, i), OverlapLength(o, width, i);
      assert cov + len <= UintBits;
      ChunkBits(c, cov, len, words);
      BitOrDisjoint(DecodeValue(prev, words), ChunkValue(c, words), cov);
      DisjointSumBound(DecodeValue(prev, words), ChunkValue(c, words), cov, cov + len);
    } else {
      NoChunk(o, width, i);
    }
  }

  /** Appending a chunk ORs (and adds) its value. */
  lemma DecodeAppend(prev: seq<Chunk>, c: Chunk, words: seq<nat>)
    ensures DecodeValue(prev + [c], words) == BitOr(DecodeValue(prev, words), ChunkValue(c, words))
    ensures ChunkSum(prev + [c], words) == ChunkSum(prev, words) + ChunkValue(c, words)
  {
    assert (prev + [c])[..|prev|] == prev;
  }

  /** A chunk of `len` bits landing at `cov` occupies bits `cov .. cov + len - 1` only. */
  lemma ChunkBits(c: Chunk, cov: nat, len: nat, words: seq<nat>)
    requires c.mask == Mask(len) && c.lshift == cov && cov + len <= UintBits
    ensures ChunkValue(c, words) < Pow2(cov + len) && MultipleOfPow2(ChunkValue(c, words), cov)
  {
    if c.word < |words| {
      var x := Shr(words[c.word], c.rshift);
      BitAndMask(x, len);
      ShlNoWrap(x % Pow2(len), cov, len);
      MultipleOfPow2Times(x % Pow2(len), cov);
    } else {
      Pow2Monotone(0, cov + len);
    }
  }

  /** Each word `i < m` that meets the offset holds, at the offset's overlap
      with its window, the matching bits of `code`. */
  predicate WordsCarry(o: Offset, code: nat, width: nat, m: nat, words: seq<nat>)
  {
    forall i :: 0 <= i < m && OverlapFrom(o, width, i) < OverlapTo(o, width, i) ==>
      && i < |words|
      && Shr(words[i], OverlapFrom(o, width, i) - i * width) % Pow2(OverlapLength(o, width, i))
         == Shr(code, Covered(o, width, i)) % Pow2(OverlapLength(o, width, i))
  }

  /** Words that carry the code's bits up to word `m` carry them up to any earlier word. */
  lemma WordsCarryPrefix(o: Offset, code: nat, width: nat, k: nat, m: nat, words: seq<nat>)
    requires k <= m && WordsCarry(o, code, width, m, words)
    ensures WordsCarry(o, code, width, k, words)
  {
  }

  /** Reading words `0 .. m - 1` that carry `code` rebuilds the code's bits
      that lie in those words; the chunks are bit-disjoint, so each OR is an
      addition. */
  lemma {:induction false} DecodeParam(o: Offset, code: nat, width: nat, m: nat, words: seq<nat>)
    requires width >= 1 && o.from <= o.to && o.to - o.from <= UintBits
    requires WordsCarry(o, code, width, m, words)
    ensures DecodeValue(ParamChunks(o, width, m), words) == code % Pow2(Covered(o, width, m))
  {
    if m == 0 {
      assert Pow2(0) == 1;
    } else {
      WordsCarryPrefix(o, code, width, m - 1, m, words);
      DecodeParam(o, code, width, m - 1, words);
      DecodeStep(o, code, width, m - 1, words);
    }
  }

  /** One more word read: the chunk from word `i`, if any, appends the next
      bits of `code`. */
  lemma DecodeStep(o: Offset, code: nat, width: nat, i: nat, words: seq<nat>)
    requires width >= 1 && o.from <= o.to && o.to - o.from <= UintBits
    requires WordsCarry(o, code, width, i + 1, words)
    requires DecodeValue(ParamChunks(o, width, i), words) == code % Pow2(Covered(o, width, i))
    ensures DecodeValue(ParamChunks(o, width, i + 1), words) == code % Pow2(Covered(o, width, i + 1))
  {
    if OverlapFrom(o, width, i) < OverlapTo(o, width, i) {
      var c := LastChunk(o, width, i);
      DecodeAppend(ParamChunks(o, width, i), c, words);
      assert i < |words|;
      AppendChunk(code, c.lshift, OverlapLength(o, width, i), Shr(words[i], c.rshift));
    } else {
      NoChunk(o, width, i);
    }
  }

  /** When word `i` meets the offset, reading it appends one chunk: the
      overlap's bits of word `i`, shifted down to bit 0, masked to the
      overlap's length and shifted up past the offset's bits before word `i`. */
  lemma LastChunk(o: Offset, width: nat, i: nat) returns (c: Chunk)
    requires width >= 1 && o.from <= o.to && OverlapFrom(o, width, i) < OverlapTo(o, width, i)
    ensures c == Chunk(i, OverlapFrom(o, width, i) - i * width, Mask(OverlapLength(o, width, i)), Covered(o, width, i))
    ensures ParamChunks(o, width, i + 1) == ParamChunks(o, width, i) + [c]
    ensures Covered(o, width, i + 1) == Covered(o, width, i) + OverlapLength(o, width, i)
  {
    var base := i * width;
    assert (i + 1) * width == base + width;
    c := Chunk(i, OverlapFrom(o, width, i) - base, Mask(OverlapLength(o, width, i)), Covered(o, width, i));
  }

  /** When word `i` does not meet the offset, reading it adds nothing. */
  lemma NoChunk(o: Offset, width: nat, i: nat)
    requires width >= 1 && o.from <= o.to && OverlapFrom(o, width, i) >= OverlapTo(o, width, i)
    ensures ParamChunks(o, width, i + 1) == ParamChunks(o, width, i)
    ensures Covered(o, width, i + 1) == Covered(o, width, i)
  {
    assert (i + 1) * width == i * width + width;
  }

  /** ORing the chunk that holds bits `cov .. cov + len - 1` of `code` onto
      the low `cov` bits of `code` gives its low `cov + len` bits. */
  lemma AppendChunk(code: nat, cov: nat, len: nat, x: nat)
    requires cov + len <= UintBits
    requires x % Pow2(len) == Shr(code, cov) % Pow2(len)
    ensures BitOr(code % Pow2(cov), Shl(BitAnd(x, Mask(len)), cov)) == code % Pow2(cov + len)
  {
    var field := Shr(code, cov) % Pow2(len);
    BitAndMask(x, len);
    ShlNoWrap(field, cov, len);
    MultipleOfPow2Times(field, cov);
    BitOrDisjoint(code % Pow2(cov), field * Pow2(cov), cov);
    DivModPow2Add(code, cov, len);
    ShrIsDiv(code, cov);
  }

  /** A code that fits its offset is decoded exactly once the words reach the offset's end. */
  lemma DecodeParamExact(o: Offset, code: nat, width: nat, n: nat, words: seq<nat>)
    requires width >= 1 && o.from <= o.to && o.to - o.from <= UintBits
    requires code < Pow2(o.to - o.from) && n * width >= o.to
    requires WordsCarry(o, code, width, n, words)
    ensures DecodeValue(ParamChunks(o, width, n), words) == code
  {
    DecodeParam(o, code, width, n, words);
    Split(code, 0, Pow2(o.to - o.from));
  }
}
