/** `generateCode` as a whole: plan the layout, emit the encoder statements and
    the decoder lines, and the property the two are written for — decoding
    the words the encoder leaves gives back every parameter's code. */
module Generator {
  import opened Bits
  import opened Planner
  import opened Assembler
  import opened Disassembler

  /** Every parameter length lies between 1 and 32 bits. */
  predicate ValidLengths(parameters: seq<Parameter>)
  {
    forall j :: 0 <= j < |parameters| ==> 1 <= parameters[j].length <= UintBits
  }

  /** A configuration the generator is meant for: the word width and every
      parameter length lie between 1 and 32 bits. */
  predicate ValidConfiguration(parameters: seq<Parameter>, outputBitLength: nat)
  {
    1 <= outputBitLength <= UintBits && ValidLengths(parameters)
  }

  /** One quantized code per parameter, each at most the integer scale
      `2^length - 1` of its parameter. */
  predicate CodesInRange(parameters: seq<Parameter>, codes: seq<nat>)
  {
    |codes| == |parameters| &&
    forall j :: 0 <= j < |parameters| ==> codes[j] <= Mask(parameters[j].length)
  }

  /** Lines 14-100 of `generateCode`, without the floating-point and text
      parts: the three phases in order. Whatever the codes (each within its
      scale) and whatever the words held before, the decoder lines read the
      codes back from the words the encoder statements leave. */
  method GenerateCode(parameters: seq<Parameter>, outputBitLength: nat)
    returns (outputCount: nat, encodeOps: seq<EncodeOp>, decodeLines: seq<DecodeLine>)
    requires ValidConfiguration(parameters, outputBitLength)
    ensures outputCount == WordCount(TotalLength(parameters), outputBitLength)
    ensures encodeOps == AssemblyOps(Layout(parameters), outputBitLength, outputCount)
    ensures decodeLines == DecodeLines(Layout(parameters), outputBitLength, outputCount)
    ensures |decodeLines| == |parameters|
    ensures forall codes: seq<nat>, init: seq<nat> | CodesInRange(parameters, codes) && |init| == outputCount ::
      Decode(decodeLines, RunEncode(encodeOps, codes, init)) == codes
  {
    var offsets, totalLength;
    offsets, totalLength, outputCount := PlanLayout(parameters, outputBitLength);
    encodeOps := AssembleOps(offsets, outputBitLength, outputCount);
    decodeLines := DisassembleOps(offsets, outputBitLength, outputCount);
    LayoutIsContiguous(parameters);
    forall codes: seq<nat>, init: seq<nat> | CodesInRange(parameters, codes) && |init| == outputCount
      ensures Decode(decodeLines, RunEncode(encodeOps, codes, init)) == codes
    {
      PackUnpackLossless(parameters, outputBitLength, codes, init);
    }
  }

  /** Pack/unpack losslessness: with the planned layout and word count, the
      decoder recovers every code the encoder packed. */
  lemma PackUnpackLossless(parameters: seq<Parameter>, outputBitLength: nat, codes: seq<nat>, init: seq<nat>)
    requires ValidConfiguration(parameters, outputBitLength)
    requires CodesInRange(parameters, codes)
    requires |init| == WordCount(TotalLength(parameters), outputBitLength)
    ensures Decode(
              DecodeLines(Layout(parameters), outputBitLength, |init|),
              RunEncode(AssemblyOps(Layout(parameters), outputBitLength, |init|), codes, init))
            == codes
  {
    PlannedOffsets(parameters);
    PlannedCodesFit(parameters, codes);
    OffsetsLossless(Layout(parameters), codes, outputBitLength, |init|, init);
  }

  /** The encoder overwrites every word it produces (each has an assignment
      first), so what the output array held before does not matter. */
  lemma EncodeIgnoresInitialWords(parameters: seq<Parameter>, outputBitLength: nat, codes: seq<nat>,
                                  init1: seq<nat>, init2: seq<nat>)
    requires ValidConfiguration(parameters, outputBitLength)
    requires CodesInRange(parameters, codes)
    requires |init1| == |init2| == WordCount(TotalLength(parameters), outputBitLength)
    ensures RunEncode(AssemblyOps(Layout(parameters), outputBitLength, |init1|), codes, init1)
         == RunEncode(AssemblyOps(Layout(parameters), outputBitLength, |init1|), codes, init2)
  {
    PlannedOffsets(parameters);
    PlannedCodesFit(parameters, codes);
    OffsetsOverwrite(Layout(parameters), codes, outputBitLength, |init1|, init1, init2);
  }

  /** The planned offsets tile the stream in ranges of 1 to 32 bits. */
  lemma PlannedOffsets(parameters: seq<Parameter>)
    requires ValidLengths(parameters)
    ensures Contiguous(Layout(parameters)) && End(Layout(parameters)) == TotalLength(parameters)
    ensures forall j :: 0 <= j < |Layout(parameters)| ==>
      Layout(parameters)[j].from < Layout(parameters)[j].to && Layout(parameters)[j].to - Layout(parameters)[j].from <= UintBits
  {
    LayoutIsContiguous(parameters);
  }

  /** Codes within their scales fit the planned offsets. */
  lemma PlannedCodesFit(parameters: seq<Parameter>, codes: seq<nat>)
    requires CodesInRange(parameters, codes)
    ensures CodesFit(Layout(parameters), codes)
  {
    var offs := Layout(parameters);
    LayoutIsContiguous(parameters);
    forall j | 0 <= j < |offs|
      ensures offs[j].from <= offs[j].to && codes[j] < Pow2(offs[j].to - offs[j].from)
    {
      assert offs[j].to - offs[j].from == parameters[j].length;
      assert codes[j] <= Mask(parameters[j].length);
    }
  }

  /** With every word `0 .. n - 1` starting inside the stream, the encoder's
      result does not depend on the words' previous contents. */
  lemma OffsetsOverwrite(offs: seq<Offset>, codes: seq<nat>, width: nat, n: nat, init1: seq<nat>, init2: seq<nat>)
    requires Contiguous(offs) && CodesFit(offs, codes) && 1 <= width <= UintBits
    requires n > 0 ==> (n - 1) * width < End(offs)
    requires |init1| == |init2| == n
    ensures RunEncode(AssemblyOps(offs, width, n), codes, init1) == RunEncode(AssemblyOps(offs, width, n), codes, init2)
  {
    RunAssembly(offs, codes, width, n, init1);
    RunAssembly(offs, codes, width, n, init2);
    forall w | 0 <= w < n
      ensures WordOps(offs, width, w, |offs|) != []
    {
      EveryWordAssigned(offs, width, n, w);
    }
  }

  /** Every shift the generated code performs is by fewer than 32 bits, as a
      32-bit `uint` shift must be: encoder shifts either way, and the right
      and left shifts of every decoder chunk. */
  lemma ShiftsBelowUintBits(parameters: seq<Parameter>, outputBitLength: nat, n: nat)
    requires ValidConfiguration(parameters, outputBitLength)
    ensures forall t :: 0 <= t < |AssemblyOps(Layout(parameters), outputBitLength, n)| ==>
      -(UintBits as int) < AssemblyOps(Layout(parameters), outputBitLength, n)[t].shift < UintBits
    ensures forall j, t ::
      && 0 <= j < |DecodeLines(Layout(parameters), outputBitLength, n)|
      && 0 <= t < |DecodeLines(Layout(parameters), outputBitLength, n)[j].chunks|
      ==>
      && DecodeLines(Layout(parameters), outputBitLength, n)[j].chunks[t].rshift < UintBits
      && DecodeLines(Layout(parameters), outputBitLength, n)[j].chunks[t].lshift < UintBits
  {
    var offs := Layout(parameters);
    PlannedOffsets(parameters);
    LayoutIsContiguous(parameters);
    AssemblyOpsShape(offs, outputBitLength, n);
    forall j, t | 0 <= j < |DecodeLines(offs, outputBitLength, n)| && 0 <= t < |DecodeLines(offs, outputBitLength, n)[j].chunks|
      ensures DecodeLines(offs, outputBitLength, n)[j].chunks[t].rshift < UintBits
      ensures DecodeLines(offs, outputBitLength, n)[j].chunks[t].lshift < UintBits
    {
      ChunkGeometry(offs[j], outputBitLength, n);
      var c := ParamChunks(offs[j], outputBitLength, n)[t];
      assert ChunkFits(c, offs[j], outputBitLength);
      assert Covered(offs[j], outputBitLength, c.word + 1) <= offs[j].to - offs[j].from;
    }
  }

  // ---------------------------------------------------------------------------
  // Losslessness at the level of offsets

  /** Decoding the encoder's words gives back every code, for any tiling of
      the stream into ranges of 1 to 32 bits that the `n` words cover. */
  lemma OffsetsLossless(offs: seq<Offset>, codes: seq<nat>, width: nat, n: nat, init: seq<nat>)
    requires Contiguous(offs) && 1 <= width <= UintBits
    requires forall j :: 0 <= j < |offs| ==> offs[j].from < offs[j].to && offs[j].to - offs[j].from <= UintBits
    requires CodesFit(offs, codes)
    requires n * width >= End(offs) && |init| == n
    ensures Decode(DecodeLines(offs, width, n), RunEncode(AssemblyOps(offs, width, n), codes, init)) == codes
  {
    var words := RunEncode(AssemblyOps(offs, width, n), codes, init);
    var lines := DecodeLines(offs, width, n);
    forall p | 0 <= p < |offs|
      ensures Decode(lines, words)[p] == codes[p]
    {
      EndBound(offs, p);
      ParamRecovered(offs, codes, width, n, init, p);
    }
  }

  /** One parameter's decoding line reads its code back from the encoder's words. */
  lemma ParamRecovered(offs: seq<Offset>, codes: seq<nat>, width: nat, n: nat, init: seq<nat>, p: nat)
    requires Contiguous(offs) && 1 <= width <= UintBits
    requires forall j :: 0 <= j < |offs| ==> offs[j].from < offs[j].to && offs[j].to - offs[j].from <= UintBits
    requires CodesFit(offs, codes)
    requires p < |offs| && n * width >= offs[p].to && |init| == n
    ensures DecodeValue(ParamChunks(offs[p], width, n), RunEncode(AssemblyOps(offs, width, n), codes, init)) == codes[p]
  {
    var words := RunEncode(AssemblyOps(offs, width, n), codes, init);
    var o := offs[p];
    forall i | 0 <= i < n && OverlapFrom(o, width, i) < OverlapTo(o, width, i)
      ensures i < |words|
      ensures Shr(words[i], OverlapFrom(o, width, i) - i * width) % Pow2(OverlapLength(o, width, i))
           == Shr(codes[p], Covered(o, width, i)) % Pow2(OverlapLength(o, width, i))
    {
      WordCarriesParam(offs, codes, width, n, init, p, i);
    }
    assert WordsCarry(o, codes[p], width, n, words);
    DecodeParamExact(o, codes[p], width, n, words);
  }

  /** A word the offset meets comes out of the encoder holding, at the
      offset's overlap with its window, the matching bits of the code. */
  lemma WordCarriesParam(offs: seq<Offset>, codes: seq<nat>, width: nat, n: nat, init: seq<nat>, p: nat, i: nat)
    requires Contiguous(offs) && 1 <= width <= UintBits
    requires forall j :: 0 <= j < |offs| ==> offs[j].from < offs[j].to && offs[j].to - offs[j].from <= UintBits
    requires CodesFit(offs, codes)
    requires p < |offs| && |init| == n && i < n && OverlapFrom(offs[p], width, i) < OverlapTo(offs[p], width, i)
    ensures |RunEncode(AssemblyOps(offs, width, n), codes, init)| == n
    ensures Shr(RunEncode(AssemblyOps(offs, width, n), codes, init)[i], OverlapFrom(offs[p], width, i) - i * width)
              % Pow2(OverlapLength(offs[p], width, i))
         == Shr(codes[p], Covered(offs[p], width, i)) % Pow2(OverlapLength(offs[p], width, i))
  {
    OverlapIffOverlaps(offs[p], width, i);
    WordOpsNonempty(offs, width, i, |offs|, p);
    RunAssembly(offs, codes, width, n, init);
    assert RunEncode(AssemblyOps(offs, width, n), codes, init)[i] == WordSum(offs, codes, width, i, |offs|);
    WordField(offs, codes, width, i, p, |offs|);
  }

  /** The overlap window is nonempty exactly when the offset meets the word. */
  lemma OverlapIffOverlaps(o: Offset, width: nat, i: nat)
    requires o.from < o.to
    ensures OverlapFrom(o, width, i) < OverlapTo(o, width, i) <==> Overlaps(o, width, i)
  {
  }

  /** After the shift the encoder applies, the code's bits that belong in
      word `i` sit at the offset's overlap with the word's window. */
  lemma ContributionField(o: Offset, code: nat, width: nat, i: nat)
    requires Overlaps(o, width, i) && 1 <= width <= UintBits
    requires o.from < o.to && code < Pow2(o.to - o.from)
    ensures Shr(Contribution(code, o.from - i * width), OverlapFrom(o, width, i) - i * width)
              % Pow2(OverlapLength(o, width, i))
         == Shr(code, Covered(o, width, i)) % Pow2(OverlapLength(o, width, i))
  {
    var base := i * width;
    assert (i + 1) * width == base + width;
    var s := o.from - base;
    if s > 0 {
      assert OverlapFrom(o, width, i) - base == s;
      assert Covered(o, width, i) == 0;
      ShlField(code, s, OverlapLength(o, width, i));
    } else {
      assert OverlapFrom(o, width, i) - base == 0;
      assert Covered(o, width, i) == -s;
    }
  }

  /** Shifting left by `s` and back keeps the low `len` bits when they do not
      reach past bit 31. */
  lemma ShlField(code: nat, s: nat, len: nat)
    requires s + len <= UintBits
    ensures Shr(Shl(code, s), s) % Pow2(len) == Shr(code, 0) % Pow2(len)
  {
    var low := code % Pow2(UintBits - s);
    ShlKeepsLowBits(code, s);
    Split(0, low, Pow2(s));
    ModOfMod(code, len, UintBits - s);
    ShrIsDiv(Shl(code, s), s);
  }

  /** Word `i` as assembled from the first `k` offsets carries, at the overlap
      of any earlier offset `p` with its window, the matching bits of code
      `p`: later contributions only touch higher bits. */
  lemma {:induction false} WordField(offs: seq<Offset>, codes: seq<nat>, width: nat, i: nat, p: nat, k: nat)
    requires Contiguous(offs) && CodesFit(offs, codes) && 1 <= width <= UintBits
    requires forall j :: 0 <= j < |offs| ==> offs[j].from < offs[j].to
    requires p < k <= |offs| && Overlaps(offs[p], width, i)
    ensures Shr(WordSum(offs, codes, width, i, k), OverlapFrom(offs[p], width, i) - i * width)
              % Pow2(OverlapLength(offs[p], width, i))
         == Shr(codes[p], Covered(offs[p], width, i)) % Pow2(OverlapLength(offs[p], width, i))
  {
    if k == p + 1 {
      OwnField(offs, codes, width, i, p);
    } else {
      WordField(offs, codes, width, i, p, k - 1);
      LaterContributionAbove(offs, codes, width, i, p, k - 1);
      FieldIgnoresHighBits(WordSum(offs, codes, width, i, k - 1), WordContribution(offs, codes, width, i, k - 1),
        OverlapFrom(offs[p], width, i) - i * width, OverlapLength(offs[p], width, i));
    }
  }

  /** The contributions before offset `p` lie below where `p`'s bits start in
      word `i`, so adding `p`'s contribution puts its bits in place. */
  lemma OwnField(offs: seq<Offset>, codes: seq<nat>, width: nat, i: nat, p: nat)
    requires Contiguous(offs) && CodesFit(offs, codes) && 1 <= width <= UintBits
    requires p < |offs| && offs[p].from < offs[p].to && Overlaps(offs[p], width, i)
    ensures Shr(WordSum(offs, codes, width, i, p + 1), OverlapFrom(offs[p], width, i) - i * width)
              % Pow2(OverlapLength(offs[p], width, i))
         == Shr(codes[p], Covered(offs[p], width, i)) % Pow2(OverlapLength(offs[p], width, i))
  {
    var o := offs[p];
    var rs := OverlapFrom(o, width, i) - i * width;
    WordSumBound(offs, codes, width, i, p);
    assert p > 0 ==> offs[p - 1].to == o.from;
    assert Reach(offs, width, i, p) == rs;
    ContributionBits(o, codes[p], width, i);
    ShrOfDisjointSum(WordSum(offs, codes, width, i, p), WordContribution(offs, codes, width, i, p), rs);
    ContributionField(o, codes[p], width, i);
  }

  /** A later offset's contribution to word `i` has no bit below the end of
      offset `p`'s overlap with the word. */
  lemma LaterContributionAbove(offs: seq<Offset>, codes: seq<nat>, width: nat, i: nat, p: nat, q: nat)
    requires Contiguous(offs) && CodesFit(offs, codes) && width <= UintBits
    requires p < q < |offs| && offs[p].from < offs[p].to && Overlaps(offs[p], width, i)
    ensures MultipleOfPow2(WordContribution(offs, codes, width, i, q),
              OverlapFrom(offs[p], width, i) - i * width + OverlapLength(offs[p], width, i))
  {
    var base := i * width;
    assert (i + 1) * width == base + width;
    ContiguousOrdered(offs, p, q);
    var top := OverlapFrom(offs[p], width, i) - base + OverlapLength(offs[p], width, i);
    assert top <= offs[p].to - base;
    if Overlaps(offs[q], width, i) {
      ContributionBits(offs[q], codes[q], width, i);
      MultipleOfPow2Weaken(WordContribution(offs, codes, width, i, q), offs[q].from - base, top);
    }
  }

  // ---------------------------------------------------------------------------
  // Two worked configurations

  /** One 8-bit parameter in 32-bit words: one word, one assignment without a
      shift, and a decoder that masks the low 8 bits of word 0. */
  lemma SingleWordScenario()
    ensures var ps := [Parameter("x", 8, 0.0, 1.0)];
      && WordCount(TotalLength(ps), 32) == 1
      && AssemblyOps(Layout(ps), 32, 1) == [Assign(0, 0, 0)]
      && DecodeLines(Layout(ps), 32, 1) == [DecodeLine(0, [Chunk(0, 0, Mask(8), 0)])]
      && Mask(8) == 255
  {
    var x := Parameter("x", 8, 0.0, 1.0);
    assert [x][..0] == [];
    assert Layout([x]) == [Offset(0, 8, x)];
    SingleWordCode(Offset(0, 8, x));
    assert Mask(8) == 255 by {
      assert Pow2(4) == 16;
      assert Pow2(8) == 16 * Pow2(4);
    }
  }

  lemma SingleWordCode(o: Offset)
    requires o.from == 0 && o.to == 8
    ensures AssemblyOps([o], 32, 1) == [Assign(0, 0, 0)]
    ensures DecodeLines([o], 32, 1) == [DecodeLine(0, [Chunk(0, 0, Mask(8), 0)])]
  {
    assert WordOps([o], 32, 0, 1) == [Assign(0, 0, 0)];
    assert AssemblyOps([o], 32, 1) == [] + WordOps([o], 32, 0, 1);
    assert ParamChunks(o, 32, 1) == [] + [Chunk(0, 0, Mask(8), 0)];
    assert DecodeLines([o], 32, 1)[0] == DecodeLine(0, [Chunk(0, 0, Mask(8), 0)]);
  }

  /** Two 20-bit parameters in 32-bit words: the second occupies bits 20-39,
      so it is split between word 0 (its low 12 bits, shifted up by 20) and
      word 1 (its high 8 bits, shifted down by 12), and its decoder joins a
      right-shifted chunk of word 0 with a chunk of word 1 shifted left by 12. */
  lemma SpanningScenario()
    ensures var ps := [Parameter("a", 20, 0.0, 1.0), Parameter("b", 20, 0.0, 1.0)];
      && TotalLength(ps) == 40
      && WordCount(TotalLength(ps), 32) == 2
      && Layout(ps)[1].from == 20 && Layout(ps)[1].to == 40
      && AssemblyOps(Layout(ps), 32, 2) == [Assign(0, 0, 0), Or(0, 1, 20), Assign(1, 1, -12)]
      && DecodeLines(Layout(ps), 32, 2)[1] == DecodeLine(1, [Chunk(0, 20, Mask(12), 0), Chunk(1, 0, Mask(8), 12)])
  {
    var a, b := Parameter("a", 20, 0.0, 1.0), Parameter("b", 20, 0.0, 1.0);
    var ps := [a, b];
    assert ps[..1] == [a] && [a][..0] == [];
    assert TotalLength([a]) == 20;
    assert Layout([a]) == [Offset(0, 20, a)];
    assert Layout(ps) == [Offset(0, 20, a), Offset(20, 40, b)];
    SpanningEncode(Offset(0, 20, a), Offset(20, 40, b));
    SpanningDecode(Offset(20, 40, b));
  }

  lemma SpanningEncode(o0: Offset, o1: Offset)
    requires o0.from == 0 && o0.to == 20 && o1.from == 20 && o1.to == 40
    ensures AssemblyOps([o0, o1], 32, 2) == [Assign(0, 0, 0), Or(0, 1, 20), Assign(1, 1, -12)]
  {
    var offs := [o0, o1];
    assert WordOps(offs, 32, 0, 1) == [Assign(0, 0, 0)];
    assert WordOps(offs, 32, 0, 2) == [Assign(0, 0, 0), Or(0, 1, 20)];
    assert WordOps(offs, 32, 1, 1) == [];
    assert WordOps(offs, 32, 1, 2) == [Assign(1, 1, -12)];
    assert AssemblyOps(offs, 32, 1) == [] + WordOps(offs, 32, 0, 2);
    assert AssemblyOps(offs, 32, 2) == AssemblyOps(offs, 32, 1) + WordOps(offs, 32, 1, 2);
  }

  lemma SpanningDecode(o: Offset)
    requires o.from == 20 && o.to == 40
    ensures ParamChunks(o, 32, 2) == [Chunk(0, 20, Mask(12), 0), Chunk(1, 0, Mask(8), 12)]
  {
    assert ParamChunks(o, 32, 1) == [] + [Chunk(0, 20, Mask(12), 0)];
    assert ParamChunks(o, 32, 2) == ParamChunks(o, 32, 1) + [Chunk(1, 0, Mask(8), 12)];
  }
}
