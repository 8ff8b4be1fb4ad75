/** The word assembler of `generateCode`: for each output word, one statement
    per parameter whose bit range meets the word's window, the first an
    assignment and the rest ORs, each shifting the parameter's code into place. */
module Assembler {
  import opened Bits
  import opened Planner

  /** `encoded[word] = <code of param> <shift>;` and `encoded[word] |= ...;`.
      A positive `shift` is emitted as `<< shift`, a negative one as
      `>> -shift`, zero as no shift. Parameters are named by their position. */
  datatype EncodeOp =
    | Assign(word: nat, param: nat, shift: int)
    | Or(word: nat, param: nat, shift: int)

  /** The offset meets the window `[i * width, (i + 1) * width)` of word `i`. */
  predicate Overlaps(o: Offset, width: nat, i: nat)
  {
    o.to > i * width && o.from < (i + 1) * width
  }

  /** The statements for word `i` contributed by the first `k` offsets. */
  function WordOps(offs: seq<Offset>, width: nat, i: nat, k: nat): seq<EncodeOp>
    requires k <= |offs|
  {
    if k == 0 then []
    else
      var prev := WordOps(offs, width, i, k - 1);
      var o := offs[k - 1];
      if !Overlaps(o, width, i) then prev
      else
        var shift := o.from - i * width;
        prev + [if prev == [] then Assign(i, k - 1, shift) else Or(i, k - 1, shift)]
  }

  /** The statements for words `0 .. n - 1`, word by word. */
  function AssemblyOps(offs: seq<Offset>, width: nat, n: nat): seq<EncodeOp>
  {
    if n == 0 then [] else AssemblyOps(offs, width, n - 1) + WordOps(offs, width, n - 1, |offs|)
  }

  /** Lines 38-64 of `generateCode`: nested loops over words and offsets,
      with `count` telling the first contributor of a word from the others. */
  method AssembleOps(offsets: seq<Offset>, outputBitLength: nat, outputCount: nat)
    returns (lines: seq<EncodeOp>)
    ensures lines == AssemblyOps(offsets, outputBitLength, outputCount)
  {
    lines := [];
    for i := 0 to outputCount
      invariant lines == AssemblyOps(offsets, outputBitLength, i)
    {
      var count := 0;
      for k := 0 to |offsets|
        invariant lines == AssemblyOps(offsets, outputBitLength, i) + WordOps(offsets, outputBitLength, i, k)
        invariant count == |WordOps(offsets, outputBitLength, i, k)|
      {
        var offset := offsets[k];
        if offset.to <= i * outputBitLength || offset.from >= (i + 1) * outputBitLength {
          continue;
        }
        var shiftAmount := offset.from - i * outputBitLength;
        if count == 0 {
          lines := lines + [Assign(i, k, shiftAmount)];
        } else {
          lines := lines + [Or(i, k, shiftAmount)];
        }
        count := count + 1;
      }
    }
  }

  // ---------------------------------------------------------------------------
  // Shape of the emitted statements

  /** The statement names an offset that meets its word, shifts by
      `from - word * width`, and shifts left by less than `width` or right by
      less than the offset's length. */
  predicate OpFits(op: EncodeOp, offs: seq<Offset>, width: nat)
  {
    && op.param < |offs|
    && Overlaps(offs[op.param], width, op.word)
    && op.shift == offs[op.param].from - op.word * width
    && (op.shift > 0 ==> op.shift < width)
    && (op.shift < 0 ==> -op.shift < offs[op.param].to - offs[op.param].from)
  }

  /** Word `i` receives exactly the offsets that meet its window, in layout
      order; the first is assigned and every later one ORed; the shift is
      `from - i * width`, a left shift below `width` or a right shift below
      the parameter's length. */
  lemma {:induction false} WordOpsShape(offs: seq<Offset>, width: nat, i: nat, k: nat)
    requires k <= |offs|
    ensures forall t :: 0 <= t < |WordOps(offs, width, i, k)| ==>
      var op := WordOps(offs, width, i, k)[t];
      op.word == i && op.param < k && (op.Assign? <==> t == 0) && OpFits(op, offs, width)
    ensures forall s, t :: 0 <= s < t < |WordOps(offs, width, i, k)| ==>
      WordOps(offs, width, i, k)[s].param < WordOps(offs, width, i, k)[t].param
    ensures forall j :: 0 <= j < k && Overlaps(offs[j], width, i) ==>
      exists t :: 0 <= t < |WordOps(offs, width, i, k)| && WordOps(offs, width, i, k)[t].param == j
  {
    if k > 0 {
      WordOpsShape(offs, width, i, k - 1);
      var prev := WordOps(offs, width, i, k - 1);
      var ops := WordOps(offs, width, i, k);
      assert forall t :: 0 <= t < |prev| ==> ops[t] == prev[t];
      if Overlaps(offs[k - 1], width, i) {
        var o := offs[k - 1];
        var shift := o.from - i * width;
        assert ops == prev + [if prev == [] then Assign(i, k - 1, shift) else Or(i, k - 1, shift)];
        assert (i + 1) * width == i * width + width;
        assert shift > 0 ==> shift < width;
        assert shift < 0 ==> -shift < o.to - o.from;
        assert ops[|prev|].param == k - 1;
      }
      forall j | 0 <= j < k && Overlaps(offs[j], width, i)
        ensures exists t :: 0 <= t < |ops| && ops[t].param == j
      {
        if j < k - 1 {
          var t :| 0 <= t < |prev| && prev[t].param == j;
          assert ops[t].param == j;
        } else {
          assert ops[|prev|].param == j;
        }
      }
    }
  }

  /** Over all words: word indices are below the word count, parameter
      indices name real offsets that meet the word, and every shift is shorter
      than the word (left) or the parameter (right). */
  lemma {:induction false} AssemblyOpsShape(offs: seq<Offset>, width: nat, n: nat)
    ensures forall t :: 0 <= t < |AssemblyOps(offs, width, n)| ==>
      AssemblyOps(offs, width, n)[t].word < n && OpFits(AssemblyOps(offs, width, n)[t], offs, width)
  {
    if n > 0 {
      AssemblyOpsShape(offs, width, n - 1);
      WordOpsShape(offs, width, n - 1, |offs|);
      var prev, last := AssemblyOps(offs, width, n - 1), WordOps(offs, width, n - 1, |offs|);
      var ops := AssemblyOps(offs, width, n);
      forall t | 0 <= t < |ops|
        ensures ops[t].word < n && OpFits(ops[t], offs, width)
      {
        if t < |prev| {
          assert ops[t] == prev[t];
        } else {
          assert ops[t] == last[t - |prev|];
        }
      }
    }
  }

  /** The statements come word by word, in increasing word order. */
  lemma {:induction false} AssemblyOpsOrdered(offs: seq<Offset>, width: nat, n: nat)
    ensures forall s, t :: 0 <= s < t < |AssemblyOps(offs, width, n)| ==>
      AssemblyOps(offs, width, n)[s].word <= AssemblyOps(offs, width, n)[t].word
  {
    if n > 0 {
      AssemblyOpsOrdered(offs, width, n - 1);
      AssemblyOpsShape(offs, width, n - 1);
      WordOpsShape(offs, width, n - 1, |offs|);
      var prev, last := AssemblyOps(offs, width, n - 1), WordOps(offs, width, n - 1, |offs|);
      var ops := AssemblyOps(offs, width, n);
      forall s, t | 0 <= s < t < |ops|
        ensures ops[s].word <= ops[t].word
      {
        if t < |prev| {
          assert ops[s] == prev[s] && ops[t] == prev[t];
        } else if s < |prev| {
          assert ops[s] == prev[s] && ops[t] == last[t - |prev|];
        } else {
          assert ops[s] == last[s - |prev|] && ops[t] == last[t - |prev|];
        }
      }
    }
  }

  /** A bit position below the end of contiguous offsets lies in one of them. */
  lemma {:induction false} CoveringOffset(offs: seq<Offset>, b: nat) returns (j: nat)
    requires Contiguous(offs) && b < End(offs)
    ensures j < |offs| && offs[j].from <= b < offs[j].to
  {
    var last := |offs| - 1;
    if offs[last].from <= b {
      j := last;
    } else {
      var init := offs[..last];
      assert last > 0;
      assert End(init) == offs[last - 1].to;
      j := CoveringOffset(init, b);
    }
  }

  /** A word that some offset meets gets at least one statement. */
  lemma {:induction false} WordOpsNonempty(offs: seq<Offset>, width: nat, i: nat, k: nat, p: nat)
    requires p < k <= |offs| && Overlaps(offs[p], width, i)
    ensures WordOps(offs, width, i, k) != []
  {
    if p < k - 1 {
      WordOpsNonempty(offs, width, i, k - 1, p);
    }
  }

  /** No word is left without an assignment: every window below the last
      offset's end starts inside some offset, so each of the `n` words has a
      first contributor. */
  lemma EveryWordAssigned(offs: seq<Offset>, width: nat, n: nat, i: nat)
    requires Contiguous(offs) && width >= 1
    requires n > 0 ==> (n - 1) * width < End(offs)
    requires i < n
    ensures WordOps(offs, width, i, |offs|) != []
    ensures WordOps(offs, width, i, |offs|)[0].Assign?
  {
    MulLe(i, n - 1, width);
    var j := CoveringOffset(offs, i * width);
    assert (i + 1) * width == i * width + width;
    assert Overlaps(offs[j], width, i);
    WordOpsShape(offs, width, i, |offs|);
  }

  // ---------------------------------------------------------------------------
  // What the emitted statements compute

  /** The value a parameter's code contributes to a word, shifted as emitted. */
  function Contribution(code: nat, shift: int): nat
  {
    if shift == 0 then code
    else if shift > 0 then Shl(code, shift)
    else Shr(code, -shift)
  }

  /** One statement executed on the output array, `codes` holding each parameter's code. */
  function Execute(words: seq<nat>, op: EncodeOp, codes: seq<nat>): seq<nat>
  {
    if op.word < |words| then
      var v := Contribution(if op.param < |codes| then codes[op.param] else 0, op.shift);
      words[op.word := if op.Assign? then v else BitOr(words[op.word], v)]
    else words
  }

  /** The statements executed in order, starting from whatever `words` held. */
  function RunEncode(ops: seq<EncodeOp>, codes: seq<nat>, words: seq<nat>): seq<nat>
  {
    if ops == [] then words
    else Execute(RunEncode(ops[..|ops| - 1], codes, words), ops[|ops| - 1], codes)
  }

  lemma {:induction false} RunEncodeAppend(a: seq<EncodeOp>, b: seq<EncodeOp>, codes: seq<nat>, words: seq<nat>)
    ensures RunEncode(a + b, codes, words) == RunEncode(b, codes, RunEncode(a, codes, words))
  {
    if b != [] {
      var init, last := b[..|b| - 1], b[|b| - 1];
      RunEncodeAppend(a, init, codes, words);
      assert (a + b)[..|a + b| - 1] == a + init;
      calc {
        RunEncode(a + b, codes, words);
        Execute(RunEncode(a + init, codes, words), last, codes);
        Execute(RunEncode(init, codes, RunEncode(a, codes, words)), last, codes);
        RunEncode(b, codes, RunEncode(a, codes, words));
      }
    } else {
      assert a + b == a;
    }
  }

  /** Each code fits the bit length of its offset. */
  predicate CodesFit(offs: seq<Offset>, codes: seq<nat>)
  {
    |codes| == |offs| &&
    forall j :: 0 <= j < |offs| ==> offs[j].from <= offs[j].to && codes[j] < Pow2(offs[j].to - offs[j].from)
  }

  /** The contribution of offset `j` to word `i`: zero unless it meets the window. */
  function WordContribution(offs: seq<Offset>, codes: seq<nat>, width: nat, i: nat, j: nat): nat
    requires j < |offs| && |codes| == |offs|
  {
    if Overlaps(offs[j], width, i) then Contribution(codes[j], offs[j].from - i * width) else 0
  }

  /** The sum of the contributions of the first `k` offsets to word `i`. */
  function WordSum(offs: seq<Offset>, codes: seq<nat>, width: nat, i: nat, k: nat): nat
    requires k <= |offs| && |codes| == |offs|
  {
    if k == 0 then 0 else WordSum(offs, codes, width, i, k - 1) + WordContribution(offs, codes, width, i, k - 1)
  }

  /** Where the first `k` offsets end, relative to the start of word `i` (zero if before it). */
  function Reach(offs: seq<Offset>, width: nat, i: nat, k: nat): nat
    requires k <= |offs|
  {
    var cursor := if k == 0 then 0 else offs[k - 1].to;
    if cursor > i * width then cursor - i * width else 0
  }

  /** A code meeting word `i` lands below its end relative to the word, and
      starts at its start relative to the word (or at bit 0 when it began in
      an earlier word). */
  lemma ContributionBits(o: Offset, code: nat, width: nat, i: nat)
    requires Overlaps(o, width, i) && width <= UintBits
    requires o.from <= o.to && code < Pow2(o.to - o.from)
    ensures var c := Contribution(code, o.from - i * width);
      && c < Pow2(o.to - i * width)
      && MultipleOfPow2(c, if o.from > i * width then o.from - i * width else 0)
  {
    var s := o.from - i * width;
    assert (i + 1) * width == i * width + width;
    if s > 0 {
      LeftShiftBits(code, s, o.to - o.from);
    } else if s < 0 {
      ShrBound(code, -s, o.to - o.from);
    }
  }

  lemma LeftShiftBits(code: nat, s: nat, len: nat)
    requires s <= UintBits && code < Pow2(len)
    ensures Shl(code, s) < Pow2(s + len) && MultipleOfPow2(Shl(code, s), s)
  {
    var low, ps, pl := code % Pow2(UintBits - s), Pow2(s), Pow2(len);
    ShlKeepsLowBits(code, s);
    MultipleOfPow2Times(low, s);
    ModLe(code, Pow2(UintBits - s));
    MulLe(low, code, ps);
    MulBelow(code, pl, ps);
    Pow2Add(s, len);
    assert Shl(code, s) == low * ps;
    assert low * ps <= code * ps;
    assert code * ps < ps * pl;
  }

  /** The partial word built from the first `k` offsets has no bit at or above their reach. */
  lemma {:induction false} WordSumBound(offs: seq<Offset>, codes: seq<nat>, width: nat, i: nat, k: nat)
    requires Contiguous(offs) && CodesFit(offs, codes) && width <= UintBits && k <= |offs|
    ensures WordSum(offs, codes, width, i, k) < Pow2(Reach(offs, width, i, k))
  {
    if k > 0 {
      WordSumBound(offs, codes, width, i, k - 1);
      var o := offs[k - 1];
      assert Reach(offs, width, i, k - 1) == if o.from > i * width then o.from - i * width else 0;
      if Overlaps(o, width, i) {
        ContributionBits(o, codes[k - 1], width, i);
        DisjointSumBound(WordSum(offs, codes, width, i, k - 1), WordContribution(offs, codes, width, i, k - 1),
          Reach(offs, width, i, k - 1), Reach(offs, width, i, k));
      } else {
        Pow2Monotone(Reach(offs, width, i, k - 1), Reach(offs, width, i, k));
      }
    }
  }

  /** Running word `i`'s statements changes only word `i`, and leaves in it the
      sum of the contributions: the first assignment discards whatever the
      word held, and each OR adds bits disjoint from those already set. */
  lemma RunWordOps(offs: seq<Offset>, codes: seq<nat>, width: nat, i: nat, k: nat, words: seq<nat>)
    requires Contiguous(offs) && CodesFit(offs, codes) && width <= UintBits
    requires k <= |offs| && i < |words|
    ensures |RunEncode(WordOps(offs, width, i, k), codes, words)| == |words|
    ensures forall w :: 0 <= w < |words| && w != i ==>
      RunEncode(WordOps(offs, width, i, k), codes, words)[w] == words[w]
    ensures RunEncode(WordOps(offs, width, i, k), codes, words)[i]
      == if WordOps(offs, width, i, k) == [] then words[i] else WordSum(offs, codes, width, i, k)
    ensures WordOps(offs, width, i, k) == [] ==> WordSum(offs, codes, width, i, k) == 0
  {
    WordOpsFrame(offs, codes, width, i, k, words);
    WordOpsValue(offs, codes, width, i, k, words);
  }

  /** Word `i`'s statements write word `i` only. */
  lemma {:induction false} WordOpsFrame(offs: seq<Offset>, codes: seq<nat>, width: nat, i: nat, k: nat, words: seq<nat>)
    requires k <= |offs| && i < |words|
    ensures |RunEncode(WordOps(offs, width, i, k), codes, words)| == |words|
    ensures forall w :: 0 <= w < |words| && w != i ==>
      RunEncode(WordOps(offs, width, i, k), codes, words)[w] == words[w]
  {
    if k > 0 {
      WordOpsFrame(offs, codes, width, i, k - 1, words);
      var prev := WordOps(offs, width, i, k - 1);
      if Overlaps(offs[k - 1], width, i) {
        var ops := WordOps(offs, width, i, k);
        assert ops[..|ops| - 1] == prev;
        assert ops[|ops| - 1].word == i;
      }
    }
  }

  /** Word `i`'s statements leave in it the sum of the contributions. */
  lemma {:induction false} WordOpsValue(offs: seq<Offset>, codes: seq<nat>, width: nat, i: nat, k: nat, words: seq<nat>)
    requires Contiguous(offs) && CodesFit(offs, codes) && width <= UintBits
    requires k <= |offs| && i < |words|
    ensures |RunEncode(WordOps(offs, width, i, k), codes, words)| == |words|
    ensures RunEncode(WordOps(offs, width, i, k), codes, words)[i]
      == if WordOps(offs, width, i, k) == [] then words[i] else WordSum(offs, codes, width, i, k)
    ensures WordOps(offs, width, i, k) == [] ==> WordSum(offs, codes, width, i, k) == 0
  {
    WordOpsFrame(offs, codes, width, i, k, words);
    if k > 0 {
      WordOpsValue(offs, codes, width, i, k - 1, words);
      var prev := WordOps(offs, width, i, k - 1);
      if Overlaps(offs[k - 1], width, i) {
        var ops := WordOps(offs, width, i, k);
        var op := ops[|ops| - 1];
        assert ops[..|ops| - 1] == prev;
        assert op.word == i && op.param == k - 1 && (op.Assign? <==> prev == []);
        assert Contribution(codes[k - 1], op.shift) == WordContribution(offs, codes, width, i, k - 1);
        assert RunEncode(ops, codes, words) == Execute(RunEncode(prev, codes, words), op, codes);
        if prev != [] {
          OrIsSum(offs, codes, width, i, k - 1);
        }
      }
    }
  }

  /** ORing offset `j`'s contribution onto the word built from the offsets
      before it adds it: the bits are disjoint. */
  lemma OrIsSum(offs: seq<Offset>, codes: seq<nat>, width: nat, i: nat, j: nat)
    requires Contiguous(offs) && CodesFit(offs, codes) && width <= UintBits
    requires j < |offs| && Overlaps(offs[j], width, i)
    ensures BitOr(WordSum(offs, codes, width, i, j), WordContribution(offs, codes, width, i, j))
         == WordSum(offs, codes, width, i, j + 1)
  {
    var o := offs[j];
    WordSumBound(offs, codes, width, i, j);
    ContributionBits(o, codes[j], width, i);
    assert Reach(offs, width, i, j) == if o.from > i * width then o.from - i * width else 0;
    BitOrDisjoint(WordSum(offs, codes, width, i, j), WordContribution(offs, codes, width, i, j), Reach(offs, width, i, j));
  }

  /** The words the emitted encoder leaves: word `i < n` holds the sum of the
      contributions to it if it has a statement, and its old value otherwise. */
  lemma {:induction false} RunAssembly(offs: seq<Offset>, codes: seq<nat>, width: nat, n: nat, words: seq<nat>)
    requires Contiguous(offs) && CodesFit(offs, codes) && width <= UintBits
    requires n <= |words|
    ensures |RunEncode(AssemblyOps(offs, width, n), codes, words)| == |words|
    ensures forall w :: 0 <= w < |words| ==>
      RunEncode(AssemblyOps(offs, width, n), codes, words)[w]
      == if w < n && WordOps(offs, width, w, |offs|) != [] then WordSum(offs, codes, width, w, |offs|) else words[w]
  {
    if n > 0 {
      RunAssembly(offs, codes, width, n - 1, words);
      var before := RunEncode(AssemblyOps(offs, width, n - 1), codes, words);
      var after := RunEncode(AssemblyOps(offs, width, n), codes, words);
      RunEncodeAppend(AssemblyOps(offs, width, n - 1), WordOps(offs, width, n - 1, |offs|), codes, words);
      assert after == RunEncode(WordOps(offs, width, n - 1, |offs|), codes, before);
      RunWordOps(offs, codes, width, n - 1, |offs|, before);
      forall w | 0 <= w < |words|
        ensures after[w] == if w < n && WordOps(offs, width, w, |offs|) != [] then WordSum(offs, codes, width, w, |offs|) else words[w]
      {
        if w != n - 1 {
          assert after[w] == before[w];
        }
      }
    }
  }
}
