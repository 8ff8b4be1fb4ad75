# Bit-packing code generator, modelled in Dafny

The generator takes an ordered list of parameters and a word width `W`.
Each parameter has a name, a storage bit length, and a minimum and
maximum value. The generator writes two shader functions:

- `encode` quantizes each parameter to an integer code of `length` bits and
  packs the codes, in list order, into an array of `W`-bit `uint` words;
- `decode` unpacks those words back into the codes and de-quantizes them.

This project models the integer part of `generateCode`
(`src/App/Generator/Generator.tsx`). It has three phases, each as the loop the
source runs and as a specification function the loop is proved equal to:

- **Layout planner** (`Planner`). A running cursor gives each parameter the
  half-open bit range `[from, to)` of one logical bit stream. The word count
  is the total length rounded up to whole words.
- **Word assembler** (`Assembler`). For each word, one statement per
  parameter whose range meets the word's window `[i*W, (i+1)*W)`: the first
  assigns, the others OR. Each shifts the parameter's code by
  `from - i*W` (left when positive, right when negative).
- **Word disassembler** (`Disassembler`). For each parameter, one chunk per
  word that meets its range: the word shifted right to the overlap, masked to
  the overlap's length, and shifted left to where those bits belong in the
  code. The chunks are ORed.

The emitted statements are kept as data rather than text. An encoder
statement is `Assign(word, param, shift)` or `Or(word, param, shift)`. A
decoder line is a parameter index and its list of
`Chunk(word, rshift, mask, lshift)`.

`Bits` gives these statements the meaning of the shader's 32-bit unsigned
arithmetic on naturals:

- `<<` discards bits past position 31;
- `>>` discards the low bits;
- `|` and `&` are bitwise.

`Generator` runs the three phases and proves the property the generated code
exists for. Whatever the codes (each at most `2^length - 1`) and whatever the
output array held before, running the decoder lines on the words the encoder
statements leave gives back every code exactly. This holds even when a word
carries bits above position `W`.

Parameters are referred to by their position in the list, not by name. The
source uses names and does not check that they are unique. Collisions are a
text-level matter and are not modelled.

`generateCode` does not validate its inputs. It relies on the editing
surface, which clamps every bit length and the word width to `[1, 32]`
(`src/App/Generator/ParameterSettings/ParameterSettings.tsx:48-53`,
`src/App/Generator/Generator.tsx:170-175`). The model therefore states that
range as a precondition (`Generator.ValidConfiguration`). `generateCode`
has no error path for an out-of-range width or length; the model follows
the code.

## Model

| member | source | states |
|---|---|---|
| Planner.PlanLayout | src/App/Generator/Generator.tsx:15-22 | The cursor loop yields exactly `Layout(parameters)`. Its `Math.max` running total equals the sum of the lengths, because the maximum is always the current cursor. The word count is the least `n` with `n * W >= total`. |
| Planner.WordCount | src/App/Generator/Generator.tsx:35 | `Math.ceil(total / W)`: enough words for every bit (`r * W >= total`), and one word fewer would not be enough. |
| Planner.LayoutIsContiguous | src/App/Generator/Generator.tsx:16-22 | There is one offset per parameter, in list order, and each carries its parameter. `to - from` is the parameter's length. The first offset starts at 0 and each later one starts where the previous one ends. The last ends at the total length. |
| Planner.ContiguousOrdered | src/App/Generator/Generator.tsx:16-22 | In the planned tiling, a later offset never starts before an earlier one ends, so offsets do not overlap. |
| Planner.EndBound | src/App/Generator/Generator.tsx:16-22 | No offset ends after the total length. |
| Planner.TotalLengthAtLeastCount | src/App/Generator/Generator.tsx:18-22 | With lengths of at least one bit, the total length is at least the number of parameters. |
| Planner.WordCountZeroIffEmpty | src/App/Generator/Generator.tsx:35 | With lengths of at least one bit, no word is produced exactly when the parameter list is empty. |
| Assembler.AssembleOps | src/App/Generator/Generator.tsx:38-64 | The nested loops, with their `continue` and `count`, emit exactly `AssemblyOps(offsets, W, outputCount)`. That is word by word, and within a word in layout order. |
| Assembler.WordOpsShape | src/App/Generator/Generator.tsx:39-62 | Word `i` gets a statement for every offset with `to > i*W && from < (i+1)*W`, and only those, once each and in layout order. The first statement is an assignment and every later one an OR. Each shift is `from - i*W`: a left shift is shorter than `W`, and a right shift is shorter than the parameter's length. |
| Assembler.AssemblyOpsShape | src/App/Generator/Generator.tsx:39-62 | Every statement writes a word below `outputCount` and satisfies the same per-statement facts as in WordOpsShape. |
| Assembler.AssemblyOpsOrdered | src/App/Generator/Generator.tsx:39-41 | Statements come in nondecreasing word order. |
| Assembler.WordOpsNonempty | src/App/Generator/Generator.tsx:41-62 | A word that some offset meets gets at least one statement. |
| Assembler.CoveringOffset | src/App/Generator/Generator.tsx:16-22 | Every bit below the total length lies in some planned offset. |
| Assembler.EveryWordAssigned | src/App/Generator/Generator.tsx:39-62 | With the planned word count, every word has at least one statement, and its first statement is an assignment. No output word is left unwritten. |
| Assembler.RunEncodeAppend | src/App/Generator/Generator.tsx:58-60 | Running two blocks of statements one after the other is running their concatenation. |
| Assembler.ContributionBits | src/App/Generator/Generator.tsx:49-56 | A shifted code lies below the offset's end relative to the word, and has no bit below the offset's start relative to the word (or below bit 0 when the offset began in an earlier word). |
| Assembler.WordSumBound | src/App/Generator/Generator.tsx:41-62 | The contributions of the first `k` offsets to a word lie below where those offsets end. |
| Assembler.OrIsSum | src/App/Generator/Generator.tsx:59-60 | ORing a later offset's contribution into the word adds it: no bit is merged or lost. |
| Assembler.RunWordOps | src/App/Generator/Generator.tsx:41-63 | Word `i`'s statements change only word `i`. They leave in it the sum of the shifted codes; the first assignment discards whatever the word held. |
| Assembler.WordOpsFrame | src/App/Generator/Generator.tsx:58-60 | Word `i`'s statements write word `i` only and keep the array's length. |
| Assembler.WordOpsValue | src/App/Generator/Generator.tsx:41-63 | After word `i`'s statements, word `i` holds the sum of the shifted codes, or its old value when it has no statement. |
| Assembler.RunAssembly | src/App/Generator/Generator.tsx:38-64 | After all statements, each word below `outputCount` that has a statement holds the sum of its contributions. Every other word is unchanged. |
| Disassembler.DisassembleOps | src/App/Generator/Generator.tsx:66-89 | The loops, with their `continue`, emit exactly `DecodeLines(offsets, W, outputCount)`: one line per offset, in layout order. |
| Disassembler.OverlapsPartition | src/App/Generator/Generator.tsx:70-80 | The overlaps of an offset with words `0 .. m-1` add up to its bits before word `m`. Once the words reach its end, they add up to its whole length. |
| Disassembler.ChunkGeometry | src/App/Generator/Generator.tsx:70-86 | Each chunk reads between 1 and `W` bits that do not pass its word's end, with mask `2^len - 1`. Its left shift is the number of the offset's bits in earlier words. Chunks read distinct words in ascending order. |
| Disassembler.ChunksTile | src/App/Generator/Generator.tsx:70-86 | The chunks tile the offset's bits without gaps. Once a word past `from` is read there is at least one chunk, and the first lands at bit 0. Each later chunk lands right after the one before it. Once the words reach `to`, the last chunk ends at the parameter's length. |
| Disassembler.DecodeIsSum | src/App/Generator/Generator.tsx:84-89 | Whatever the words hold, an offset's chunks are bit-disjoint: their OR equals their sum, and the result has no bit beyond the offset's bits read so far. |
| Disassembler.DecodeSumStep | src/App/Generator/Generator.tsx:70-86 | Reading one more word keeps the decoded value equal to the chunk sum and below `2^covered`. |
| Disassembler.DecodeAppend | src/App/Generator/Generator.tsx:84-89 | Appending a chunk ORs its value onto the value so far. |
| Disassembler.ChunkBits | src/App/Generator/Generator.tsx:79-86 | A chunk of `len` bits shifted left by `lshift` occupies bits `lshift .. lshift+len-1` only. |
| Disassembler.LastChunk | src/App/Generator/Generator.tsx:71-86 | A word whose window meets the offset adds one chunk. Its right shift is `overlapFrom - i*W` and its mask is `2^(overlapTo - overlapFrom) - 1`. Its left shift is `i*W - from` when positive, else 0. |
| Disassembler.NoChunk | src/App/Generator/Generator.tsx:75-77 | A word whose window misses the offset adds nothing. |
| Disassembler.DecodeParam | src/App/Generator/Generator.tsx:66-89 | Reading words that carry a code at the offset's overlaps rebuilds the code's bits that lie in those words. |
| Disassembler.DecodeStep | src/App/Generator/Generator.tsx:70-86 | One more word read appends the next bits of the code. |
| Disassembler.AppendChunk | src/App/Generator/Generator.tsx:79-85 | Masking a word's field and shifting it above the code's low bits extends those low bits by the field. |
| Disassembler.DecodeParamExact | src/App/Generator/Generator.tsx:66-89 | A code that fits its offset is decoded exactly once the words reach the offset's end. |
| Generator.GenerateCode | src/App/Generator/Generator.tsx:14-100 | The three phases in order produce the planned word count, `AssemblyOps` and `DecodeLines`, with one decoder line per parameter. For all in-range codes and any prior contents of the output array, decoding the encoded words returns the codes. |
| Generator.PackUnpackLossless | src/App/Generator/Generator.tsx:38-89 | Pack/unpack losslessness: with valid lengths and width and every code `<= 2^length - 1`, decode(encode(codes)) == codes. |
| Generator.EncodeIgnoresInitialWords | src/App/Generator/Generator.tsx:38-64 | The encoder's result does not depend on what the output array held before. |
| Generator.ShiftsBelowUintBits | src/App/Generator/Generator.tsx:49-83 | Every encoder shift and every decoder right and left shift is by fewer than 32 bits, as a 32-bit `uint` shift must be. |
| Generator.PlannedOffsets | src/App/Generator/Generator.tsx:16-22 | With lengths in `[1, 32]`, the planned offsets tile the stream in ranges of 1 to 32 bits and end at the total length. |
| Generator.PlannedCodesFit | src/App/Generator/Generator.tsx:31 | A code of at most `2^length - 1`, the scale the encoder multiplies by, fits its offset. |
| Generator.OffsetsOverwrite | src/App/Generator/Generator.tsx:38-64 | For any tiling whose words all start inside the stream, the encoder's result does not depend on the previous contents of the words. |
| Generator.OffsetsLossless | src/App/Generator/Generator.tsx:38-89 | For any tiling into ranges of 1 to 32 bits that the words cover, decoding the encoded words returns every code. |
| Generator.ParamRecovered | src/App/Generator/Generator.tsx:67-89 | One parameter's decoder line reads its code back from the encoder's words. |
| Generator.WordCarriesParam | src/App/Generator/Generator.tsx:41-62 | A word that a parameter's range meets leaves the encoder holding, at the overlap, the matching bits of that parameter's code. |
| Generator.OverlapIffOverlaps | src/App/Generator/Generator.tsx:42-47 | The decoder's test `overlapFrom < overlapTo` and the encoder's intersection test agree. |
| Generator.ContributionField | src/App/Generator/Generator.tsx:49-56 | After the encoder's shift, the code's bits that belong in word `i` sit at the offset's overlap with the word's window. |
| Generator.ShlField | src/App/Generator/Generator.tsx:50-54 | A left shift by `s` followed by a right shift by `s` keeps the low bits that stayed within 32 bits. |
| Generator.WordField | src/App/Generator/Generator.tsx:41-62 | A word built from several offsets carries each offset's code bits at that offset's overlap; later ORs only touch higher bits. |
| Generator.OwnField | src/App/Generator/Generator.tsx:57-61 | The contributions before an offset lie below where its bits start, so its own bits come out intact. |
| Generator.LaterContributionAbove | src/App/Generator/Generator.tsx:41-62 | A later offset's contribution has no bit below the end of an earlier offset's overlap with the word. |
| Generator.SingleWordScenario | src/App/Generator/Generator.tsx:35-89 | One 8-bit parameter with `W = 32` gives one word and the single statement `Assign(0, 0, 0)`. Its decoder masks word 0 with 255. |
| Generator.SingleWordCode | src/App/Generator/Generator.tsx:38-89 | The statements and decoder line for an offset `[0, 8)` in one 32-bit word. |
| Generator.SpanningScenario | src/App/Generator/Generator.tsx:35-89 | Two 20-bit parameters with `W = 32` give 40 bits in two words. The second parameter's range is `[20, 40)`. The encoder emits `Assign(0,0,0)`, `Or(0,1,20)`, `Assign(1,1,-12)`. The decoder joins `(w0 >> 20) & 4095` with `(w1 & 255) << 12`. |
| Generator.SpanningEncode | src/App/Generator/Generator.tsx:38-64 | The statements for offsets `[0, 20)` and `[20, 40)` in two 32-bit words. |
| Generator.SpanningDecode | src/App/Generator/Generator.tsx:66-89 | The chunks for offset `[20, 40)` in two 32-bit words. |
| Bits.BitOrDisjoint | src/App/Generator/Generator.tsx:60 | OR of a number below `2^m` and a multiple of `2^m` is their sum. |
| Bits.BitAndMask | src/App/Generator/Generator.tsx:81-85 | AND with `2^n - 1` keeps exactly the low `n` bits. |
| Bits.ShlIsMul | src/App/Generator/Generator.tsx:52 | `x << s` on a 32-bit `uint` is `x * 2^s` modulo `2^32`. |
| Bits.ShrIsDiv | src/App/Generator/Generator.tsx:82 | `x >> s` is `x / 2^s`. |
| Bits.ShlNoWrap | src/App/Generator/Generator.tsx:83 | A value that still fits in 32 bits after a left shift is not truncated by it. |
| Bits.ShlKeepsLowBits | src/App/Generator/Generator.tsx:52 | A 32-bit left shift by `s` keeps the low `32 - s` bits, moved up by `s`. |
| Bits.ShrBound | src/App/Generator/Generator.tsx:52 | A right shift by `k` of an `n`-bit number leaves `n - k` bits. |

## Left out

- Floating-point quantization and de-quantization are left out: the encode-side formula, the decode-side scaling and `toFixed(4)` formatting (`src/App/Generator/Generator.tsx:23-33`, `90-98`). They are IEEE-754 arithmetic and text. The model keeps only their integer scale `2^length - 1` (`Bits.Mask`), as the upper bound on a code. The unguarded division by zero when `maximum == minimum` is part of this arithmetic and is not modelled.
- Text rendering is left out: the template string and `console.log` (`src/App/Generator/Generator.tsx:102-119`), and the cosmetic omission of a zero shift (`src/App/Generator/Generator.tsx:50-55`, `82`). Statements are data instead of text, and there is no output sink.
- The React components are left out: `Generator`'s state and callbacks, `ParameterSettings`, `NumberInput` and `App`. They are UI plumbing. Name sanitization by regular expression is a UI event handler, so it is left out too.
- Input validation is left out: lengths and the word width in `[1, 32]` are preconditions (`Generator.ValidConfiguration`), not an error path. The code does not check them; the editing surface clamps them.
- Names are not modelled; parameters are referred to by position. Two parameters with the same name collide only in the emitted text.
- Planner.PlanLayout: requires `W >= 1`. With `W = 0` the source's `Math.ceil(total / 0)` is `Infinity` (or `NaN` for no parameters), and no natural number models that.
