# Integer and protocol models of the trinity tools

A Dafny model of the reference programs that say what the boards, the GF16 arithmetic and the file
formats must do, with proofs of what those programs promise. `dafny verify dfyconfig.toml` checks
everything.

- **GF16 numerics** (`Gf16`, `Binary32`, `Gf16WideNorm*`, `Gf16Row*`, `Gf16Ffn*`): the 16-bit float
  lattice, its correctly rounded encoder, the block-scaled integer RMS norm, ActQuant, ternary
  projections and the whole feed-forward block. Host floating point appears only where the code packs
  an exactly representable product to binary32; it is modelled as exact arithmetic with one rounding to
  a 24-bit significand.
- **Q16.16 attention** (`ExpQ16`, `ExpAccuracy`, `Attention*`): the integer exponential and the prefill loop with its
  caches, stages and counted saturation.
- **Walsh-Hadamard rotation** (`Hadamard`): the in-place butterfly, the sign matrix, the rotation over
  exact fractions.
- **Trit stores** (`Lfsr*`, `TritCodec`, `BramTrit*`, `BramLayout*`, `Bits`, `RotXor`, `Ddr3*`,
  `MatvecDevice`): the multi-step shift register, the word formats, the bit mixers, the read report
  computed two ways, and the device-shaped matrix-vector product.
- **GGUF headers** (`Gguf*`): the printer, the parser and the in-place relabeller.
- **Board tools** (`Netlist`, `Phy*`, `UartRecovery`, `UartSwitch`, `Report*`): path levels by a
  memoised search, baud recovery, report decoding and clock unwrapping.
- **Primitives** (`WasmMul`, `ChaCha*`, `Poly1305`, `Envelope`): the 128-bit product of the wasm build and
  the RFC 8439 functions (sections 2.1 to 2.5 and 2.8) with the envelope around them.

Conventions. Python integers are `int` and `nat`; widths are proved, not assumed. A packed integer is a
positional number (`Digits.Num`) over its fields, so a shift-and-or of disjoint fields is one more digit;
machine words that are xored and rotated are bit lists, bit 0 first, and `WordNumbers` proves what
each operation on them is on integers. An exception is a `Result` or an
`Option`. A loop that changes state is a method proved against a function, and the theorems are about
that function.

Places where the code does less than its text says, stated exactly:

- `words_per_row` is described as an alignment guard, but only dense5 checks it: with baseline2 a partial
  last word of a row is left out of the dot product. `MatvecDevice.RowSeenExactly` gives the condition on
  a row, `MatvecDevice.WholeRowsExactly` the one on the shape.
- The cleanup of a baud session keeps the body's error as the primary one against ordinary errors, but
  an interrupt raised by a cleanup step replaces it: `UartRecovery.PrimaryError` says exactly when,
  `UartRecovery.PrimaryErrorReplaced` gives an input.
- What the cleanup takes for the body's error is `sys.exc_info()`, which is also an exception being
  handled around the session. There a session can end without an error and with the rate unconfirmed:
  `UartRecovery.NormalExitExactly` and `UartRecovery.NormalButUnconfirmed`.
- The candidates are kept up to date by the switches of the body but not by the cleanup's own steps: a
  cleanup step that fails after the device has moved leaves it at the default, which then may be no
  candidate. `UartRecovery.CleanupCoveredExactly` gives the condition, that the default is a candidate when
  the cleanup begins, and `UartRecovery.CleanupUncovered` an input.
- The clock unwrapping recovers a gap exactly when it is below half the range or, below the range,
  crosses no wrap: `ReportRecords.UnwrapExact`. Any other gap is lost, as in `ReportRecords.GapLost`.
- The parser reads an alignment of four bytes whatever the key's type: from a flag it takes in the bytes
  of the next field (`GgufBuild.FlagWord`). The builder prints every integer array with four-byte
  elements whatever element type it names: `GgufBuild.PayloadSkipped` says which are read back,
  `GgufBuild.NarrowIntsMisread` shows one that is not.

`advance` is documented for up to 44 and up to 60 steps; `Lfsr.AdvanceExact` gives the exact condition up
to the 64 steps it accepts.

## Model

| member | source | states |
|---|---|---|
| `Arithmetic.DivRne` | tools/ffn_reference.py:100-106 | the result is within half a divisor of the exact quotient, and even on a tie |
| `Arithmetic.DivRneMonotone` | tools/ffn_reference.py:100-106 | rounding never reverses the order of two quotients, whatever their denominators |
| `Arithmetic.NearestEvenUnique` | tools/ffn_reference.py:89-106 | nearest with ties to even leaves one integer, so both rounding routines of the repository compute the same one |
| `Arithmetic.Isqrt` | tools/gf16_wide_reference.py:79 | the integer square root: r*r <= n < (r+1)*(r+1) |
| `Gf16.LatticeIncreasing` | tools/gf16_reference.py:19-29 | the finite magnitudes strictly increase with the code, the overflow point above them all |
| `Gf16.ValueIsFixed` | tools/gf16_reference.py:19-26 | the decoded value of every finite word, times 2^39, is the integer fixed(word), sign included |
| `Gf16.BisectLattice` | tools/gf16_wide_reference.py:40 | the binary search returns the first table index whose value reaches the target |
| `Gf16.EncodeRatioSearch` | tools/gf16_wide_reference.py:37-52 | the search and the single steps after it give the sign with the code specified by Encode, for every non-negative ratio |
| `Gf16.EncodeNearest` | tools/gf16_wide_reference.py:37-52 | Encode is a nearest lattice code of the ratio, even on a tie, infinity exactly from the overflow midpoint on |
| `Gf16.NearestCodeUnique` | tools/gf16_wide_reference.py:43-51 | nearest with ties to even determines the code, so EncodeNearest fixes the encoder completely |
| `Gf16.EncodeExact` | tools/gf16_wide_reference.py:37-52 | a ratio that equals a lattice value encodes to that value's code |
| `Gf16.RoundTrip` | tools/gf16_ffn_reference.py:14-20 | encoding fixed(word) / 2^39 with the word's sign gives the word back, for every finite word |
| `Gf16.EncodeSameRatio` | tools/gf16_wide_reference.py:37-52 | equal ratios encode alike however they are written |
| `Gf16.EncodeMonotone` | tools/gf16_wide_reference.py:37-52 | a larger ratio never gets a smaller code |
| `Binary32.PackNormal` | tools/gf16_reference.py:15-16 | in the normal range binary32 packing rounds the exact value to a 24-bit significand once, to nearest even |
| `Binary32.LargestFinite` | tools/gf16_reference.py:15-16 | infinity is the exponent field 255, and the word before it the greatest binary32 magnitude |
| `Binary32.EncodeWordIsRatio` | tools/gf16_reference.py:33-48 | the value-table encoder agrees with the ratio encoder on every finite binary32 word, infinities and signs included |
| `Gf16WideNormTheorems.ProductInDomain` | tools/gf16_wide_reference.py:28-34 | the product of two finite words packs without overflow and lands in the exponent domain that normalize demands, with up's sign |
| `Gf16WideNormTheorems.ProductRounded` | tools/gf16_wide_reference.py:32-34 | the product word is max(gate, 0)^2 * |up| rounded to 24 bits once; it is zero only for a zero product |
| `Gf16WideNormTheorems.MultiplyRoundsOnce` | tools/gf16_wide_reference.py:55-58 | the binary32 step of multiply is exact, so its result is the correctly rounded GF16 of the exact product |
| `Gf16WideNormTheorems.PackExact` | tools/gf16_wide_reference.py:32-34 | packing a value of at most 24 significant bits in the normal range loses nothing |
| `Gf16RowTheorems.ScaleIntegerNearest` | tools/gf16_wide_reference.py:24-25 | scale_integer is the value times a power of two rounded once to nearest even, for either sign of the shift |
| `Gf16RowTheorems.RadicandPositive` | tools/gf16_wide_reference.py:75-79 | mean + epsilon is positive for every row, also where epsilon rounds to zero |
| `Gf16RowTheorems.AssertionsHold` | tools/gf16_wide_reference.py:80-81 | every bound normalize asserts holds for every row its guards admit: magnitudes below 2^41, their squares below 2^95, mean + epsilon below 2^93, root in (0, 2^79) |
| `Gf16RowTheorems.BlockTight` | tools/gf16_wide_reference.py:71 | the block leaves no room: unless it is at its floor of -54 some lane has its leading bit at 2^40, so with the bound of 2^41 it is the least exponent that keeps every lane below the bound |
| `Gf16RowTheorems.LaneBelowRoot` | tools/gf16_wide_reference.py:82-83 | no lane of a row of at most 6912 exceeds 2^-25 of the root |
| `Gf16RowTheorems.UnitsFinite` | tools/gf16_wide_reference.py:82-83 | every unit word is finite and at most 128 in magnitude |
| `Gf16RowTheorems.NormalizeTotal` | tools/gf16_wide_reference.py:61-87 | normalize succeeds exactly on the rows its three guards admit |
| `Gf16RowTheorems.RowTotal` | tools/gf16_wide_reference.py:90-94 | a row succeeds exactly when its three inputs have one length in 1..6912 and only finite words: no inner guard is ever the reason it fails |
| `Gf16RowTheorems.MagnitudeMeaning` | tools/gf16_wide_reference.py:72-74 | each magnitude is the packed product rounded once to a multiple of 2^block |
| `Gf16RowTheorems.RowMeaning` | tools/gf16_wide_reference.py:61-94 | the block is the least exponent from -54 up that keeps every lane below 2^41, and every stage of every lane (product, magnitude, mean, epsilon, root, unit, output) is its exact value rounded once |
| `Gf16RowTheorems.RowOverflow` | tools/gf16_wide_reference.py:87 | the overflow count is zero exactly when every output word is finite |
| `Gf16WideNorm.CountConcat` | tools/gf16_wide_reference.py:87 | the overflow count is additive over lists; with CountOne, one for each word that is not finite |
| `Gf16WideNorm.CountOne` | tools/gf16_wide_reference.py:87 | one word counts exactly when it is not finite |
| `Gf16WideNorm.SumSquaresConcat` | tools/gf16_wide_reference.py:76 | the sum of squares is additive over lists; with SumSquaresOne, the sum of every lane's square |
| `Gf16WideNorm.SumSquaresOne` | tools/gf16_wide_reference.py:76 | one lane contributes its square |
| `Gf16WideNorm.EpsilonRounded` | tools/gf16_wide_reference.py:11 | the epsilon mantissa is 1e-5 in Q40, rounded to nearest |
| `Gf16WideNorm.LimitsArePowers` | tools/gf16_wide_reference.py:80-81 | the limits of the assertions are 2^41, 2^95, 2^93 and 2^79 |
| `Gf16Ffn.Accumulate` | tools/gf16_ffn_reference.py:42-51 | the accumulation loops return the row totals, or the first row's error |
| `Gf16FfnTheorems.QuantCodeMeaning` | tools/gf16_ffn_reference.py:26-30 | a code is the lane over the peak in 127ths rounded once, with the lane's sign, stays in [-127, 127], and is 127 or -127 for a lane of peak magnitude |
| `Gf16FfnTheorems.PeakLaneReturns` | tools/gf16_ffn_reference.py:27-32 | a lane whose magnitude is the peak is quantized and dequantized to its own word |
| `Gf16FfnTheorems.DequantizeFinite` | tools/gf16_ffn_reference.py:31-32 | a dequantized word is finite whenever the peak is at most a finite lane's magnitude |
| `Gf16FfnTheorems.ActQuantTotal` | tools/gf16_ffn_reference.py:23-33 | ActQuant succeeds exactly on finite vectors of length 1..6912: its own code guard is unreachable, and every lane has its stated meaning |
| `Gf16FfnTheorems.TotalsBounded` | tools/gf16_ffn_reference.py:43-51 | over at most 6912 finite words the totals fail only on a weight that is not ternary: the 2^84 accumulator guard is unreachable, and every total is the row's exact dot product |
| `Gf16FfnTheorems.ScaledMeaning` | tools/gf16_ffn_reference.py:52-59 | the dot words are the totals' words, and every output is finite and the correctly rounded dot times scale |
| `Gf16FfnTheorems.LinearMeaning` | tools/gf16_ffn_reference.py:36-59 | a projection of a finite vector by a ternary matrix fails only by overflow of a dot or a scaled dot; otherwise each output is two correct roundings of the exact row dot product |
| `Gf16FfnTheorems.LinearFails` | tools/gf16_ffn_reference.py:52-59 | a projection fails exactly where a row's dot product overflows, or else where a scaled one does |
| `Gf16FfnTheorems.NormOutcome` | tools/gf16_ffn_reference.py:71-73 | a norm of finite rows fails only on an overflowed output |
| `Gf16FfnTheorems.NormFails` | tools/gf16_ffn_reference.py:71-82 | a norm of finite rows fails exactly when one of its outputs overflows |
| `Gf16FfnTheorems.EvaluateOutcomes` | tools/gf16_ffn_reference.py:62-87 | on a well-formed model the whole block fails only by overflow at a place it names; no inner range or length guard is ever the reason |
| `Gf16FfnTheorems.EvaluateFails` | tools/gf16_ffn_reference.py:62-87 | a well-formed block succeeds exactly when no stage overflows, and fails with the error of the first that does |
| `Gf16FfnTheorems.EvaluateMeaning` | tools/gf16_ffn_reference.py:62-87 | whenever the block succeeds, every number of every stage it returns is its exact value from the stage before rounded once |
| `Gf16FfnTheorems.ConstantsMean` | tools/gf16_ffn_reference.py:10-11 | the gate of the first norm is one, and epsilon is 1e-5 in Q40, rounded to nearest |
| `ExpQ16.PolyFalls` | tools/attn_reference.py:110-116 | the polynomial for 2^-g, not monotone step by step, falls over any distance by at least half the distance less four |
| `ExpQ16.PolyRange` | tools/attn_reference.py:110-116 | 0 < p <= 2^32 for every remainder g |
| `ExpQ16.CoreFalls` | tools/attn_reference.py:105-118 | one step further below zero never raises the result, within a segment, into the next one, and into the next octave |
| `ExpQ16.CutOff` | tools/attn_reference.py:97-104 | at the threshold the formula gives zero, one before it does not |
| `ExpQ16.CutOffSkipsZeros` | tools/attn_reference.py:103-118 | past the threshold the formula itself gives zero, so the early return changes nothing |
| `ExpQ16.ExpRange` | tools/attn_reference.py:100-118 | for every delta <= 0 the result lies in [0, 65536], is 65536 at zero, and is zero exactly from the threshold on |
| `ExpQ16.ExpMonotone` | tools/attn_reference.py:100-118 | the result never rises as delta falls, over the whole domain |
| `ExpQ16.ExpWidths` | tools/attn_reference.py:105-118 | every product is non-negative and below 2^64, u below 2^53, and the subtraction never wraps |
| `ExpQ16.TableIsRounded` | tools/attn_reference.py:96 | each constant of the segment table is 2^(32 - j/16) rounded to nearest, decided by 16th powers |
| `ExpAccuracy.PolyTaylor` | tools/attn_reference.py:110-116 | the nested polynomial, floors and all, lies between the Taylor polynomials of 2^-x of degree three and four, within a unit and a half of Q32 |
| `ExpAccuracy.TaylorBounds` | tools/attn_reference.py:94-95 | without its floors the polynomial lies between those Taylor polynomials, within a tenth of a unit |
| `ExpAccuracy.MantissaNear` | tools/attn_reference.py:110-117 | in every segment, the first included, the mantissa lies between the table entry times those Taylor polynomials, within three units |
| `ExpAccuracy.ExpAccurate` | tools/attn_reference.py:100-118 | for every delta above the cut-off the result is 65536 * 2^-u, u = -delta * log2(e) / 65536, to within half a unit and three units of the 32-bit mantissa, 2^-u enclosed by the table entry times the Taylor polynomials |
| `ExpAccuracy.EnclosureNarrow` | tools/attn_reference.py:110-116 | the two Taylor polynomials differ by less than 1.6e-7, at most 650 units of Q32 |
| `ExpAccuracy.Log2EIsReciprocal` | tools/attn_reference.py:93 | the factor log2(e) is the reciprocal of ln 2 in Q32, rounded to nearest |
| `Attention.RmsPositive` | tools/attn_reference.py:316-319 | the root mean square is positive for every vector, so the norm never divides by zero |
| `Attention.DenominatorAtLeastOne` | tools/attn_reference.py:372-374 | the peak score contributes 65536, so the softmax denominator is at least that |
| `AttentionLoops.Accumulate` | tools/attn_reference.py:325-330 | the trit loop computes the exact ternary dot product |
| `AttentionLoops.Project` | tools/attn_reference.py:321-332 | the matvec loop gives one rounding and one clamp a row, and counts the clamped rows |
| `AttentionLoops.Rope` | tools/attn_reference.py:334-341 | the pair loop overwrites a copy of the vector with its clamped rotation |
| `AttentionLoops.RopeHeads` | tools/attn_reference.py:351-356 | head after head rotated and flattened |
| `AttentionLoops.Scores` | tools/attn_reference.py:363-371 | the raw scores are the scaled exact dot products with the cached key windows, each rounded once |
| `AttentionLoops.Context` | tools/attn_reference.py:377-379 | each context lane is the weighted sum over all cached positions over the denominator, rounded once |
| `AttentionLoops.OneHeadLoop` | tools/attn_reference.py:360-379 | the loops of one head compute its scores, softmax weights, probabilities and context |
| `AttentionLoops.HeadsLoop` | tools/attn_reference.py:359-379 | all heads of a position, each against its group's window of the caches |
| `AttentionLoops.PositionLoop` | tools/attn_reference.py:346-392 | one position: caches extended before any head reads them, every stage list appended, saturations added |
| `AttentionLoops.FpgaQ16` | tools/attn_reference.py:300-395 | the loop over positions returns the stage lists and saturation counts of Run |
| `AttentionPrefill.KvGroup` | tools/attn_reference.py:362 | consecutive groups of query heads share a window: heads g * group to (g + 1) * group - 1 read the g-th key head |
| `AttentionTheorems.ContextConvex` | tools/attn_reference.py:374-379 | each context lane lies between the least and the greatest attended value of that lane, rounding included |
| `AttentionTheorems.ContextNeverSaturates` | tools/attn_reference.py:377-379 | for every model, prefill and table no value of stage a saturates |
| `AttentionTheorems.Causal` | tools/attn_reference.py:345-392 | running only the first positions gives exact prefixes of every stage list and of both caches |
| `AttentionTheorems.CausalInputs` | tools/attn_reference.py:345-392 | the state after k positions depends only on the inputs and tables of those positions |
| `AttentionTheorems.SoftmaxMonotone` | tools/attn_reference.py:372-376 | a higher score never gets a lower probability |
| `AttentionTheorems.ProbabilityRange` | tools/attn_reference.py:374-376 | every probability lies between 0 and 65536 |
| `AttentionTheorems.ProbabilitiesSumToOne` | tools/attn_reference.py:374-376 | a head's probabilities sum to 65536 within half a unit a position |
| `AttentionTheorems.PositionZero` | tools/attn_reference.py:346-392 | at position 0 under the identity table rotation changes nothing, every probability is one and the context is v with each key head's values repeated for the query heads of its group |
| `AttentionTheorems.NormMeaning` | tools/attn_reference.py:310-319 | a normalised lane before clamping is its exact quotient rounded once, the divisor being the integer root of the rounded mean square plus epsilon |
| `AttentionTheorems.TritDotWidth` | tools/attn_reference.py:325-330 | a ternary dot product of n 32-bit values stays within n * 2^31 |
| `AttentionTheorems.DotWidth` | tools/attn_reference.py:365-368 | a dot product of n pairs of 32-bit values stays within n * 2^62 |
| `AttentionTheorems.TotalWidth` | tools/attn_reference.py:374 | the softmax denominator of n positions is at most n * 65536 |
| `AttentionTheorems.NumeratorWidth` | tools/attn_reference.py:378 | the weighted sum over n positions stays within n * 2^47 |
| `Attention.ClampNearest` | tools/ffn_reference.py:121-130 | clamping gives the nearest 32-bit value |
| `Attention.SaturatedOne` | tools/ffn_reference.py:121-130 | a value is counted exactly when clamping changes it |
| `AttentionLoops.SaturatedConcat` | tools/ffn_reference.py:121-130 | the counts of consecutive values add up |
| `Attention.SumSquaresConcat` | tools/attn_reference.py:316 | the sum of squares is additive over lists; with SumSquaresOne, the sum of every lane's square |
| `Attention.SumSquaresOne` | tools/attn_reference.py:316 | one lane contributes its square |
| `Attention.EpsilonRounded` | tools/ffn_reference.py:63 | epsilon is 1e-5 in Q32, rounded to nearest |
| `AttentionMeaning.NormIsNormed` | tools/attn_reference.py:310-319 | every lane of a norm is the input times its weight over the root mean square, rounded once and clamped |
| `AttentionMeaning.ProjectIsProjected` | tools/attn_reference.py:321-332 | every entry of a projection is the scale times the exact dot product of its own row, rounded once and clamped |
| `AttentionMeaning.RopeIsRotated` | tools/attn_reference.py:334-341 | every pair of every head is rotated by its table entry, each coordinate rounded once and clamped |
| `AttentionMeaning.HeadIs` | tools/attn_reference.py:360-379 | a head's scores, probabilities and context are each their exact expression rounded once |
| `AttentionMeaning.RunMeaning` | tools/attn_reference.py:345-392 | every value of every stage of a whole prefill is its exact value rounded once and clamped, against caches that hold exactly the keys and values of the positions up to it |
| `Hadamard.MixInPlace` | tools/generate-prism-hadamard-vectors.py:50-52 | the innermost loop replaces one block by the sums and differences of its halves and touches nothing else |
| `Hadamard.Level` | tools/generate-prism-hadamard-vectors.py:49-52 | one level of the loop is a butterfly of every block; it reaches past the end exactly when the length is no multiple of the block |
| `Hadamard.Fwht` | tools/generate-prism-hadamard-vectors.py:45-54 | the in-place loops give the transform on power-of-two lengths, the empty list on the empty list, and fail on every other length |
| `Hadamard.PassBlockwise` | tools/generate-prism-hadamard-vectors.py:48-53 | one more level turns the transforms of all blocks of h into those of all blocks of 2h |
| `Hadamard.TransformIsMatrixProduct` | tools/generate-hadamard-vectors.py:103-104 | entry k of the transform is the sum over j of (-1)^popcount(k & j) x[j] |
| `Hadamard.TransformLinear` | tools/generate-prism-hadamard-vectors.py:45-54 | the transform of a linear combination is the combination of the transforms |
| `Hadamard.TransformTwice` | tools/generate-hadamard-vectors.py:97-105 | applied twice the transform multiplies every lane by the length |
| `Hadamard.AndPredecessor` | tools/generate-prism-hadamard-vectors.py:59 | n & (n - 1) is zero exactly on powers of two |
| `Hadamard.DivisorExact` | tools/generate-prism-hadamard-vectors.py:57-62 | the divisor is nonzero exactly on powers of four, where it is the square root |
| `Hadamard.RotationInverse` | tools/generate-prism-hadamard-vectors.py:69-74 | wherever the rotation is defined, an identity-sign rotation undoes it up to the signs |
| `Hadamard.RotationInvolution` | tools/generate-hadamard-vectors.py:97-105 | with identity signs the rotation is its own inverse over the rationals |
| `Hadamard.RotationValue` | tools/generate-prism-hadamard-vectors.py:69-74 | each lane of the rotation, times the positive root of the length, is the row of the sign matrix times the signed input |
| `TritCodec.DecodeGroup` | tools/bram_trit_model.py:88-89 | the digit loop places the lanes of one valid group above those already decoded |
| `TritCodec.DecodePairsOfBits` | tools/bram_trit_model.py:77-84 | the two-bit loop clears every lane 11 and counts them |
| `TritCodec.DecodeBytes` | tools/bram_trit_model.py:85-91 | the byte loop decodes every dense5 byte below 243 and counts the others |
| `TritCodec.DenseRoundTrip` | tools/bram_trit_model.py:60-62 | dense5 bytes of valid lanes are below 243 and decode to those lanes |
| `TritCodec.DenseBack` | tools/bram_trit_model.py:85-91 | valid dense5 bytes are the encoding of what they decode to |
| `TritCodec.CodesOfTrit` | tools/bram_trit_model.py:48-70 | a trit's lane code is the trit modulo three and its digit the trit plus one, and both are read back |
| `BramTritEngine.Dense5IsGroup` | tools/bram_trit_model.py:158-159 | a group's code is the base-three number of its trits plus one |
| `Lfsr.AdvanceLoop` | tools/bram_trit_model.py:32-36 | the loop sets every new top bit to the parity of the original state's bits |
| `Lfsr.StepsWindow` | tools/bram_trit_model.py:25-30 | after n single steps the state is bits n to n + 63 of the output stream |
| `Lfsr.AdvanceExact` | tools/bram_trit_model.py:24-36 | one call of advance is n single steps exactly when the first n - 60 feedback bits are zero, so always up to 60 |
| `Lfsr.AdvanceCompose` | tools/bram_trit_model.py:24-36 | advances compose by addition |
| `Lfsr.StepsInjective` | tools/bram_trit_model.py:27-28 | no two states lead to one state, so no nonzero seed reaches zero |
| `Lfsr.LanesOfState` | tools/bram_trit_model.py:39-45 | the lanes cut from the state after 2n steps are trits n, n + 1, ... of the stream |
| `Lfsr.StreamTrits` | tools/bram_trit_model.py:265-273 | the reference list is the stream's trits in order |
| `LfsrNumbers.StepNumber` | tools/bram_trit_model.py:27-28 | one step on integers: s >> 1 with the parity of bits 0, 1, 3 and 4 as the new top bit |
| `LfsrNumbers.FeedbackNumber` | tools/bram_trit_model.py:33-35 | feedback bit k of an advance is the parity of bits k, k + 1, k + 3 and k + 4 |
| `BramTrit.DecodeWord` | tools/bram_trit_model.py:73-99 | the decoder's loops return the packed lanes and the invalid groups of the low 36 bits, in all three formats |
| `BramTrit.RoundTrip` | tools/bram_trit_model.py:56-99 | every list of valid lanes has a 36-bit word, which decodes to it with no invalid group |
| `BramTrit.RoundTripBack` | tools/bram_trit_model.py:56-99 | a word with no invalid group is the encoding of its lanes; dense5 alone ignores the top nibble |
| `BramTrit.EncodeFails` | tools/bram_trit_model.py:56-66 | encoding fails exactly where a base-three format looks up the digit of a lane code 3 |
| `BramTritEngine.LanesFrom` | tools/bram_trit_model.py:39-45 | the loop packs two stream bits a lane, 11 read as zero |
| `BramTritEngine.EngineResults` | tools/bram_trit_model.py:111-136 | in every format the counts and the dot product are those of the first words * lanes trits of the stream, and the asserted round trip holds for every word |
| `BramTritEngine.Bench` | tools/generate-bram-bench.py:205-227 | over any multiple of 1980 trits the three formats report the same counts and dot product |
| `BramTritEngine.PairWords` | tools/bram_trit_model.py:162-177 | pairs are made exactly of whole groups of 45 trits; other lengths and other values are errors |
| `BramTritEngine.DecodePair` | tools/bram_trit_model.py:180-189 | both words and the shared parity byte decoded, invalid groups of all three counted |
| `BramTritEngine.PairRoundTrip` | tools/bram_trit_model.py:162-189 | a pair decodes to the 45 lanes it was made of with no invalid group |
| `Ddr3Codec.DecodeWord` | tools/ddr3_read_model.py:131-149 | the decoder's loops return the packed lanes and the invalid groups in both layouts |
| `Ddr3Codec.WordRoundTrip` | tools/ddr3_read_model.py:120-149 | valid lanes are decoded from their 128-bit word with no invalid group |
| `Ddr3Codec.WordRoundTripBack` | tools/ddr3_read_model.py:120-149 | a word with no invalid group is the encoding of its lanes |
| `Ddr3Codec.WordIsBytes` | tools/ddr3_read_model.py:121-128 | in both layouts the stored word is its sixteen payload bytes, byte 0 lowest |
| `Ddr3Codec.EncodeFails` | tools/ddr3_read_model.py:120-128 | encoding fails exactly where dense5 looks up the digit of a lane code 3 |
| `Ddr3Pattern.LinLoop` | tools/ddr3_pattern_model.py:37-43 | the loop over the triples computes Lin |
| `Ddr3Pattern.LinLinear` | tools/ddr3_pattern_model.py:13-15 | Lin is linear over GF(2) |
| `Ddr3Pattern.LinBijective` | tools/ddr3_pattern_model.py:13-15 | an explicit inverse undoes Lin from both sides |
| `Ddr3Pattern.DataDistinct` | tools/ddr3_pattern_model.py:57-59 | under one key two data words are equal exactly when address and word number are, modulo 2^32 |
| `Ddr3Pattern.ComplementFlips` | tools/ddr3_pattern_model.py:62-67 | the complement pass stores the opposite of every bit of every burst |
| `Ddr3Pattern.AliasShows` | tools/ddr3_pattern_model.py:14-17 | bursts of two addresses differ in every 64-bit word |
| `Ddr3Pattern.RoundKeysDistinct` | tools/ddr3_pattern_model.py:50-54 | two rounds of one load have the same key exactly when they agree modulo 2^32 |
| `Ddr3Pattern.PairKeysDistinct` | tools/ddr3_read_model.py:67-70 | two run pairs have the same key exactly when seed and pair agree modulo 2^32 |
| `Ddr3Numbers.LinNumber` | tools/ddr3_pattern_model.py:34-43 | the mixer is the nine steps x ^= x << 13, x ^= x >> 7 and so on, on 64-bit integers |
| `Ddr3Numbers.RoundKeyNumber` | tools/ddr3_pattern_model.py:50-54 | a round key is the scrambled base plus the round in both halves, modulo 2^64 |
| `Ddr3Numbers.PairKeyNumber` | tools/ddr3_read_model.py:67-70 | a pair key is the scrambled seed above the pair number |
| `Ddr3Numbers.DataNumber` | tools/ddr3_pattern_model.py:57-59 | a data word is the key or its complement xored with the mixed word number above the address |
| `Ddr3Read.MixBijective` | tools/ddr3_read_model.py:79-81 | the nonlinear step mix has an explicit two-sided inverse |
| `Ddr3Read.PostBijective` | tools/ddr3_read_model.py:84-85 | the nonlinear step post has an explicit two-sided inverse |
| `Ddr3Read.StepsNotLinear` | tools/ddr3_read_model.py:20-26 | neither mix nor post is linear over GF(2) |
| `Ddr3Read.BlockWordsDistinct` | tools/ddr3_read_model.py:88-89 | distinct block indices below 2^64 have distinct generator words |
| `Ddr3Read.CleanLane` | tools/ddr3_read_model.py:73-76 | the mask expression clears exactly the lanes 11 of the low 32 bits |
| `Ddr3Numbers.BlockRawNumber` | tools/ddr3_read_model.py:73-89 | a generator block is the low half of the key xored with mix, lin and post of its index, cleaned, as the integer expression has it |
| `Bits.RotationByShifts` | tools/ddr3_read_model.py:152-154 | the shifts of rotl rotate, n = 0 included |
| `RotXor.ChecksumIsTurnedXor` | tools/ddr3_read_model.py:176-225 | the running rotate-xor equals the xor of the words, word i rotated by n - 1 - i, for every list |
| `RotXor.TurnedReduce` | tools/ddr3_read_model.py:222-225 | the array form of the checksum computes the running one |
| `Ddr3Runs.WordLanes` | tools/ddr3_read_model.py:100-109 | the lanes of a word are the stream's, zero from the end of the region on |
| `Ddr3Runs.PaddingCountsNothing` | tools/ddr3_read_model.py:107-109 | padding lanes change no count and no dot product |
| `Ddr3Runs.Tally` | tools/ddr3_read_model.py:167-175 | counting by place in the word gives the counts and the dot product by global index |
| `Ddr3Runs.RunResults` | tools/ddr3_read_model.py:157-178 | the word-by-word report is the region's counts, dot product and checksum of stored bytes; its assert never fails |
| `Ddr3Runs.SizesReported` | tools/ddr3_read_model.py:92-97 | the least words for the trits, the least bytes for the trits, and a padding of 0 to 15 bytes |
| `Ddr3Fast.BlockWords` | tools/ddr3_read_model.py:196-202 | the in-place array steps compute every block's generator word |
| `Ddr3Fast.LaneArray` | tools/ddr3_read_model.py:203-210 | the lane array is the region's lanes, zero past its end |
| `Ddr3Fast.MaskedSums` | tools/ddr3_read_model.py:211-214 | masked sums give the counts and the dot product |
| `Ddr3Fast.RunResultsFast` | tools/ddr3_read_model.py:189-226 | the array report equals the word-by-word report for every layout, key and length |
| `Ddr3Fast.PairRuns` | tools/ddr3_read_model.py:229-243 | both layouts of a pair report the same counts and dot product, whichever way they are computed |
| `MatvecDevice.StoredExact` | tools/matvec_device_model.py:85-95 | an activation survives its stored byte exactly when it is an int8 |
| `MatvecDevice.ActWords` | tools/matvec_device_model.py:78-91 | sixteen columns a word, eight bytes a half, zeros past the last column |
| `MatvecDevice.LaneWord` | tools/matvec_device_model.py:49-56 | the gather packs 80 lanes, zero past the end, and fails exactly on a value that is no trit |
| `MatvecDevice.DotChunk` | tools/matvec_device_model.py:98-105 | eight lanes against one half word are the next eight terms of the row's dot product |
| `MatvecDevice.WordDot` | tools/matvec_device_model.py:122-127 | a word's sub-dots are the next terms of the row, and its decode never reports an invalid group |
| `MatvecDevice.RunExpectation` | tools/matvec_device_model.py:108-131 | shape errors come in the code's order; then it fails exactly when a word it gathers holds a value that is no trit, and otherwise every accumulator is the plain dot product of the columns the device reads and no word is bad |
| `MatvecDevice.RowSeenExactly` | tools/matvec_device_model.py:118-128 | a row of any matrix is computed in full exactly when its columns past the last whole word contribute zero |
| `MatvecDevice.WordsOfRow` | tools/matvec_device_model.py:33-37 | words a row: of dense5 those it fills exactly or none, of baseline2 those that fit |
| `MatvecDevice.WholeRowsExactly` | tools/matvec_device_model.py:33-37 | every row of every matrix of a shape is computed in full exactly when the columns fill whole words; baseline2 does not check it |
| `MatvecDevice.PaddedRow` | tools/fpga-matvec-run.py:103-106 | row r of the padded matrix is row r followed by zeros |
| `MatvecDevice.PaddedRun` | tools/fpga-matvec-run.py:97-107 | padded to a multiple of 320, both formats compute the unpadded dot product and the 40-bit report restores it |
| `MatvecDevice.Signed40Exact` | tools/fpga-ddr3-matvec-measure.py:59-60 | the 40-bit report restores an accumulator exactly when it fits 40 signed bits |
| `Netlist.LongestAtStart` | tools/fpga-build-report.py:226-240 | a net not driven by a through cell has the empty path or none |
| `Netlist.StepLongest` | tools/fpga-build-report.py:234-238 | the longest value of a through cell's output is the greatest of its inputs' plus its own level |
| `Netlist.LongestUnique` | tools/fpga-build-report.py:221-242 | a net has one longest value |
| `Netlist.AcyclicInput` | tools/fpga-build-report.py:234-238 | where no cycle lies behind a through cell's output, none lies behind its inputs |
| `Netlist.AcyclicEverywhere` | tools/fpga-build-report.py:221-242 | on a netlist with a topological order no net has a cycle behind it, so every result is exact |
| `PhyDepth.Drivers` | tools/fpga-build-report.py:212-218 | each net maps to the last cell with an output on it |
| `PhyDepth.Search.Depth` | tools/fpga-build-report.py:221-242 | terminates on every netlist with each key entered once; a result of zero or more is a real path's level count; for a net with no cycle behind it, it is the longest, -1 if there is no path, whatever cycles the rest of the netlist has and whatever was searched before |
| `PhyDepth.Search.Inner` | tools/fpga-build-report.py:235-237 | the greatest result among a through cell's inputs |
| `PhyPaths.ClassMeans` | tools/fpga-build-report.py:203-204 | the classes are exactly the four flip-flops, the four PHY primitives, and the LUTs and inverters that count a level and the three cells that count none |
| `PhyPaths.PathMeans` | tools/fpga-build-report.py:221-242 | a path of the driver graph is a path told by cells, ports and bits alone, with the same level count |
| `PhyPaths.CycleMeans` | tools/fpga-build-report.py:221-242 | a cycle behind a net is one told by cells, ports and bits alone |
| `PhyReport.PortKeyMeans` | tools/fpga-build-report.py:257 | a port is reported under its cell's type and its own name, the digits at the end of a tap count's name left out |
| `PhyReport.EndpointNamed` | tools/fpga-build-report.py:247-262 | the reported bits are exactly the input bits of the PHY primitives and, their clocks apart, of the flip-flops |
| `PhyReport.PhyPathLevels` | tools/fpga-build-report.py:207-272 | every entry into a PHY primitive is the level count of a real path from a flip-flop to an input bit of it, every entry out of one that of a path from a PHY primitive to a flip-flop input other than its clock, and no such path into a bit with no cycle behind it has more; likewise from flip-flop to flip-flop |
| `Gguf.SkipLoop` | tools/bitnet_audit.py:83-98 | the walk over a value, nested arrays included, ends at Skip's position or fails with it, at a text that is not UTF-8 too |
| `Gguf.ParseLoop` | tools/bitnet_audit.py:77-115 | the loops return the records of Parse, or its error; a name that is not UTF-8 is one |
| `GgufUtf8.Utf8Exactly` | tools/bitnet_audit.py:83-85 | the bytes that decode are exactly the UTF-8 encodings of lists of characters, no overlong form and no surrogate |
| `GgufBuild.ScalarsSkipped` | tools/bitnet_audit.py:81-89 | a scalar value of each of the eleven types is stepped over by the bytes it takes |
| `GgufBuild.NoOtherScalar` | tools/bitnet_audit.py:81 | no other type number is a scalar's |
| `GgufBuild.AlignUpLeast` | tools/bitnet_audit.py:114 | the data start is the least multiple of the alignment from the end of the records on |
| `GgufBuild.AlignmentKeyText` | tools/bitnet_audit.py:104 | the alignment is read from the key of exactly that name |
| `GgufBuild.Build` | tools/generate-prism-hadamard-vectors.py:141-149 | the grown and padded bytes are Print of the keys and tensors, and the size adds the data length |
| `GgufBuild.ParsePrint` | tools/bitnet_audit.py:77-115 | parsing what the builder prints gives exactly its tensors, offsets moved by the end of the records rounded up to the alignment read; a text that is not UTF-8, an alignment cut short and an alignment of zero are the only errors |
| `GgufBuild.PayloadSkipped` | tools/bitnet_audit.py:87-98 | the walk ends a printed payload where it ends exactly when its texts are UTF-8 and an integer array has four-byte elements or none |
| `GgufBuild.NarrowIntsMisread` | tools/bitnet_audit.py:94-95 | a concrete array of one one-byte element, printed with four bytes, is stepped over three bytes short |
| `GgufBuild.PlainAlignment` | tools/bitnet_audit.py:104-105 | without a flag of that name the alignment read is the first four payload bytes of the last key named general.alignment, 32 if there is none |
| `GgufBuild.FlagWord` | tools/bitnet_audit.py:104-105 | an alignment read from a flag takes in the three bytes after it, and fails where there are none |
| `GgufBuild.DataStart` | tools/generate-prism-hadamard-vectors.py:147-149 | under the default alignment the data start is the printed length |
| `GgufRelabel.Cursor.SkipOne` | tools/gguf-relabel-check.py:24-30 | the cursor steps over a value or fails on an unknown type or a short buffer |
| `GgufRelabel.Cursor.RecordStep` | tools/gguf-relabel-check.py:35-38 | one record's type is rewritten in place when it matches, nothing else |
| `GgufRelabel.RelabelLoop` | tools/gguf-relabel-check.py:18-39 | the loops over keys and records compute Relabel, bytes and count |
| `GgufRelabelTheorems.SkipAgrees` | tools/gguf-relabel-check.py:22-30 | a value the relabeller steps over, the parser steps over to the same place, unless it stops at a text of that value that is not UTF-8 |
| `GgufRelabelTheorems.OnlyTypesChange` | tools/gguf-relabel-check.py:35-38 | no byte outside the type fields of the renamed records changes |
| `GgufRelabelTheorems.RelabelCommutes` | tools/gguf-relabel-check.py:18-39 | wherever relabelling succeeds, parsing its output gives the parse of its input with the types renamed, or the same error; the count is of the renamed records |
| `GgufRelabelPrinted.RelabelPrint` | tools/gguf-relabel-check.py:18-39 | every header the builder prints is relabelled without an error, names that are not UTF-8 included, all records or none counted by the type asked for, and its output parses to the input's tensors with the type renamed |
| `UartRecovery.Manager.Switch` | tools/uart_session.py:16-19 | while the rate step runs both endpoints are the newest candidates, as its log entry records; a confirmed switch leaves the destination alone |
| `UartRecovery.Manager.WithRestoring` | tools/uart_session.py:21-39 | body and cleanup together leave the device, the candidates, the log and the outcome that Body, Recover and Final say, whatever exception is being handled around the session |
| `UartRecovery.BodyCovered` | tools/uart_session.py:14-19 | throughout every body, while a switch runs and between switches, the device's true rate is among the candidates, however the switches fail |
| `UartRecovery.CleanupCovered` | tools/uart_session.py:26-33 | over the cleanup the device stays at a candidate or the default, and the candidates stay as they are |
| `UartRecovery.CleanupCoveredExactly` | tools/uart_session.py:14-33 | the device's true rate stays among the candidates over the cleanup, whatever the line does, exactly when the default is a candidate as the cleanup begins |
| `UartRecovery.CleanupUncovered` | tools/uart_session.py:26-33 | a concrete cleanup leaves the device at the default, which is no candidate there and is never probed |
| `UartRecovery.RestoredExactly` | tools/uart_session.py:26-33 | the cleanup is restored exactly when its last step was a confirmed one to the default |
| `UartRecovery.NormalExit` | tools/uart_session.py:23-36 | a session ends without an error exactly when its body did and the device is confirmed at the default, or every candidate failed while another exception was being handled around it |
| `UartRecovery.NormalExitExactly` | tools/uart_session.py:23-36 | whatever the line does, a session that ends without an error after a normal body has the device confirmed at the default, exactly when no other exception is being handled around it |
| `UartRecovery.NormalButUnconfirmed` | tools/uart_session.py:24-36 | a concrete session inside a handler ends without an error at an unconfirmed rate |
| `UartRecovery.PrimaryError` | tools/uart_session.py:24-39 | the body's error is replaced exactly when some cleanup step, all before it having failed with ordinary errors, raises another interrupt |
| `UartRecovery.PrimaryErrorKept` | tools/uart_session.py:37-39 | on a line that raises no interrupt during the cleanup the body's error always leaves the session |
| `UartRecovery.PrimaryErrorReplaced` | tools/uart_session.py:24-32 | a concrete interrupt during the cleanup takes the place of the body's ordinary error |
| `UartRecovery.HonestRestores` | tools/uart_session.py:26-33 | if every step touching the device's true rate is confirmed, the cleanup restores the default within one call a candidate |
| `UartRecovery.SessionRestores` | tools/uart_session.py:7-39 | on a line honest during the cleanup every session ends at the default with the body's own outcome |
| `UartRecovery.SwitchOrder` | tools/uart_session.py:16-17 | a switch puts its destination first among the candidates and, unless it is confirmed, its origin next |
| `UartRecovery.DedupeOrder` | tools/uart_session.py:17 | the candidates keep the order of their first occurrence |
| `UartRecovery.CleanupOrder` | tools/uart_session.py:26-29 | the cleanup steps from the candidates, in their order, to the default |
| `UartRecovery.DestinationProbedFirst` | tools/uart_session.py:12-14 | after a switch the cleanup probes its destination first |
| `UartSwitch.Link.SetRate` | tools/fpga-uart-loader.py:408-427 | a positive reply means device and host are at the new rate; without one the host has not moved; the device moves exactly when it hears and accepts the frame at its own rate |
| `UartSwitch.Link.Status` | tools/fpga-uart-loader.py:287-309 | an answered status request shows the device at the host's rate; three are asked before giving up |
| `UartSwitch.Link.BackToDefault` | tools/fpga-uart-loader.py:633-652 | a reported switch is true even when its ack was lost; a failure, after twelve exchanges, leaves the host at the old rate and the device at one of the two |
| `ReportBlocks.DecodeLoop` | tools/fpga-ddr3-capture.py:158-214 | the loop with its block, its last number and its problem list computes Decoded, for passes and for runs |
| `ReportBlocks.HeaderLine` | tools/fpga-ddr3-capture.py:162-170 | a header line, G or q, sets the order: five lines a pass, thirteen a run, fourteen from reader format 2 on |
| `ReportTheorems.BlocksDecode` | tools/fpga-ddr3-capture.py:171-204 | complete blocks numbered in sequence decode to those blocks in order, with nothing recorded and nothing left over |
| `ReportTheorems.ReportDecodes` | tools/fpga-ddr3-capture.py:162-204 | a header and numbered blocks from zero decode without a problem |
| `ReportTheorems.LostLine` | tools/fpga-ddr3-capture.py:171-214 | any one line missing from any block leaves a recorded problem or a partial last block |
| `ReportTheorems.ProblemsStay` | tools/fpga-ddr3-capture.py:173-183 | the number of recorded problems never falls |
| `ReportTheorems.OthersIgnored` | tools/fpga-ddr3-capture.py:162-209 | lines that are neither blocks nor headers change no block, wherever they come |
| `ReportRecords.PassRoundTrip` | tools/fpga-ddr3-capture.py:184-204 | the fields of a pass are read back from its five lines |
| `ReportRecords.FirstFailRead` | tools/fpga-ddr3-capture.py:197-199 | a burst number of thirty-two ones stands for no failure, any other for the first failing burst |
| `ReportRecords.RunRoundTrip` | tools/fpga-ddr3-capture.py:312-346 | the fields of a run, the signed 64-bit dot product among them, are read back from its 13 or 14 lines |
| `ReportRecords.PassesDecode` | tools/fpga-ddr3-capture.py:158-214 | reported passes are decoded as they were, in order |
| `ReportRecords.RunsDecode` | tools/fpga-ddr3-capture.py:286-346 | reported runs are decoded as they were, in order, in both reader formats |
| `ReportRecords.Unwrap` | tools/fpga-ddr3-capture.py:498-504 | the loop's values rise by Rise between readings, and the wraps are counted |
| `ReportRecords.RiseExact` | tools/fpga-ddr3-capture.py:500-503 | the gap between two rising counts is recovered exactly when it is below 2^39, or below 2^40 and crosses no multiple of 2^40 |
| `ReportRecords.UnwrapExact` | tools/fpga-ddr3-capture.py:496-504 | a whole run of rising counts is recovered up to one multiple of 2^40 exactly when every gap is |
| `ReportRecords.GapLost` | tools/fpga-ddr3-capture.py:500-504 | a concrete gap of 2^40 - 1 across a wrap is lost |
| `BramLayout.NStarFrom` | tools/bram-layout-study.py:37-43 | whatever the floating start, the two loops end at the most trits with 3^n <= 2^bits |
| `BramLayout.Superadditive` | tools/bram-layout-study.py:37-43 | two groups never hold more than their bits together could |
| `BramLayout.FillsSum` | tools/bram-layout-study.py:49-58 | a list the search fills a word with has exactly the word's bits |
| `BramLayout.LayoutBound` | tools/bram-layout-study.py:46-54 | no split of a word holds more trits than the word's own bound |
| `BramLayout.Search.Walk` | tools/bram-layout-study.py:51-58 | the recursion adds exactly the layouts that complete the sizes chosen so far |
| `BramLayout.Layouts` | tools/bram-layout-study.py:46-61 | the result is exactly the layouts: useful sizes, larger first, that fill the word and reach its bound |
| `BramLayoutDecode.Decode` | tools/bram-layout-study.py:104-116 | the result is the packed lanes with the count of invalid groups joined to them at bit 48, under any layout and word |
| `BramLayoutDecode.JoinedParts` | tools/bram-layout-study.py:104-116 | up to 24 trits a word the lanes and the count are both read back from the result |
| `BramLayoutDecode.LayoutRoundTrip` | tools/bram-layout-study.py:5-7 | every layout stores every list of trits: the word fits, and decodes to them with no invalid group |
| `WasmMul.WideExact` | native/wasm_formats.c:78-85 | tf_wasm_mul64 is the whole 128-bit product: none of its 64-bit operations wraps |
| `WasmMul.Multi3Exact` | native/wasm_formats.c:87-90 | __multi3 is the product modulo 2^128 |
| `ChaCha.QuarterInverts` | tools/graph_memory_vectors.py:175-179 | a quarter round at distinct places has a two-sided inverse |
| `ChaCha.RoundsPermute` | tools/graph_memory_vectors.py:181-183 | any number of quarter rounds in the code's order permutes the 16-word states |
| `ChaCha.RoundsInPlace` | tools/graph_memory_vectors.py:173-183 | the rounds on the mutable list are the 80 quarter rounds in order |
| `ChaCha.ChaChaBlock` | tools/graph_memory_vectors.py:170-184 | the block is the little-endian sum of the permuted state and the state, the counter entering at its full width |
| `ChaCha.CounterWord` | tools/graph_memory_vectors.py:171 | the counter's word stands for it at any width; below 2^32 it is the plain word of RFC 8439 and every word of the state is 32 bits wide |
| `ChaCha.ChaChaXor` | tools/graph_memory_vectors.py:187-192 | the loop is the data xored block by block with rising counters, past 2^32 too |
| `ChaCha.StreamTwice` | tools/graph_memory_vectors.py:187-192 | the stream applied twice gives the data back, at every length |
| `ChaChaNumbers.QuarterNumbers` | tools/graph_memory_vectors.py:175-179 | a quarter round on the state's numbers is that of RFC 8439, section 2.1, with rotations by 16, 12, 8 and 7, and leaves the other twelve words alone |
| `ChaChaNumbers.ColumnsAndDiagonals` | tools/graph_memory_vectors.py:181-183 | of every eight quarter rounds the first four take the columns and the last four the diagonals |
| `ChaChaNumbers.StateLayout` | tools/graph_memory_vectors.py:171-172 | the state is the text expand 32-byte k, eight key words, the counter and three nonce words, each little-endian in its place |
| `ChaChaNumbers.BlockBytes` | tools/graph_memory_vectors.py:184 | byte j of word i of a block is digit j of the word after eighty quarter rounds plus the word before them |
| `ChaChaNumbers.XorByteNumber` | tools/graph_memory_vectors.py:191 | the stream's xor of two bytes is that of their numbers |
| `Poly1305.Accumulate` | tools/graph_memory_vectors.py:198-201 | the accumulator loop is the message's block polynomial at r modulo 2^130 - 5 |
| `Poly1305.Tag` | tools/graph_memory_vectors.py:195-202 | the tag is that residue plus the key's second half, modulo 2^128, little-endian |
| `Poly1305.BlockNumberInjective` | tools/graph_memory_vectors.py:200-201 | the byte after a block marks its length: blocks with one number are one block |
| `Poly1305.CoefficientsDetermine` | tools/graph_memory_vectors.py:199-201 | messages with the same coefficients are the same message |
| `Poly1305.ClampedBits` | tools/graph_memory_vectors.py:196 | clamping clears exactly the top four bits of bytes 3, 7, 11 and 15 and the low two of bytes 4, 8 and 12 |
| `Poly1305.BlockNumberIs` | tools/graph_memory_vectors.py:200-201 | a block's number is its bytes, little-endian, with a one above them |
| `Poly1305.ResidueIs` | tools/graph_memory_vectors.py:198-201 | the modulus is 2^130 - 5 |
| `Envelope.MacDataInjective` | tools/graph_memory_vectors.py:205-212 | the authenticated bytes determine associated data and ciphertext |
| `Envelope.MacDataLayout` | tools/graph_memory_vectors.py:205-212 | associated data and ciphertext lie in order, each padded with zeros to a multiple of sixteen, their lengths after them |
| `Envelope.Seal` | tools/graph_memory_vectors.py:209-213 | block zero keys the tag over associated data and ciphertext, the stream from block one covers the text |
| `Envelope.SealOpens` | tools/graph_memory_vectors.py:209-213 | the stream turns the sealed ciphertext back into the text |
| `Envelope.AadInjective` | tools/graph_memory_vectors.py:216-217 | different record scopes have different associated data |
| `Envelope.AadLayout` | tools/graph_memory_vectors.py:216-217 | the text TGA1, the kind, three zeros and each number of the scope little-endian in its place |
| `Envelope.EnvelopeOpens` | tools/graph_memory_vectors.py:220-247 | an envelope's fields lie where a reader looks, its header passes exactly for a nonzero key version and a text within the limit, and its ciphertext opens to the text |

## Left out

- Floating-point conversions (`to_q`, RoPE cosine and sine tables, the f64 oracles and their comparison): weights, scales and tables are arbitrary Q16.16 integers.
- The FFN reference in Q16.16 (`rmsnorm_q16`, `rmsnorm_wide`, `clamp_s64` of tools/ffn_reference.py): the same norm shapes as the attention path with other widths.
- The order of saturation events: the model counts them per stage, as the returned report does.
- ExpAccuracy.ExpAccurate: real exponentials are not part of the model; 2^-x is enclosed by its Taylor polynomials with ln 2 to eleven places, and 2^(-j/16) by the table entries, whose rounding TableIsRounded proves.
- Python's recursion limit on deeply nested GGUF arrays.
- GgufBuild.ParsePrint: takes keys whose integer arrays have four-byte elements or none. Any other integer array is printed at one width and read at another (GgufBuild.PayloadSkipped), and what the walk makes of the bytes after it is not followed.
- GgufBuild.Build: the packing errors for lengths and numbers too wide for their fields are a precondition.
- Time stamps, megabytes per second, clean flags, totals and the comparison with the board model in the report decoders; the two halves of a run's checksum are kept apart.
- ReportBlocks.DecodeLoop: models one list of block lines and headers; timeouts, end lines and the other header fields carry no state of the blocks.
- The checks a run report is put through after decoding, and the least-squares clock fit.
- Netlist attributes other than cell types, port directions and connected bits; the notes in the report.
- PhyReport.PhyPathLevels: for an endpoint with a cycle behind it only soundness of the reported level is stated, there being no longest path in general.
- The UART frame codec and the device's side of the protocol: an exchange is heard or not, accepted or not, answered or not, in every combination, and the device may fall back to its built-in rate at any exchange.
- numpy's own operations: an array step is an elementwise loop in place.
- The `fold` and `popcount` helpers of the pattern test, the matrix store's output order and results of tools/bram_trit_model.py, and `words_of_trits`.
- ChaCha.ChaChaBlock: keys of 32 bytes and nonces of 12; the errors of unpacking others are a precondition.
- HMAC, HKDF, the scope and lifetime rules and everything else of the graph memory vectors.
- Generators of t27 and Verilog text, board runners, servers, release and evidence scripts.
