# Literal cost estimation over a sliding window (brotli encoder)

This project models `EstimateBitCostsForLiterals` from the brotli encoder's
literal cost model. It also proves what that routine promises.

The routine reads `len` bytes of a ring buffer. Logical position `i` is stored
at physical index `(pos + i) & mask`. For each position it estimates how many
bits the byte would cost to send as a literal, and it writes the estimate into
`cost` at the same physical index. The estimate is computed from a
byte-frequency histogram over a window of up to 2 × 2000 bytes around the
position. The largest count in the window comes from an ordered set of
`(count, byte)` pairs.

The model is imperative, like the source.

- `LiteralCost.EstimateBitCostsForLiterals` is a method over a `cost` array.
  It calls `Bootstrap` for the two bootstrap loops.
  It calls `ScoreAll` for the main loop, whose body is `Step`.
  `Step` calls `Slide` (built from `SlideOut` and `SlideIn`) and then `Score`.
- The histogram is an `array<int>` of 256 entries.
- `in_window` is an integer that is incremented and decremented.
- The ordered set `histo_values` is a `set<(int, int)>`. It is updated by
  erase/insert as the source does, and its largest pair is found by `MaxPair`.
- A cost is not evaluated as a floating-point number. It is a `BitCost`
  datatype that records which formula was chosen and its integer arguments:
  - `Flat` is the flat cost 1.
  - `FlatPlusLog(n, d)` is `1 + log2(n/d)`.
  - `LogPlus029(n, d)` is `log2(n/d) + 0.029`.

The methods are specified against ghost functions:

- `Stream` is the logical byte stream read through the mask.
- `Histo` is the histogram of a window.
- `Mirror` is the ordered set that reflects a histogram.
- `CostAt` is the cost of one position.
- `Written` is the output after positions `0 .. n-1` have been written in
  order.

The module `CostProperties` proves what those functions imply: the bounds of
the logarithm arguments, which branch is taken, the flat cost on degenerate
streams, and which slots of the output are written.

Modules:

- `Masking` (masking.dfy): bitwise `&` on naturals, and masks of the form 2^k − 1.
- `Histogram` (histogram.dfy): window counts, sums, maxima, and the pair set that mirrors a histogram.
- `LiteralCost` (literal_cost.dfy): the pass itself.
- `CostProperties` (cost_properties.dfy): properties of the costs and of the writes.

## Behaviour at the boundaries

- **The window scored at position `i`** is
  `[max(0, i − 1999), min(len, i + 2001))` (`WindowBounds`). It holds 4000
  bytes in the interior, `min(i + 2001, len)` bytes near the start and
  `len − i + 1999` bytes near the end (`WindowSize`).
- **A one-byte stream** takes the dominant branch, because `1 > 1/2 == 0`, and
  is scored `Flat` (`LengthOneIsFlat`).
- **The flat cost without a log term.** With an even window size, only a byte
  of maximal count is scored `Flat` (`EvenWindowFlatIsDominant`). With an odd
  window, a byte that is not the most frequent can be scored `Flat`: in
  `0 0 0 1 1`, position 3 is (`OddWindowFlatMinority`).

## Model

| member | source | states |
|---|---|---|
| Masking.BitAnd | brotli/enc/literal_cost.cc:35 | `x & y` is at most each operand. |
| Masking.Slot | brotli/enc/literal_cost.cc:58 | The physical index `(pos + i) & mask` is at most `mask`, so it lies inside a buffer of `mask + 1` entries. |
| Masking.LowMaskIsMod | brotli/enc/literal_cost.cc:35 | For a mask `2^k − 1`, `x & mask == x % (mask + 1)`. |
| Masking.SlotsDistinct | brotli/enc/literal_cost.cc:58 | With a mask `2^k − 1` and `len <= mask + 1`, distinct positions of the stream map to distinct physical slots. |
| Histogram.Histo | brotli/enc/literal_cost.cc:28 | The histogram of a window has exactly 256 entries, one per byte value. |
| Histogram.SeqMax | brotli/enc/literal_cost.cc:63 | The value is one of the entries, and no entry exceeds it. |
| Histogram.CountPositive | brotli/enc/literal_cost.cc:58-62 | A byte that occurs in a window has a count of at least 1 there. |
| Histogram.HistoExtend | brotli/enc/literal_cost.cc:35 | Counting one more position increments exactly the entry of that position's byte. |
| Histogram.HistoDropFront | brotli/enc/literal_cost.cc:46 | The byte leaving a window has count ≥ 1, and dropping it decrements exactly its own entry. |
| Histogram.HistoSum | brotli/enc/literal_cost.cc:30-36 | Every window's histogram sums to the window's length. |
| Histogram.Mirror | brotli/enc/literal_cost.cc:37-38 | The contents of `histo_values`: the pair `(h[b], b)` for each byte value `b`. Its membership is stated by `MirrorMembers`. |
| Histogram.MirrorMembers | brotli/enc/literal_cost.cc:37-38 | A pair is in the ordered set iff its byte is in 0..255 and its count is that byte's histogram entry. |
| Histogram.MirrorUpdate | brotli/enc/literal_cost.cc:45-48 | Erasing a byte's pair, changing its count and inserting the new pair yields the set that mirrors the updated histogram. |
| Histogram.MirrorPrefixExtend | brotli/enc/literal_cost.cc:37-38 | Each bootstrap insertion adds the pair of the next byte value. After byte 255, the set mirrors the whole histogram. |
| Histogram.MirrorMax | brotli/enc/literal_cost.cc:63 | The first component of the largest pair in the ordered set is the maximum count of the histogram. |
| LiteralCost.Stream | brotli/enc/literal_cost.cc:35 | The logical stream has exactly `len` bytes. |
| LiteralCost.StreamAt | brotli/enc/literal_cost.cc:43 | Logical position `i` of the stream is the byte at `data[(pos + i) & mask]`. |
| LiteralCost.WindowBounds | brotli/enc/literal_cost.cc:42-57 | The window scored at `i` starts at `max(0, i + 1 − 2000)` and ends before `min(len, i + 1 + 2000)`; `WindowStart` and `WindowEnd` compute these bounds. |
| LiteralCost.WindowSize | brotli/enc/literal_cost.cc:42-57 | The window scored at `i` contains `i` and has between 1 and 4000 bytes. It has exactly 4000 in the interior, `min(i + 2001, len)` near the start and `len − i + 1999` near the end. |
| LiteralCost.CostFormula | brotli/enc/literal_cost.cc:64-71 | The dominant branch is taken iff `max_count > in_window / 2`. The log term is left out iff also `histo >= in_window / 2`. Each log argument has `num >= den >= 1` when `histo >= 1` and the counts fit in the window. `DominantBranch` and `CostArgumentsValid` state this for every position. |
| LiteralCost.Clamp | brotli/enc/literal_cost.cc:60-62 | A non-negative count becomes at least 1, and a positive count is kept. `OwnByteCounted` shows the count is always positive there. |
| LiteralCost.CostAt | brotli/enc/literal_cost.cc:58-71 | The reference cost of position `i`, from a histogram recounted from scratch over the window of `i`. The main method is proved against it, and `CostArgumentsValid`, `DominantBranch`, `LengthOneIsFlat` and `RepeatedByteIsFlat` state its properties. |
| LiteralCost.Written | brotli/enc/literal_cost.cc:65-70 | The output keeps the length of the array. |
| LiteralCost.MaxPair | brotli/enc/literal_cost.cc:63 | The returned pair is in the set, and every pair of the set is lexicographically at most it, as `rbegin()` gives. |
| LiteralCost.SlideOut | brotli/enc/literal_cost.cc:42-49 | After erase, decrement and insert, the histogram is that of the window without its first position, and the set still mirrors it. |
| LiteralCost.SlideIn | brotli/enc/literal_cost.cc:50-57 | After erase, increment and insert, the histogram is that of the window extended by one position, and the set still mirrors it. |
| LiteralCost.Slide | brotli/enc/literal_cost.cc:41-57 | From the window of `i − 1`, the histogram becomes that of the window of `i`, and `in_window` becomes that window's size. `in_window` equals the sum of the counts, every count is ≥ 0, and the set mirrors the histogram. |
| LiteralCost.Score | brotli/enc/literal_cost.cc:58-71 | With the clamp, the max query and the two-branch selection, the cost is `CostAt(s, i)`. |
| LiteralCost.Bootstrap | brotli/enc/literal_cost.cc:28-38 | `in_window == min(2000, len)`. The histogram counts exactly positions `[0, in_window)`, sums to `in_window` and is non-negative. The set holds one pair per byte value with its count. |
| LiteralCost.Step | brotli/enc/literal_cost.cc:41-72 | One iteration slides the window to `i` and keeps histogram, `in_window` and set in step. The output is then the previous one with position `i`'s cost written at `(pos + i) & mask`. |
| LiteralCost.ScoreAll | brotli/enc/literal_cost.cc:40-72 | Starting from the bootstrap state, the loop leaves the output with positions `0 .. len-1` written in order, each with its own cost. |
| LiteralCost.EstimateBitCostsForLiterals | brotli/enc/literal_cost.cc:26-73 | The output is the input array with `CostAt(s, i)` written at `(pos + i) & mask` for each `i < len` in order. `s` is the stream read through the mask. |
| CostProperties.OwnByteCounted | brotli/enc/literal_cost.cc:58-62 | The scored byte lies in its own window, so its count is ≥ 1 before the clamp, and the clamp never changes it. |
| CostProperties.CostArgumentsValid | brotli/enc/literal_cost.cc:64-71 | Both logarithm arguments have `num >= den >= 1`: `(in_window − max_count)/histo` in the dominant branch and `in_window/histo` otherwise. |
| CostProperties.DominantBranch | brotli/enc/literal_cost.cc:64 | The dominant branch is taken iff some byte's count exceeds `in_window / 2`, with integer division. |
| CostProperties.EvenWindowFlatIsDominant | brotli/enc/literal_cost.cc:64-66 | With an even window size, a position scored `Flat` carries a byte of maximal count. |
| CostProperties.OddWindowFlatMinority | brotli/enc/literal_cost.cc:64-66 | With an odd window (`0 0 0 1 1`, position 3), a byte less frequent than another is scored `Flat`. |
| CostProperties.LengthOneIsFlat | brotli/enc/literal_cost.cc:64-66 | A one-byte stream is scored with the flat cost 1. |
| CostProperties.RepeatedByteIsFlat | brotli/enc/literal_cost.cc:64-66 | A stream of one repeated byte value is scored with the flat cost 1 at every position. |
| CostProperties.WrittenUntouched | brotli/enc/literal_cost.cc:65-70 | An output slot that no position maps to keeps its previous value. |
| CostProperties.WrittenLastWins | brotli/enc/literal_cost.cc:65-70 | A position's slot holds that position's cost when no later position maps to the same slot. |
| CostProperties.WrittenAll | brotli/enc/literal_cost.cc:58 | With a mask `2^k − 1` and `len <= mask + 1`, every position's slot holds that position's cost. |
| CostProperties.PassResult | brotli/enc/literal_cost.cc:41-72 | After the pass, a mask `2^k − 1` and `len <= mask + 1` give two results. Each slot `(pos + i) & mask` holds `CostAt(s, i)`. Every other slot is unchanged. |

## Left out

- Evaluating `log2`, the conversions from `double` to `float` and the constant `0.029` are floating-point and not modelled. A cost is the formula and its integer arguments.
- The tree structure and complexity of `std::set` are not modelled. The set is modelled by its contents, and the maximum query by `MaxPair`, which scans the contents.
- The `size_t`/`int` conversions are not modelled. This covers `int masked_pos` at :58, the comparisons of `int i` with `size_t len` at :41 and :50, the 64-bit wrap-around of `pos + i`, and overflow of the `int` counters. All integers are unbounded. The model assumes `len` and the buffer fit in `int`.
- The shape of `mask` is not required by the pass. The method is proved for any `mask` smaller than both buffers. Only `SlotsDistinct`, `WrittenAll` and `PassResult` require `mask` to be `2^k − 1` and `len <= mask + 1`.
- `data` is a read-only sequence, not a pointer into the caller's buffer.
- The model does not state that `data` is read only at masked indices. This holds because the method receives `data` only as a value and indexes it only through `Slot`.
- Callers of the routine, the allocation of `cost` and `data`, and how the costs are consumed are not part of this model. They live in `literal_cost.h` and the backward-reference search.
- The expected value `~8.029` for a uniform stream is not modelled, because it is a floating-point value.
