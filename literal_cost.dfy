// Per-position literal bit-cost estimation over a sliding byte-frequency
// window (EstimateBitCostsForLiterals). The cost written for a position is
// represented by the formula chosen and its integer arguments.

module LiteralCost {
  import opened Masking
  import opened Histogram

  /** Half the width of the sliding window. */
  const WindowHalf := 2000

  /**
   * The cost written for one position, in bits, without evaluating it:
   *   Flat                 the flat cost 1
   *   FlatPlusLog(n, d)    1 + log2(n / d)
   *   LogPlus029(n, d)     log2(n / d) + 0.029
   */
  datatype BitCost = Flat | FlatPlusLog(num: int, den: int) | LogPlus029(num: int, den: int)

  /** The logical stream of `len` bytes read through the mask from `pos` on. */
  function Stream(data: seq<Byte>, pos: nat, len: nat, mask: nat): (s: seq<Byte>)
    requires mask < |data|
    ensures |s| == len
  {
    if len == 0 then [] else Stream(data, pos, len - 1, mask) + [data[Slot(pos, len - 1, mask)]]
  }

  /** Logical position `i` of the stream is the byte at physical index `Slot(pos, i, mask)`. */
  lemma {:induction false} StreamAt(data: seq<Byte>, pos: nat, len: nat, mask: nat, i: nat)
    requires mask < |data| && i < len
    ensures Stream(data, pos, len, mask)[i] == data[Slot(pos, i, mask)]
    decreases len
  {
    if i < len - 1 {
      StreamAt(data, pos, len - 1, mask, i);
    }
  }

  /**
   * The window counted when position `i` is scored, `[WindowStart(i),
   * WindowEnd(len, i))`. With `i == -1` it is the bootstrap window.
   */
  function WindowStart(i: int): nat
  {
    if i + 1 - WindowHalf >= 0 then i + 1 - WindowHalf else 0
  }

  function WindowEnd(len: nat, i: int): int
  {
    if i + 1 + WindowHalf < len then i + 1 + WindowHalf else len
  }

  /** The window bounds are `max(0, i + 1 - WindowHalf)` and `min(len, i + 1 + WindowHalf)`. */
  lemma WindowBounds(len: nat, i: int)
    ensures WindowStart(i) >= i + 1 - WindowHalf
    ensures WindowStart(i) == 0 || WindowStart(i) == i + 1 - WindowHalf
    ensures WindowEnd(len, i) <= len && WindowEnd(len, i) <= i + 1 + WindowHalf
    ensures WindowEnd(len, i) == len || WindowEnd(len, i) == i + 1 + WindowHalf
  {
  }

  /** The number of bytes counted when position `i` is scored. */
  function WindowSize(len: nat, i: nat): (n: nat)
    requires i < len
    ensures WindowStart(i) <= i < WindowEnd(len, i) <= len
    ensures n == WindowEnd(len, i) - WindowStart(i)
    ensures 1 <= n <= 2 * WindowHalf && n <= len
    ensures WindowHalf - 1 <= i && i + WindowHalf + 1 <= len ==> n == 2 * WindowHalf
    ensures i < WindowHalf - 1 ==> n == if i + WindowHalf + 1 <= len then i + WindowHalf + 1 else len
    ensures WindowHalf - 1 <= i && len < i + WindowHalf + 1 ==> n == len - i + WindowHalf - 1
  {
    WindowEnd(len, i) - WindowStart(i)
  }

  /**
   * The formula chosen from the window size, the largest count in the window
   * and the (clamped) count of the position's own byte. `/` is integer division.
   */
  function CostFormula(inWindow: int, maxCount: int, histo: int): (c: BitCost)
    // The dominant branch is taken iff the largest count exceeds half the window.
    ensures !c.LogPlus029? <==> maxCount > inWindow / 2
    // The log term is left out iff, in addition, the own count reaches half the window.
    ensures c == Flat <==> maxCount > inWindow / 2 && histo >= inWindow / 2
    // Each log argument is at least 1 when the counts fit in the window.
    ensures c.FlatPlusLog? && 1 <= histo && histo + maxCount <= inWindow ==> c.num >= c.den >= 1
    ensures c.LogPlus029? && 1 <= histo <= inWindow ==> c.num >= c.den >= 1
  {
    if maxCount > inWindow / 2 then
      if histo < inWindow / 2 then FlatPlusLog(inWindow - maxCount, histo) else Flat
    else
      LogPlus029(inWindow, histo)
  }

  /** The count of the position's own byte, with a count of 0 taken as 1. */
  function Clamp(count: int): (r: int)
    ensures count >= 0 ==> r >= 1
    ensures count >= 1 ==> r == count
  {
    if count == 0 then 1 else count
  }

  /** The cost the pass assigns to logical position `i` of `s`. */
  ghost function CostAt(s: seq<Byte>, i: nat): BitCost
    requires i < |s|
  {
    var lo, hi := WindowStart(i), WindowEnd(|s|, i);
    var h := Histo(s, lo, hi);
    CostFormula(hi - lo, SeqMax(h), Clamp(h[s[i]]))
  }

  lemma CostAtHisto(s: seq<Byte>, i: nat, lo: nat, hi: nat, h: seq<int>)
    requires i < |s| && lo == WindowStart(i) && hi == WindowEnd(|s|, i)
    requires lo <= hi && h == Histo(s, lo, hi)
    ensures CostAt(s, i) == CostFormula(hi - lo, SeqMax(h), Clamp(h[s[i]]))
  {
  }

  /** The cost of every position of `s`. */
  ghost function Costs(s: seq<Byte>): (v: seq<BitCost>)
    ensures |v| == |s|
  {
    seq(|s|, i requires 0 <= i < |s| => CostAt(s, i))
  }

  /** The output array after writing `v[0 .. n-1]` in order, `v[i]` at `Slot(pos, i, mask)`. */
  ghost function Written(c: seq<BitCost>, v: seq<BitCost>, pos: nat, mask: nat, n: nat): (r: seq<BitCost>)
    requires mask < |c| && n <= |v|
    ensures |r| == |c|
    decreases n
  {
    if n == 0 then c else Written(c, v, pos, mask, n - 1)[Slot(pos, n - 1, mask) := v[n - 1]]
  }

  // ---------------------------------------------------------------------
  // The pass

  /** Returns the largest pair of the ordered index, as `rbegin()` does. */
  method MaxPair(index: set<(int, int)>) returns (p: (int, int))
    requires index != {}
    ensures p in index
    ensures forall q :: q in index ==> PairLe(q, p)
  {
    p :| p in index;
    var rest := index - {p};
    while rest != {}
      invariant rest <= index && p in index
      invariant forall q :: q in index && q !in rest ==> PairLe(q, p)
      decreases rest
    {
      var x :| x in rest;
      if PairLe(p, x) {
        p := x;
      }
      rest := rest - {x};
    }
  }

  /**
   * Removes the byte at logical position `lo`, the past edge of the window
   * `[lo, hi)`: its pair is erased from the ordered index, its count
   * decremented and the new pair inserted.
   */
  method SlideOut(histogram: array<int>, index: set<(int, int)>, ghost s: seq<Byte>,
                  ghost lo: nat, ghost hi: nat, b: Byte)
    returns (index': set<(int, int)>)
    requires histogram.Length == AlphabetSize
    requires lo < hi <= |s| && b == s[lo]
    requires histogram[..] == Histo(s, lo, hi)
    requires index == Mirror(histogram[..])
    modifies histogram
    ensures histogram[..] == Histo(s, lo + 1, hi)
    ensures index' == Mirror(histogram[..])
  {
    HistoDropFront(s, lo, hi);
    // Only a byte counted earlier is removed: its count is at least 1.
    assert histogram[b] >= 1;
    MirrorUpdate(histogram[..], b, histogram[b] - 1);
    index' := index - {(histogram[b], b)};
    histogram[b] := histogram[b] - 1;
    index' := index' + {(histogram[b], b)};
  }

  /**
   * Adds the byte at logical position `hi`, the future edge of the window
   * `[lo, hi)`, keeping the ordered index in step.
   */
  method SlideIn(histogram: array<int>, index: set<(int, int)>, ghost s: seq<Byte>,
                 ghost lo: nat, ghost hi: nat, b: Byte)
    returns (index': set<(int, int)>)
    requires histogram.Length == AlphabetSize
    requires lo <= hi < |s| && b == s[hi]
    requires histogram[..] == Histo(s, lo, hi)
    requires index == Mirror(histogram[..])
    modifies histogram
    ensures histogram[..] == Histo(s, lo, hi + 1)
    ensures index' == Mirror(histogram[..])
  {
    HistoExtend(s, lo, hi);
    MirrorUpdate(histogram[..], b, histogram[b] + 1);
    index' := index - {(histogram[b], b)};
    histogram[b] := histogram[b] + 1;
    index' := index' + {(histogram[b], b)};
  }

  /**
   * One slide of the window before position `i` is scored: the byte
   * `WindowHalf` positions back leaves it, the byte `WindowHalf` positions
   * ahead enters it.
   */
  method Slide(histogram: array<int>, index: set<(int, int)>, inWindow: int,
               data: seq<Byte>, pos: nat, len: nat, mask: nat, i: nat, ghost s: seq<Byte>)
    returns (index': set<(int, int)>, inWindow': int)
    requires histogram.Length == AlphabetSize && mask < |data|
    requires i < len && s == Stream(data, pos, len, mask)
    requires histogram[..] == Histo(s, WindowStart(i - 1), WindowEnd(len, i - 1))
    requires inWindow == WindowEnd(len, i - 1) - WindowStart(i - 1)
    requires index == Mirror(histogram[..])
    modifies histogram
    ensures histogram[..] == Histo(s, WindowStart(i), WindowEnd(len, i))
    ensures inWindow' == WindowEnd(len, i) - WindowStart(i) == WindowSize(len, i)
    ensures Sum(histogram[..]) == inWindow'
    ensures forall b :: 0 <= b < AlphabetSize ==> histogram[b] >= 0
    ensures index' == Mirror(histogram[..])
  {
    ghost var lo, hi := WindowStart(i - 1), WindowEnd(len, i - 1);
    index', inWindow' := index, inWindow;
    if i - WindowHalf >= 0 {
      // Remove a byte in the past.
      StreamAt(data, pos, len, mask, i - WindowHalf);
      var b := data[Slot(pos, i - WindowHalf, mask)];
      index' := SlideOut(histogram, index', s, lo, hi, b);
      inWindow' := inWindow' - 1;
      lo := lo + 1;
    }
    if i + WindowHalf < len {
      // Add a byte in the future.
      StreamAt(data, pos, len, mask, i + WindowHalf);
      var b := data[Slot(pos, i + WindowHalf, mask)];
      index' := SlideIn(histogram, index', s, lo, hi, b);
      inWindow' := inWindow' + 1;
      hi := hi + 1;
    }
    assert lo == WindowStart(i) && hi == WindowEnd(len, i);
    HistoSum(s, lo, hi);
  }

  /**
   * Scores position `i` from the window around it: `own` is the byte at
   * `i`, `inWindow` the number of bytes counted.
   */
  method Score(histogram: array<int>, index: set<(int, int)>, inWindow: int, own: Byte,
               ghost s: seq<Byte>, ghost i: nat)
    returns (c: BitCost)
    requires histogram.Length == AlphabetSize
    requires i < |s| && own == s[i]
    requires histogram[..] == Histo(s, WindowStart(i), WindowEnd(|s|, i))
    requires inWindow == WindowEnd(|s|, i) - WindowStart(i)
    requires index == Mirror(histogram[..])
    ensures c == CostAt(s, i)
  {
    var histo := histogram[own];
    if histo == 0 {
      histo := 1;
    }
    MirrorMembers(histogram[..], (histogram[0], 0));
    var maxPair := MaxPair(index);
    MirrorMax(histogram[..], maxPair);
    var maxCount := maxPair.0;
    c := CostFormula(inWindow, maxCount, histo);
    CostAtHisto(s, i, WindowStart(i), WindowEnd(|s|, i), histogram[..]);
  }

  /**
   * Builds the histogram of the first `min(WindowHalf, len)` bytes and the
   * ordered index with one pair per byte value, zero counts included.
   */
  method Bootstrap(data: seq<Byte>, pos: nat, len: nat, mask: nat, ghost s: seq<Byte>)
    returns (histogram: array<int>, histoValues: set<(int, int)>, inWindow: int)
    requires mask < |data| && s == Stream(data, pos, len, mask)
    ensures fresh(histogram) && histogram.Length == AlphabetSize
    ensures inWindow == (if WindowHalf < len then WindowHalf else len)
    ensures histogram[..] == Histo(s, 0, inWindow)
    ensures Sum(histogram[..]) == inWindow
    ensures forall b :: 0 <= b < AlphabetSize ==> histogram[b] >= 0
    ensures histoValues == Mirror(histogram[..])
  {
    histogram := new int[AlphabetSize](_ => 0);
    inWindow := if WindowHalf < len then WindowHalf else len;
    histoValues := {};
    assert histogram[..] == Histo(s, 0, 0);
    for i := 0 to inWindow
      invariant histogram[..] == Histo(s, 0, i)
      modifies histogram
    {
      HistoExtend(s, 0, i);
      StreamAt(data, pos, len, mask, i);
      var b := data[Slot(pos, i, mask)];
      histogram[b] := histogram[b] + 1;
    }
    for b := 0 to AlphabetSize
      invariant histoValues == MirrorPrefix(histogram[..], b)
      modifies {}
    {
      MirrorPrefixExtend(histogram[..], b);
      histoValues := histoValues + {(histogram[b], b)};
    }
    MirrorPrefixExtend(histogram[..], 0);
    HistoSum(s, 0, inWindow);
  }

  /**
   * One iteration of the main loop: slides the window to position `i`,
   * scores `i` and writes its cost at `Slot(pos, i, mask)`.
   */
  method Step(histogram: array<int>, index: set<(int, int)>, inWindow: int,
              data: seq<Byte>, pos: nat, len: nat, mask: nat, cost: array<BitCost>,
              i: nat, ghost s: seq<Byte>, ghost v: seq<BitCost>, ghost c0: seq<BitCost>)
    returns (index': set<(int, int)>, inWindow': int)
    requires histogram.Length == AlphabetSize && mask < |data| && mask < cost.Length
    requires i < len && s == Stream(data, pos, len, mask) && |c0| == cost.Length
    requires histogram[..] == Histo(s, WindowStart(i - 1), WindowEnd(len, i - 1))
    requires inWindow == WindowEnd(len, i - 1) - WindowStart(i - 1)
    requires index == Mirror(histogram[..])
    requires v == Costs(s) && cost[..] == Written(c0, v, pos, mask, i)
    modifies histogram, cost
    ensures histogram[..] == Histo(s, WindowStart(i), WindowEnd(len, i))
    ensures inWindow' == WindowEnd(len, i) - WindowStart(i)
    ensures index' == Mirror(histogram[..])
    ensures cost[..] == Written(c0, v, pos, mask, i + 1)
  {
    index', inWindow' := Slide(histogram, index, inWindow, data, pos, len, mask, i, s);
    var maskedPos := Slot(pos, i, mask);
    StreamAt(data, pos, len, mask, i);
    var c := Score(histogram, index', inWindow', data[maskedPos], s, i);
    cost[maskedPos] := c;
  }

  /** The main loop: scores positions `0 .. len-1` in order, sliding the window before each. */
  method ScoreAll(histogram: array<int>, index: set<(int, int)>, size: int,
                  data: seq<Byte>, pos: nat, len: nat, mask: nat, cost: array<BitCost>,
                  ghost s: seq<Byte>, ghost v: seq<BitCost>)
    requires histogram.Length == AlphabetSize && mask < |data| && mask < cost.Length
    requires s == Stream(data, pos, len, mask) && v == Costs(s)
    requires histogram[..] == Histo(s, WindowStart(-1), WindowEnd(len, -1))
    requires size == WindowEnd(len, -1) - WindowStart(-1)
    requires index == Mirror(histogram[..])
    modifies histogram, cost
    ensures cost[..] == Written(old(cost[..]), v, pos, mask, len)
  {
    var histoValues, inWindow := index, size;
    for i := 0 to len
      invariant histogram[..] == Histo(s, WindowStart(i - 1), WindowEnd(len, i - 1))
      invariant inWindow == WindowEnd(len, i - 1) - WindowStart(i - 1)
      invariant histoValues == Mirror(histogram[..])
      invariant cost[..] == Written(old(cost[..]), v, pos, mask, i)
    {
      histoValues, inWindow := Step(histogram, histoValues, inWindow, data, pos, len, mask, cost, i, s, v, old(cost[..]));
    }
  }

  /**
   * Writes the estimated cost of every position `i < len` of the stream at
   * `Slot(pos, i, mask)`, in increasing order of `i`; nothing else changes.
   */
  method EstimateBitCostsForLiterals(pos: nat, len: nat, mask: nat, data: seq<Byte>, cost: array<BitCost>)
    requires mask < |data| && mask < cost.Length
    modifies cost
    ensures cost[..] == Written(old(cost[..]), Costs(Stream(data, pos, len, mask)), pos, mask, len)
  {
    ghost var s := Stream(data, pos, len, mask);
    var histogram, histoValues, inWindow := Bootstrap(data, pos, len, mask, s);
    ScoreAll(histogram, histoValues, inWindow, data, pos, len, mask, cost, s, Costs(s));
  }
}
