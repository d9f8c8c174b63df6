// Byte-frequency histograms over a window of a logical stream, their sums and
// maxima, and the ordered set of (count, byte) pairs that mirrors them.

module Histogram {

  type Byte = b: int | 0 <= b < 256

  const AlphabetSize := 256

  /** Number of positions `j` in `[lo, hi)` with `s[j] == b`. */
  function CountIn(s: seq<Byte>, lo: nat, hi: nat, b: int): (n: nat)
    requires lo <= hi <= |s|
    decreases hi
  {
    if hi == lo then 0 else CountIn(s, lo, hi - 1, b) + (if s[hi - 1] == b then 1 else 0)
  }

  /** The 256-entry histogram of the window `[lo, hi)` of `s`. */
  ghost function Histo(s: seq<Byte>, lo: nat, hi: nat): (h: seq<int>)
    requires lo <= hi <= |s|
    ensures |h| == AlphabetSize
  {
    seq(AlphabetSize, b requires 0 <= b < AlphabetSize => CountIn(s, lo, hi, b))
  }

  function Sum(h: seq<int>): int
  {
    if h == [] then 0 else h[0] + Sum(h[1..])
  }

  /** The largest entry of a non-empty sequence. */
  function SeqMax(h: seq<int>): (m: int)
    requires |h| > 0
    ensures exists k :: 0 <= k < |h| && h[k] == m
    ensures forall k :: 0 <= k < |h| ==> h[k] <= m
  {
    if |h| == 1 then h[0]
    else
      var rest := SeqMax(h[1..]);
      assert forall k :: 1 <= k < |h| ==> h[k] == h[1..][k - 1];
      if h[0] >= rest then h[0] else rest
  }

  /** The ordered frequency index: one (count, byte) pair per byte value. */
  ghost function Mirror(h: seq<int>): set<(int, int)>
    requires |h| == AlphabetSize
  {
    set b: int | 0 <= b < AlphabetSize :: (h[b], b)
  }

  /** Lexicographic order on pairs, as `std::pair` compares them. */
  predicate PairLe(p: (int, int), q: (int, int))
  {
    p.0 < q.0 || (p.0 == q.0 && p.1 <= q.1)
  }

  // ---------------------------------------------------------------------
  // Counting

  lemma {:induction false} CountDropFront(s: seq<Byte>, lo: nat, hi: nat, b: int)
    requires lo < hi <= |s|
    ensures CountIn(s, lo, hi, b) == CountIn(s, lo + 1, hi, b) + (if s[lo] == b then 1 else 0)
    decreases hi
  {
    if hi > lo + 1 {
      CountDropFront(s, lo, hi - 1, b);
    }
  }

  /** A byte that occurs in the window is counted at least once. */
  lemma {:induction false} CountPositive(s: seq<Byte>, lo: nat, hi: nat, k: nat)
    requires lo <= k < hi <= |s|
    ensures CountIn(s, lo, hi, s[k]) >= 1
    decreases hi
  {
    if k < hi - 1 {
      CountPositive(s, lo, hi - 1, k);
    }
  }

  /** In a window where every byte is `c`, `c` is counted once per position. */
  lemma {:induction false} CountConstant(s: seq<Byte>, lo: nat, hi: nat, c: Byte)
    requires lo <= hi <= |s|
    requires forall j :: lo <= j < hi ==> s[j] == c
    ensures CountIn(s, lo, hi, c) == hi - lo
    decreases hi
  {
    if hi > lo {
      CountConstant(s, lo, hi - 1, c);
    }
  }

  // ---------------------------------------------------------------------
  // The histogram under sliding

  /** Adding the byte at `hi` increments exactly its own entry. */
  lemma HistoExtend(s: seq<Byte>, lo: nat, hi: nat)
    requires lo <= hi < |s|
    ensures Histo(s, lo, hi + 1) == Histo(s, lo, hi)[s[hi] := Histo(s, lo, hi)[s[hi]] + 1]
  {
  }

  /** Dropping the byte at `lo` decrements exactly its own entry. */
  lemma HistoDropFront(s: seq<Byte>, lo: nat, hi: nat)
    requires lo < hi <= |s|
    ensures Histo(s, lo, hi)[s[lo]] >= 1
    ensures Histo(s, lo + 1, hi) == Histo(s, lo, hi)[s[lo] := Histo(s, lo, hi)[s[lo]] - 1]
  {
    CountPositive(s, lo, hi, lo);
    forall b | 0 <= b < AlphabetSize
      ensures CountIn(s, lo, hi, b) == CountIn(s, lo + 1, hi, b) + (if s[lo] == b then 1 else 0)
    {
      CountDropFront(s, lo, hi, b);
    }
  }

  lemma {:induction false} SumUpdate(h: seq<int>, k: nat, d: int)
    requires k < |h|
    ensures Sum(h[k := h[k] + d]) == Sum(h) + d
    decreases |h|
  {
    if k > 0 {
      assert h[k := h[k] + d][1..] == h[1..][k - 1 := h[1..][k - 1] + d];
      SumUpdate(h[1..], k - 1, d);
    } else {
      assert h[k := h[k] + d][1..] == h[1..];
    }
  }

  lemma {:induction false} SumZeros(n: nat)
    ensures Sum(seq(n, _ => 0)) == 0
  {
    if n > 0 {
      assert seq(n, _ => 0)[1..] == seq(n - 1, _ => 0);
      SumZeros(n - 1);
    }
  }

  /** The histogram of a window sums to the window's length. */
  lemma {:induction false} HistoSum(s: seq<Byte>, lo: nat, hi: nat)
    requires lo <= hi <= |s|
    ensures Sum(Histo(s, lo, hi)) == hi - lo
    decreases hi
  {
    if hi == lo {
      assert Histo(s, lo, hi) == seq(AlphabetSize, _ => 0);
      SumZeros(AlphabetSize);
    } else {
      HistoSum(s, lo, hi - 1);
      HistoExtend(s, lo, hi - 1);
      SumUpdate(Histo(s, lo, hi - 1), s[hi - 1], 1);
    }
  }

  /** Two distinct entries of a non-negative sequence fit within its sum. */
  lemma {:induction false} TwoEntriesWithinSum(h: seq<int>, a: nat, b: nat)
    requires a < |h| && b < |h| && a != b
    requires forall k :: 0 <= k < |h| ==> h[k] >= 0
    ensures h[a] + h[b] <= Sum(h)
    decreases |h|
  {
    if a == 0 {
      EntryWithinSum(h[1..], b - 1);
    } else if b == 0 {
      EntryWithinSum(h[1..], a - 1);
    } else {
      TwoEntriesWithinSum(h[1..], a - 1, b - 1);
    }
  }

  /** One entry of a non-negative sequence fits within its sum. */
  lemma {:induction false} EntryWithinSum(h: seq<int>, a: nat)
    requires a < |h|
    requires forall k :: 0 <= k < |h| ==> h[k] >= 0
    ensures 0 <= h[a] <= Sum(h)
    ensures Sum(h) >= 0
    decreases |h|
  {
    if a == 0 {
      SumNonNegative(h[1..]);
    } else {
      EntryWithinSum(h[1..], a - 1);
    }
  }

  lemma {:induction false} SumNonNegative(h: seq<int>)
    requires forall k :: 0 <= k < |h| ==> h[k] >= 0
    ensures Sum(h) >= 0
    decreases |h|
  {
    if h != [] {
      SumNonNegative(h[1..]);
    }
  }

  // ---------------------------------------------------------------------
  // The ordered frequency index

  /** The index holds exactly the pairs (h[b], b): one per byte, with its count. */
  lemma MirrorMembers(h: seq<int>, p: (int, int))
    requires |h| == AlphabetSize
    ensures p in Mirror(h) <==> 0 <= p.1 < AlphabetSize && p.0 == h[p.1]
  {
    if 0 <= p.1 < AlphabetSize && p.0 == h[p.1] {
      assert p == (h[p.1], p.1);
    }
  }

  /** Erasing a byte's pair, changing its count and inserting the new pair. */
  lemma MirrorUpdate(h: seq<int>, b: Byte, v: int)
    requires |h| == AlphabetSize
    ensures Mirror(h) - {(h[b], b)} + {(v, b)} == Mirror(h[b := v])
  {
    forall p
      ensures p in Mirror(h) - {(h[b], b)} + {(v, b)} <==> p in Mirror(h[b := v])
    {
      MirrorMembers(h, p);
      MirrorMembers(h[b := v], p);
    }
  }

  /** The index built up to byte value `n`. */
  ghost function MirrorPrefix(h: seq<int>, n: nat): set<(int, int)>
    requires |h| == AlphabetSize && n <= AlphabetSize
  {
    set b: int | 0 <= b < n :: (h[b], b)
  }

  lemma MirrorPrefixExtend(h: seq<int>, n: nat)
    requires |h| == AlphabetSize && n < AlphabetSize
    ensures MirrorPrefix(h, n + 1) == MirrorPrefix(h, n) + {(h[n], n)}
    ensures MirrorPrefix(h, AlphabetSize) == Mirror(h)
  {
    forall p | p in MirrorPrefix(h, n + 1)
      ensures p in MirrorPrefix(h, n) + {(h[n], n)}
    {
      var b :| 0 <= b < n + 1 && p == (h[b], b);
      if b < n {
        assert p in MirrorPrefix(h, n);
      }
    }
  }

  /** The largest pair of the index carries the largest count of the histogram. */
  lemma MirrorMax(h: seq<int>, p: (int, int))
    requires |h| == AlphabetSize
    requires p in Mirror(h)
    requires forall q :: q in Mirror(h) ==> PairLe(q, p)
    ensures p.0 == SeqMax(h)
  {
    MirrorMembers(h, p);
    var m := SeqMax(h);
    var k :| 0 <= k < |h| && h[k] == m;
    MirrorMembers(h, (h[k], k));
  }
}
