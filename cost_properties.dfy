// What the pass promises about the cost it assigns to each position and
// about the slots of the output it writes.

module CostProperties {
  import opened Masking
  import opened Histogram
  import opened LiteralCost

  // ---------------------------------------------------------------------
  // The cost of one position

  /**
   * The byte at the scored position lies inside its own window, so its count
   * is at least 1 and the clamp of a zero count to 1 never applies.
   */
  lemma OwnByteCounted(s: seq<Byte>, i: nat)
    requires i < |s|
    ensures Histo(s, WindowStart(i), WindowEnd(|s|, i))[s[i]] >= 1
    ensures Clamp(Histo(s, WindowStart(i), WindowEnd(|s|, i))[s[i]])
            == Histo(s, WindowStart(i), WindowEnd(|s|, i))[s[i]]
  {
    var n := WindowSize(|s|, i);
    CountPositive(s, WindowStart(i), WindowEnd(|s|, i), i);
  }

  /**
   * Every logarithm the pass takes is of `num / den` with
   * `num >= den >= 1`: the log term of the dominant branch has argument
   * `(in_window - max_count) / histo`, the other branch `in_window / histo`.
   */
  lemma CostArgumentsValid(s: seq<Byte>, i: nat)
    requires i < |s|
    ensures CostAt(s, i).FlatPlusLog? ==> CostAt(s, i).num >= CostAt(s, i).den >= 1
    ensures CostAt(s, i).LogPlus029? ==> CostAt(s, i).num >= CostAt(s, i).den >= 1
  {
    var lo, hi := WindowStart(i), WindowEnd(|s|, i);
    var n := WindowSize(|s|, i);
    var h := Histo(s, lo, hi);
    OwnByteCounted(s, i);
    HistoSum(s, lo, hi);
    CostAtHisto(s, i, lo, hi, h);
    var m := SeqMax(h);
    var k :| 0 <= k < |h| && h[k] == m;
    EntryWithinSum(h, s[i]);
    if s[i] != k {
      TwoEntriesWithinSum(h, s[i], k);
    }
  }

  /**
   * The dominant branch (flat cost, with or without a log term) is taken
   * exactly when some byte fills more than half of the window, halving with
   * integer division.
   */
  lemma DominantBranch(s: seq<Byte>, i: nat)
    requires i < |s|
    ensures !CostAt(s, i).LogPlus029?
            <==> exists b :: 0 <= b < AlphabetSize
                   && Histo(s, WindowStart(i), WindowEnd(|s|, i))[b] > WindowSize(|s|, i) / 2
  {
  }

  /**
   * In a window of even size, only the most frequent byte is given the flat
   * cost without a log term.
   */
  lemma EvenWindowFlatIsDominant(s: seq<Byte>, i: nat)
    requires i < |s| && WindowSize(|s|, i) % 2 == 0 && CostAt(s, i) == Flat
    ensures forall b :: 0 <= b < AlphabetSize ==>
              Histo(s, WindowStart(i), WindowEnd(|s|, i))[b]
              <= Histo(s, WindowStart(i), WindowEnd(|s|, i))[s[i]]
  {
    var lo, hi := WindowStart(i), WindowEnd(|s|, i);
    var n := WindowSize(|s|, i);
    var h := Histo(s, lo, hi);
    OwnByteCounted(s, i);
    CostAtHisto(s, i, lo, hi, h);
    var m := SeqMax(h);
    assert h[s[i]] >= n / 2 && m > n / 2;
    var k :| 0 <= k < |h| && h[k] == m;
    if s[i] != k {
      HistoSum(s, lo, hi);
      TwoEntriesWithinSum(h, s[i], k);
    }
    assert h[s[i]] == m;
  }

  /**
   * In a window of odd size a byte that is not the most frequent can be
   * given the flat cost: in the stream 0 0 0 1 1, position 3 (byte 1,
   * count 2 of 5) is scored Flat, because 2 < 5 / 2 is false.
   */
  lemma OddWindowFlatMinority()
    ensures var s: seq<Byte> := [0, 0, 0, 1, 1];
            CostAt(s, 3) == Flat
            && Histo(s, WindowStart(3), WindowEnd(5, 3))[1] < Histo(s, WindowStart(3), WindowEnd(5, 3))[0]
  {
  }

  /** A one-byte stream is scored with the flat cost. */
  lemma LengthOneIsFlat(s: seq<Byte>)
    requires |s| == 1
    ensures CostAt(s, 0) == Flat
  {
  }

  /** A stream that repeats one byte value is scored with the flat cost at every position. */
  lemma RepeatedByteIsFlat(s: seq<Byte>, c: Byte, i: nat)
    requires i < |s|
    requires forall j :: 0 <= j < |s| ==> s[j] == c
    ensures CostAt(s, i) == Flat
  {
    var lo, hi := WindowStart(i), WindowEnd(|s|, i);
    var n := WindowSize(|s|, i);
    var h := Histo(s, lo, hi);
    CountConstant(s, lo, hi, c);
    HistoSum(s, lo, hi);
    CostAtHisto(s, i, lo, hi, h);
    var m := SeqMax(h);
    var k :| 0 <= k < |h| && h[k] == m;
    EntryWithinSum(h, k);
  }

  // ---------------------------------------------------------------------
  // The slots of the output

  /** A slot that no position `i < n` maps to keeps its previous value. */
  lemma {:induction false} WrittenUntouched(c: seq<BitCost>, v: seq<BitCost>, pos: nat, mask: nat, n: nat, k: nat)
    requires mask < |c| && n <= |v| && k < |c|
    requires forall i :: 0 <= i < n ==> Slot(pos, i, mask) != k
    ensures Written(c, v, pos, mask, n)[k] == c[k]
    decreases n
  {
    if n > 0 {
      WrittenUntouched(c, v, pos, mask, n - 1, k);
    }
  }

  /**
   * The slot of position `j` holds `v[j]` when no later position `i < n`
   * maps to the same slot.
   */
  lemma {:induction false} WrittenLastWins(c: seq<BitCost>, v: seq<BitCost>, pos: nat, mask: nat, n: nat, j: nat)
    requires mask < |c| && j < n <= |v|
    requires forall i :: j < i < n ==> Slot(pos, i, mask) != Slot(pos, j, mask)
    ensures Written(c, v, pos, mask, n)[Slot(pos, j, mask)] == v[j]
    decreases n
  {
    if j < n - 1 {
      WrittenLastWins(c, v, pos, mask, n - 1, j);
    }
  }

  /**
   * With a mask of the form 2^k - 1 and a stream no longer than the buffer,
   * every position's slot holds that position's value.
   */
  lemma WrittenAll(c: seq<BitCost>, v: seq<BitCost>, pos: nat, mask: nat, n: nat)
    requires IsLowMask(mask) && mask < |c| && n <= |v| && n <= mask + 1
    ensures forall j :: 0 <= j < n ==> Written(c, v, pos, mask, n)[Slot(pos, j, mask)] == v[j]
  {
    forall j | 0 <= j < n
      ensures Written(c, v, pos, mask, n)[Slot(pos, j, mask)] == v[j]
    {
      forall i | j < i < n
        ensures Slot(pos, i, mask) != Slot(pos, j, mask)
      {
        SlotsDistinct(pos, mask, n, j, i);
      }
      WrittenLastWins(c, v, pos, mask, n, j);
    }
  }

  /**
   * What the pass leaves in the output: the cost of each position at that
   * position's slot, and every other slot as it was.
   */
  lemma PassResult(data: seq<Byte>, pos: nat, len: nat, mask: nat, c: seq<BitCost>, k: nat)
    requires IsLowMask(mask) && mask < |data| && mask < |c| && len <= mask + 1 && k < |c|
    ensures var r := Written(c, Costs(Stream(data, pos, len, mask)), pos, mask, len);
            (forall i :: 0 <= i < len ==> r[Slot(pos, i, mask)] == CostAt(Stream(data, pos, len, mask), i))
            && ((forall i :: 0 <= i < len ==> Slot(pos, i, mask) != k) ==> r[k] == c[k])
  {
    var s := Stream(data, pos, len, mask);
    var v := Costs(s);
    var r := Written(c, v, pos, mask, len);
    WrittenAll(c, v, pos, mask, len);
    forall i | 0 <= i < len
      ensures r[Slot(pos, i, mask)] == CostAt(s, i)
    {
      assert r[Slot(pos, i, mask)] == v[i];
    }
    if forall i :: 0 <= i < len ==> Slot(pos, i, mask) != k {
      WrittenUntouched(c, v, pos, mask, len, k);
    }
  }
}
