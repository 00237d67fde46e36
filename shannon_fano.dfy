/** Shannon-Fano coding over a frequency table sorted highest first:
    `findSplitIndex` scans a range for the split that best balances the two
    halves' frequency sums, and `generateShannonFanoCodes` recursively gives
    the left part '0' and the right part '1'. */
module ShannonFano {
  import opened Seqs
  import opened Frequency
  import opened PrefixCodes

  /** Sum of the frequencies of `table[lo..hi]` (`hi` excluded). */
  function RangeSum(table: seq<FreqRecord>, lo: nat, hi: nat): nat
    requires lo <= hi <= |table|
    decreases hi - lo
  {
    if lo == hi then 0 else RangeSum(table, lo, hi - 1) + table[hi - 1].frequency
  }

  function Abs(x: int): nat { if x < 0 then -x else x }

  /** `Math.abs(totalFreq - 2 * currentSum)` for the split after index `i`
      of the range `[start, end]`. */
  function SplitDiff(table: seq<FreqRecord>, start: nat, end: nat, i: nat): nat
    requires start <= i <= end < |table|
  {
    Abs(RangeSum(table, start, end + 1) - 2 * RangeSum(table, start, i + 1))
  }

  /** `i` is the split the scan chooses: in `[start, end - 1]` (just `start`
      for a one-element range), no split of the range is better balanced,
      and every earlier split is strictly worse. */
  ghost predicate IsFirstBestSplit(table: seq<FreqRecord>, start: nat, end: nat, i: nat)
    requires start <= end < |table|
  {
    && start <= i
    && (i < end || i == start == end)
    && (forall j :: start <= j < end ==> SplitDiff(table, start, end, i) <= SplitDiff(table, start, end, j))
    && (forall j :: start <= j < i ==> SplitDiff(table, start, end, j) > SplitDiff(table, start, end, i))
  }

  /** The second loop of `findSplitIndex` from index `i` on, with the best
      difference so far and the split that achieved it. */
  function Scan(table: seq<FreqRecord>, start: nat, end: nat, i: nat, bestDiff: int, split: nat): nat
    requires start <= i <= end < |table|
    decreases end - i
  {
    if i == end then split
    else
      var diff := SplitDiff(table, start, end, i);
      if diff < bestDiff then Scan(table, start, end, i + 1, diff, i)
      else Scan(table, start, end, i + 1, bestDiff, split)
  }

  /** The index `findSplitIndex` returns: the last index of the left part,
      so both parts are non-empty whenever the range has two records. */
  function SplitIndex(table: seq<FreqRecord>, start: nat, end: nat): (i: nat)
    requires start <= end < |table|
    ensures start <= i && (i < end || i == start == end)
  {
    ScanFindsFirstBest(table, start, end, start, RangeSum(table, start, end + 1), start);
    Scan(table, start, end, start, RangeSum(table, start, end + 1), start)
  }

  /** `SplitIndex` is the first best-balanced split. */
  lemma SplitIndexIsFirstBest(table: seq<FreqRecord>, start: nat, end: nat)
    requires start <= end < |table|
    ensures IsFirstBestSplit(table, start, end, SplitIndex(table, start, end))
  {
    ScanFindsFirstBest(table, start, end, start, RangeSum(table, start, end + 1), start);
  }

  lemma {:induction false} RangeSumMonotone(table: seq<FreqRecord>, lo: nat, mid: nat, hi: nat)
    requires lo <= mid <= hi <= |table|
    ensures RangeSum(table, lo, mid) <= RangeSum(table, lo, hi)
    decreases hi - mid
  {
    if mid < hi {
      RangeSumMonotone(table, lo, mid, hi - 1);
    }
  }

  /** No split is worse balanced than giving one side everything. */
  lemma SplitDiffAtMostTotal(table: seq<FreqRecord>, start: nat, end: nat, i: nat)
    requires start <= i <= end < |table|
    ensures SplitDiff(table, start, end, i) <= RangeSum(table, start, end + 1)
  {
    RangeSumMonotone(table, start, i + 1, end + 1);
  }

  /** The scan's invariant carried to its end: starting from "nothing seen,
      best difference = total", it returns the first best split. */
  lemma {:induction false} ScanFindsFirstBest(table: seq<FreqRecord>, start: nat, end: nat, i: nat, bestDiff: int, split: nat)
    requires start <= i <= end < |table|
    requires i == start ==> split == start && bestDiff == RangeSum(table, start, end + 1)
    requires i > start ==> start <= split < i && bestDiff == SplitDiff(table, start, end, split)
    requires forall j :: start <= j < i ==> SplitDiff(table, start, end, j) >= bestDiff
    requires forall j :: start <= j < split ==> SplitDiff(table, start, end, j) > bestDiff
    ensures IsFirstBestSplit(table, start, end, Scan(table, start, end, i, bestDiff, split))
    decreases end - i
  {
    if i < end {
      var diff := SplitDiff(table, start, end, i);
      if i == start {
        SplitDiffAtMostTotal(table, start, end, i);
      }
      if diff < bestDiff {
        ScanFindsFirstBest(table, start, end, i + 1, diff, i);
      } else {
        ScanFindsFirstBest(table, start, end, i + 1, bestDiff, split);
      }
    }
  }

  /** The first best split is unique, so the loop and `SplitIndex` agree. */
  lemma FirstBestSplitUnique(table: seq<FreqRecord>, start: nat, end: nat, i: nat, k: nat)
    requires start <= end < |table|
    requires IsFirstBestSplit(table, start, end, i) && IsFirstBestSplit(table, start, end, k)
    ensures i == k
  {
    var di, dk := SplitDiff(table, start, end, i), SplitDiff(table, start, end, k);
    assert i < k ==> di > dk;
    assert k < i ==> dk > di;
    assert k < end ==> di <= dk;
    assert i < end ==> dk <= di;
  }

  /** `findSplitIndex`: total the range, then scan the splits keeping the
      first one with the smallest imbalance. */
  method FindSplitIndex(table: seq<FreqRecord>, start: nat, end: nat) returns (splitIndex: nat)
    requires start <= end < |table|
    ensures IsFirstBestSplit(table, start, end, splitIndex)
    ensures splitIndex == SplitIndex(table, start, end)
  {
    SplitIndexIsFirstBest(table, start, end);
    var totalFreq := 0;
    var i := start;
    while i <= end
      invariant start <= i <= end + 1
      invariant totalFreq == RangeSum(table, start, i)
    {
      totalFreq := totalFreq + table[i].frequency;
      i := i + 1;
    }

    var currentSum := 0;
    var bestDiff := totalFreq;
    splitIndex := start;
    i := start;
    while i < end
      invariant start <= i <= end
      invariant currentSum == RangeSum(table, start, i)
      invariant Scan(table, start, end, i, bestDiff, splitIndex) == SplitIndex(table, start, end)
    {
      currentSum := currentSum + table[i].frequency;
      var diff := Abs(totalFreq - 2 * currentSum);
      assert diff == SplitDiff(table, start, end, i);
      if diff < bestDiff {
        bestDiff := diff;
        splitIndex := i;
      }
      i := i + 1;
    }
  }

  /** The worked example: frequencies 5, 3, 2 split after the first record
      (|10 - 2*5| = 0 beats |10 - 2*8| = 6). */
  lemma SplitExample(a: string, b: string, c: string)
    ensures var table := [FreqRecord(a, 5), FreqRecord(b, 3), FreqRecord(c, 2)];
      SplitIndex(table, 0, 2) == 0
  {
    var table := [FreqRecord(a, 5), FreqRecord(b, 3), FreqRecord(c, 2)];
    assert RangeSum(table, 0, 1) == 5;
    assert RangeSum(table, 0, 2) == 8;
    assert RangeSum(table, 0, 3) == 10;
    assert SplitDiff(table, 0, 2, 0) == 0;
    var i := SplitIndex(table, 0, 2);
    assert SplitDiff(table, 0, 2, 1) == 6;
  }

  // ---------------------------------------------------------------------
  // Code generation

  /** `generateShannonFanoCodes(freqData, start, end, code)` as the entries
      it adds: a single record gets `code`, two records get `code + "0"` and
      `code + "1"`, a longer range is split and the halves recurse with '0'
      and '1' appended. Later assignments win, as in the source. */
  function ShannonFanoCodes(table: seq<FreqRecord>, start: nat, end: nat, code: string): CodeTable
    requires start <= end < |table|
    decreases end - start
  {
    if start == end then
      map[table[start].symbol := code]
    else if start + 1 == end then
      map[table[start].symbol := code + "0"][table[end].symbol := code + "1"]
    else
      var split := SplitIndex(table, start, end);
      ShannonFanoCodes(table, start, split, code + "0") + ShannonFanoCodes(table, split + 1, end, code + "1")
  }

  function RangeSymbols(table: seq<FreqRecord>, start: nat, end: nat): seq<string>
    requires start <= end < |table|
  {
    Symbols(table)[start..end + 1]
  }

  /** Exactly the symbols of the range receive a code; a one-record range
      receives `code` itself. */
  lemma {:induction false} ShannonFanoKeys(table: seq<FreqRecord>, start: nat, end: nat, code: string)
    requires start <= end < |table|
    ensures forall s :: s in ShannonFanoCodes(table, start, end, code) <==> s in RangeSymbols(table, start, end)
    ensures start == end ==> ShannonFanoCodes(table, start, end, code) == map[table[start].symbol := code]
    decreases end - start
  {
    var syms := RangeSymbols(table, start, end);
    var m := ShannonFanoCodes(table, start, end, code);
    if start == end {
      assert syms == [table[start].symbol];
    } else if start + 1 == end {
      assert syms == [table[start].symbol, table[end].symbol];
    } else {
      var split := SplitIndex(table, start, end);
      var m0, m1 := ShannonFanoCodes(table, start, split, code + "0"), ShannonFanoCodes(table, split + 1, end, code + "1");
      var left, right := RangeSymbols(table, start, split), RangeSymbols(table, split + 1, end);
      assert m == m0 + m1;
      assert syms == left + right by {
        SplitRangeSymbols(table, start, split, end);
      }
      assert (forall s :: s in m0 <==> s in left) && (forall s :: s in m1 <==> s in right) by {
        ShannonFanoKeys(table, start, split, code + "0");
        ShannonFanoKeys(table, split + 1, end, code + "1");
      }
      KeysOfMerge(m0, m1, left, right);
    }
  }

  lemma SplitRangeSymbols(table: seq<FreqRecord>, start: nat, split: nat, end: nat)
    requires start <= split < end < |table|
    ensures RangeSymbols(table, start, end) == RangeSymbols(table, start, split) + RangeSymbols(table, split + 1, end)
  {
    var all := Symbols(table);
    assert all[start..end + 1] == all[start..split + 1] + all[split + 1..end + 1];
  }

  /** Every code begins with `code`; with two or more records every code is
      longer than `code`. */
  lemma {:induction false} ShannonFanoExtend(table: seq<FreqRecord>, start: nat, end: nat, code: string)
    requires start <= end < |table|
    ensures forall s :: s in ShannonFanoCodes(table, start, end, code) ==>
      IsPrefix(code, ShannonFanoCodes(table, start, end, code)[s])
    ensures start < end ==> forall s :: s in ShannonFanoCodes(table, start, end, code) ==>
      |ShannonFanoCodes(table, start, end, code)[s]| > |code|
    decreases end - start
  {
    var m := ShannonFanoCodes(table, start, end, code);
    if start + 1 == end {
      assert (code + "0")[..|code|] == code && (code + "1")[..|code|] == code;
    } else if start < end {
      var split := SplitIndex(table, start, end);
      var m0, m1 := ShannonFanoCodes(table, start, split, code + "0"), ShannonFanoCodes(table, split + 1, end, code + "1");
      assert m == m0 + m1;
      ShannonFanoExtend(table, start, split, code + "0");
      ShannonFanoExtend(table, split + 1, end, code + "1");
      ExtendUnion(m0, m1, code);
    }
  }

  /** With distinct symbols in the range, the codes are prefix-free. */
  lemma {:induction false} ShannonFanoPrefixFree(table: seq<FreqRecord>, start: nat, end: nat, code: string)
    requires start <= end < |table|
    requires Distinct(RangeSymbols(table, start, end))
    ensures PrefixFree(ShannonFanoCodes(table, start, end, code))
    decreases end - start
  {
    if start + 1 == end {
      var m := ShannonFanoCodes(table, start, end, code);
      assert RangeSymbols(table, start, end)[0] == table[start].symbol;
      assert RangeSymbols(table, start, end)[1] == table[end].symbol;
      forall a, b | a in m && b in m && a != b ensures !IsPrefix(m[a], m[b]) {
        assert m[a][|code|] != m[b][|code|];
      }
    } else if start < end {
      var split := SplitIndex(table, start, end);
      var left, right := RangeSymbols(table, start, split), RangeSymbols(table, split + 1, end);
      SplitRangeSymbols(table, start, split, end);
      DistinctHalves(left, right);
      ShannonFanoPrefixFree(table, start, split, code + "0");
      ShannonFanoPrefixFree(table, split + 1, end, code + "1");
      ShannonFanoKeys(table, start, split, code + "0");
      ShannonFanoKeys(table, split + 1, end, code + "1");
      ShannonFanoExtend(table, start, split, code + "0");
      ShannonFanoExtend(table, split + 1, end, code + "1");
      PrefixFreeSplit(ShannonFanoCodes(table, start, split, code + "0"),
                      ShannonFanoCodes(table, split + 1, end, code + "1"), left, right, code);
    }
  }
}
