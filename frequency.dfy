/** Frequency analysis (`calculateFrequencies`, and the run-key counting of
    the image pipeline): count every symbol in a dictionary, list the
    dictionary's keys, and sort the records by frequency, highest first. */
module Frequency {
  import opened Seqs
  import opened StableSort

  /** One row of a frequency table. The source also stores a floating-point
      probability, frequency / total, which this model leaves out. */
  datatype FreqRecord = FreqRecord(symbol: string, frequency: nat)

  function Symbols(table: seq<FreqRecord>): (r: seq<string>)
    ensures |r| == |table|
    ensures forall i :: 0 <= i < |table| ==> r[i] == table[i].symbol
  {
    seq(|table|, i requires 0 <= i < |table| => table[i].symbol)
  }

  /** The characters of a text as the one-character strings a JavaScript
      string index yields. */
  function Chars(text: string): (r: seq<string>)
    ensures |r| == |text|
    ensures forall i :: 0 <= i < |text| ==> r[i] == [text[i]]
  {
    seq(|text|, i requires 0 <= i < |text| => [text[i]])
  }

  /** Sort key of the table order: ascending in -frequency is descending in
      frequency (the comparator `(a, b) => b.frequency - a.frequency`). */
  function DescendingKey(r: FreqRecord): int { -(r.frequency as int) }

  predicate NonIncreasing(table: seq<FreqRecord>) {
    forall i, j :: 0 <= i < j < |table| ==> table[i].frequency >= table[j].frequency
  }

  /** `table` is a frequency table of `syms`: exactly one record per distinct
      symbol, carrying the number of times that symbol occurs. */
  ghost predicate IsFrequencyTable(table: seq<FreqRecord>, syms: seq<string>) {
    && Distinct(Symbols(table))
    && (forall s :: s in Symbols(table) <==> s in syms)
    && (forall i :: 0 <= i < |table| ==> table[i].frequency == multiset(syms)[table[i].symbol])
  }

  /** Records in dictionary-key order, each with the count of its key. */
  function Records(keys: seq<string>, bag: multiset<string>): (r: seq<FreqRecord>)
    ensures |r| == |keys|
    ensures forall i :: 0 <= i < |keys| ==> r[i] == FreqRecord(keys[i], bag[keys[i]])
  {
    seq(|keys|, i requires 0 <= i < |keys| => FreqRecord(keys[i], bag[keys[i]]))
  }

  /** The sorted table built from the dictionary of counts `bag`, whose keys
      are enumerated in the order `keys`. */
  function FrequencyTable(keys: seq<string>, bag: multiset<string>): (r: seq<FreqRecord>)
    ensures multiset(r) == multiset(Records(keys, bag))
    ensures SortedBy(r, DescendingKey)
  {
    SortBy(Records(keys, bag), DescendingKey)
  }

  function WeightOf(g: string -> int): FreqRecord -> int {
    (r: FreqRecord) => r.frequency * g(r.symbol)
  }

  /** Sum over the table of frequency times `g(symbol)`. */
  function TableWeight(table: seq<FreqRecord>, g: string -> int): int {
    SumBy(table, WeightOf(g))
  }

  /** Adding one record at the end adds its frequency times `g(symbol)`. */
  lemma TableWeightSnoc(table: seq<FreqRecord>, r: FreqRecord, g: string -> int)
    ensures TableWeight(table + [r], g) == TableWeight(table, g) + r.frequency * g(r.symbol)
  {
    SumBySnoc(table, r, WeightOf(g));
    assert WeightOf(g)(r) == r.frequency * g(r.symbol);
  }

  function One(s: string): int { 1 }

  /** Sum of the frequencies (the `totalSymbols` accumulator). */
  function TotalFrequency(table: seq<FreqRecord>): int {
    TableWeight(table, One)
  }

  lemma TotalFrequencyCons(table: seq<FreqRecord>)
    requires table != []
    ensures TotalFrequency(table) == table[0].frequency + TotalFrequency(table[1..])
  {
    assert WeightOf(One)(table[0]) == table[0].frequency;
  }

  /** Sum over the distinct `keys` of count times `g(key)`. */
  function BagWeight(keys: seq<string>, bag: multiset<string>, g: string -> int): int {
    if keys == [] then 0 else bag[keys[0]] * g(keys[0]) + BagWeight(keys[1..], bag, g)
  }

  // ---------------------------------------------------------------------
  // The loops of the source

  /** The counting loop: `frequencies[char] = (frequencies[char] || 0) + 1`. */
  method CountOccurrences(syms: seq<string>) returns (counts: map<string, nat>)
    ensures forall s :: s in counts <==> s in syms
    ensures forall s :: s in counts ==> counts[s] == multiset(syms)[s]
  {
    counts := map[];
    var i := 0;
    while i < |syms|
      invariant 0 <= i <= |syms|
      invariant forall s :: s in counts <==> s in syms[..i]
      invariant forall s :: s in counts ==> counts[s] == multiset(syms[..i])[s]
    {
      var s := syms[i];
      counts := counts[s := (if s in counts then counts[s] else 0) + 1];
      assert syms[..i + 1] == syms[..i] + [s];
      i := i + 1;
    }
    assert syms[..|syms|] == syms;
  }

  /** `Object.keys`: every key once, in an order this model leaves open
      (JavaScript lists integer-like keys first, then insertion order). */
  method ObjectKeys(counts: map<string, nat>) returns (keys: seq<string>)
    ensures Distinct(keys)
    ensures forall k :: k in keys <==> k in counts
  {
    keys := [];
    var rest := counts.Keys;
    while rest != {}
      invariant Distinct(keys)
      invariant forall k :: k in counts <==> k in keys || k in rest
      invariant forall k :: k in keys ==> k !in rest
      decreases |rest|
    {
      var k :| k in rest;
      keys := keys + [k];
      rest := rest - {k};
    }
  }

  /** Records in key order, then the stable descending sort. */
  method TableFromCounts(counts: map<string, nat>, ghost syms: seq<string>)
    returns (table: seq<FreqRecord>, ghost keyOrder: seq<string>)
    requires forall s :: s in counts <==> s in syms
    requires forall s :: s in counts ==> counts[s] == multiset(syms)[s]
    ensures IsFrequencyTable(table, syms)
    ensures NonIncreasing(table)
    ensures TotalFrequency(table) == |syms|
    ensures Distinct(keyOrder) && (forall k :: k in keyOrder <==> k in syms)
    ensures table == FrequencyTable(keyOrder, multiset(syms))
  {
    var keys := ObjectKeys(counts);
    keyOrder := keys;
    var records := seq(|keys|, i requires 0 <= i < |keys| => FreqRecord(keys[i], counts[keys[i]]));
    assert records == Records(keyOrder, multiset(syms));
    table := SortBy(records, DescendingKey);
    FrequencyTableFacts(keyOrder, syms);
  }

  /** `calculateFrequencies`: the frequency table of a text, sorted by
      frequency from highest to lowest. */
  method CalculateFrequencies(text: string) returns (table: seq<FreqRecord>, ghost keyOrder: seq<string>)
    ensures IsFrequencyTable(table, Chars(text))
    ensures NonIncreasing(table)
    ensures forall i :: 0 <= i < |table| ==> table[i].frequency >= 1
    ensures TotalFrequency(table) == |text|
    ensures Distinct(keyOrder) && (forall k :: k in keyOrder <==> k in Chars(text))
    ensures table == FrequencyTable(keyOrder, multiset(Chars(text)))
  {
    var counts := CountOccurrences(Chars(text));
    table, keyOrder := TableFromCounts(counts, Chars(text));
    PositiveFrequencies(table, Chars(text));
  }

  // ---------------------------------------------------------------------
  // Properties of frequency tables

  lemma PositiveFrequencies(table: seq<FreqRecord>, syms: seq<string>)
    requires IsFrequencyTable(table, syms)
    ensures forall i :: 0 <= i < |table| ==> table[i].frequency >= 1
  {
    forall i | 0 <= i < |table| ensures table[i].frequency >= 1 {
      assert table[i].symbol == Symbols(table)[i];
      assert table[i].symbol in syms;
    }
  }

  lemma SymbolsOfSorted(records: seq<FreqRecord>)
    ensures multiset(Symbols(SortBy(records, DescendingKey))) == multiset(Symbols(records))
  {
    var sorted := SortBy(records, DescendingKey);
    SortByFlatMap(records, DescendingKey, SymbolSeq);
    FlatMapSymbols(records);
    FlatMapSymbols(sorted);
  }

  function SymbolSeq(r: FreqRecord): seq<string> { [r.symbol] }

  lemma {:induction false} FlatMapSymbols(table: seq<FreqRecord>)
    ensures FlatMap(table, SymbolSeq) == Symbols(table)
  {
    if table != [] {
      FlatMapSymbols(table[1..]);
      assert Symbols(table) == [table[0].symbol] + Symbols(table[1..]);
    }
  }

  /** The table built from a dictionary of counts is a frequency table of
      the counted symbols, sorted highest first, and its frequencies add up
      to the number of symbols counted. */
  lemma FrequencyTableFacts(keys: seq<string>, syms: seq<string>)
    requires Distinct(keys)
    requires forall k :: k in keys <==> k in syms
    ensures IsFrequencyTable(FrequencyTable(keys, multiset(syms)), syms)
    ensures NonIncreasing(FrequencyTable(keys, multiset(syms)))
    ensures TotalFrequency(FrequencyTable(keys, multiset(syms))) == |syms|
  {
    var table := FrequencyTable(keys, multiset(syms));
    SortedTableSymbols(keys, syms);
    SortedTableCounts(keys, multiset(syms));
    SortedTableNonIncreasing(keys, multiset(syms));
    TotalFrequencyIsLength(table, syms);
  }

  lemma SortedTableSymbols(keys: seq<string>, syms: seq<string>)
    requires Distinct(keys)
    requires forall k :: k in keys <==> k in syms
    ensures Distinct(Symbols(FrequencyTable(keys, multiset(syms))))
    ensures forall s :: s in Symbols(FrequencyTable(keys, multiset(syms))) <==> s in syms
  {
    var records := Records(keys, multiset(syms));
    var symbols := Symbols(SortBy(records, DescendingKey));
    assert Symbols(records) == keys;
    SymbolsOfSorted(records);
    DistinctPermutation(keys, symbols);
    forall s ensures s in symbols <==> s in syms {
      assert s in symbols <==> s in multiset(symbols);
      assert s in keys <==> s in multiset(keys);
    }
  }

  lemma SortedTableCounts(keys: seq<string>, bag: multiset<string>)
    ensures forall i :: 0 <= i < |FrequencyTable(keys, bag)| ==>
      FrequencyTable(keys, bag)[i].frequency == bag[FrequencyTable(keys, bag)[i].symbol]
  {
    var records := Records(keys, bag);
    var table := FrequencyTable(keys, bag);
    forall i | 0 <= i < |table| ensures table[i].frequency == bag[table[i].symbol] {
      assert table[i] in multiset(records);
      var j :| 0 <= j < |records| && records[j] == table[i];
    }
  }

  lemma SortedTableNonIncreasing(keys: seq<string>, bag: multiset<string>)
    ensures NonIncreasing(FrequencyTable(keys, bag))
  {
    var table := FrequencyTable(keys, bag);
    forall i, j | 0 <= i < j < |table| ensures table[i].frequency >= table[j].frequency {
      assert DescendingKey(table[i]) <= DescendingKey(table[j]);
    }
  }

  lemma {:induction false} SumOfOnes(syms: seq<string>)
    ensures SumBy(syms, One) == |syms|
  {
    if syms != [] {
      SumOfOnes(syms[1..]);
    }
  }

  /** The frequencies of a frequency table add up to the number of symbols. */
  lemma TotalFrequencyIsLength(table: seq<FreqRecord>, syms: seq<string>)
    requires IsFrequencyTable(table, syms)
    ensures TotalFrequency(table) == |syms|
  {
    TableWeightCounts(table, syms, One);
    SumOfOnes(syms);
  }

  lemma {:induction false} TableWeightIsBagWeight(table: seq<FreqRecord>, bag: multiset<string>, g: string -> int)
    requires forall i :: 0 <= i < |table| ==> table[i].frequency == bag[table[i].symbol]
    ensures TableWeight(table, g) == BagWeight(Symbols(table), bag, g)
  {
    if table != [] {
      TableWeightIsBagWeight(table[1..], bag, g);
      assert Symbols(table)[1..] == Symbols(table[1..]);
    }
  }

  lemma {:induction false} BagWeightEmpty(keys: seq<string>, g: string -> int)
    ensures BagWeight(keys, multiset{}, g) == 0
  {
    if keys != [] {
      BagWeightEmpty(keys[1..], g);
    }
  }

  /** Adding one occurrence of a key listed exactly once adds its weight. */
  lemma {:induction false} BagWeightAdd(keys: seq<string>, bag: multiset<string>, x: string, g: string -> int)
    requires Distinct(keys)
    requires x in keys
    ensures BagWeight(keys, bag + multiset{x}, g) == BagWeight(keys, bag, g) + g(x)
  {
    var tail := keys[1..];
    assert Distinct(tail) by {
      forall i, j | 0 <= i < j < |tail| ensures tail[i] != tail[j] {
        assert tail[i] == keys[i + 1] && tail[j] == keys[j + 1];
      }
    }
    if keys[0] == x {
      assert x !in tail by {
        forall k | 0 <= k < |tail| ensures tail[k] != x {
          assert tail[k] == keys[k + 1];
        }
      }
      BagWeightOutside(tail, bag, x, g);
    } else {
      assert x in tail by {
        var k :| 0 <= k < |keys| && keys[k] == x;
        assert tail[k - 1] == x;
      }
      BagWeightAdd(tail, bag, x, g);
    }
  }

  lemma {:induction false} BagWeightOutside(keys: seq<string>, bag: multiset<string>, x: string, g: string -> int)
    requires x !in keys
    ensures BagWeight(keys, bag + multiset{x}, g) == BagWeight(keys, bag, g)
  {
    if keys != [] {
      assert keys[0] != x;
      BagWeightOutside(keys[1..], bag, x, g);
    }
  }

  lemma {:induction false} BagWeightCounts(keys: seq<string>, syms: seq<string>, g: string -> int)
    requires Distinct(keys)
    requires forall s :: s in syms ==> s in keys
    ensures BagWeight(keys, multiset(syms), g) == SumBy(syms, g)
  {
    if syms == [] {
      BagWeightEmpty(keys, g);
    } else {
      BagWeightCounts(keys, syms[1..], g);
      assert syms == [syms[0]] + syms[1..];
      assert multiset(syms) == multiset(syms[1..]) + multiset{syms[0]};
      BagWeightAdd(keys, multiset(syms[1..]), syms[0], g);
    }
  }

  /** Summing frequency times `g(symbol)` over a frequency table equals
      summing `g` over the symbols themselves. */
  lemma TableWeightCounts(table: seq<FreqRecord>, syms: seq<string>, g: string -> int)
    requires IsFrequencyTable(table, syms)
    ensures TableWeight(table, g) == SumBy(syms, g)
  {
    TableWeightIsBagWeight(table, multiset(syms), g);
    BagWeightCounts(Symbols(table), syms, g);
  }

  /** Ties keep the dictionary-key order: the records sharing a frequency
      appear in the table in the order their keys were enumerated. */
  lemma FrequencyTiesKeepKeyOrder(keys: seq<string>, bag: multiset<string>, f: nat)
    ensures KeyFilter(FrequencyTable(keys, bag), DescendingKey, -(f as int))
         == KeyFilter(Records(keys, bag), DescendingKey, -(f as int))
  {
    var records := Records(keys, bag);
    SortByStable(records, DescendingKey, -(f as int));
    assert FrequencyTable(keys, bag) == SortBy(records, DescendingKey);
  }
}
