/** What the two coders give for a whole frequency table: the code table
    of the Huffman tree walked from the empty code, and the Shannon-Fano
    table over the whole index range from the empty code. For each: exactly
    the table's symbols get a code, the codes are prefix-free, and with two
    or more symbols no code is empty, so the encoding of any text over those
    symbols decodes back to it; with a single symbol that symbol's code is
    empty. */
module Coding {
  import opened Seqs
  import opened Frequency
  import opened PrefixCodes
  import opened Huffman
  import opened ShannonFano

  /** The tree `buildHuffmanTree` returns for a non-empty table. */
  function HuffmanTree(table: seq<FreqRecord>): Node
    requires |table| >= 1
  {
    Combine(LeavesOf(table))
  }

  /** The codes the image pipeline derives from a table:
      `generateImageHuffmanCodes(tree, '', {})`. */
  function HuffmanTable(table: seq<FreqRecord>): CodeTable
    requires |table| >= 1
  {
    ImageCodes(HuffmanTree(table), "")
  }

  /** The codes `generateHuffmanCodes(tree, '')` assigns. */
  function HuffmanTextTable(table: seq<FreqRecord>): CodeTable
    requires |table| >= 1
  {
    TextCodes(HuffmanTree(table), "")
  }

  /** The codes `generateShannonFanoCodes(table, 0, table.length - 1, '')`
      assigns. */
  function ShannonFanoTable(table: seq<FreqRecord>): CodeTable
    requires |table| >= 1
  {
    ShannonFanoCodes(table, 0, |table| - 1, "")
  }

  /** A code table fit for the symbols `syms`: it codes exactly those
      symbols, it is prefix-free, and with two or more symbols no code is
      empty. */
  ghost predicate UsableCodes(codes: CodeTable, syms: seq<string>, n: nat) {
    && (forall s :: s in codes <==> s in syms)
    && PrefixFree(codes)
    && (n >= 2 ==> forall s :: s in codes ==> codes[s] != [])
  }

  lemma KeyCount(codes: CodeTable, table: seq<FreqRecord>)
    requires Distinct(Symbols(table))
    requires forall s :: s in codes <==> s in Symbols(table)
    ensures |codes| == |table|
  {
    DistinctCardinality(Symbols(table));
    assert codes.Keys == set s | s in Symbols(table);
  }

  /** The Huffman codes of a frequency table. */
  lemma HuffmanTableFacts(table: seq<FreqRecord>, syms: seq<string>)
    requires IsFrequencyTable(table, syms) && |table| >= 1
    ensures UsableCodes(HuffmanTable(table), syms, |table|)
    ensures |HuffmanTable(table)| == |table|
    ensures |table| == 1 ==> HuffmanTable(table) == map[table[0].symbol := ""]
  {
    var root := HuffmanTree(table);
    var codes := HuffmanTable(table);
    HuffmanTreeShape(table);
    DistinctPermutation(Symbols(table), LeafSymbols(root));
    ImageCodesKeys(root, "");
    ImageCodesPrefixFree(root, "");
    ImageCodesExtend(root, "");
    forall s ensures s in codes <==> s in Symbols(table) {
      assert s in LeafSymbols(root) <==> s in multiset(LeafSymbols(root));
      assert s in Symbols(table) <==> s in multiset(Symbols(table));
    }
    KeyCount(codes, table);
    if |table| >= 2 {
      forall s | s in codes ensures codes[s] != [] {
        assert |codes[s]| > 0;
      }
    } else {
      assert LeavesOf(table) == [Leaf(table[0].symbol, table[0].frequency)];
    }
  }

  /** For text, every symbol is one character, so the text walk assigns the
      same codes as the image walk. */
  lemma HuffmanTextTableIsHuffmanTable(table: seq<FreqRecord>, text: string)
    requires IsFrequencyTable(table, Chars(text)) && |table| >= 1
    ensures HuffmanTextTable(table) == HuffmanTable(table)
  {
    var root := HuffmanTree(table);
    forall s | s in ImageCodes(root, "") ensures |s| == 1 {
      HuffmanCodedSymbol(table, Chars(text), s);
      var i :| 0 <= i < |Chars(text)| && Chars(text)[i] == s;
    }
    TextCodesOfShortSymbols(root, "");
  }

  /** Only the table's symbols get a Huffman code. */
  lemma HuffmanCodedSymbol(table: seq<FreqRecord>, syms: seq<string>, s: string)
    requires IsFrequencyTable(table, syms) && |table| >= 1
    requires s in HuffmanTable(table)
    ensures s in syms
  {
    var root := HuffmanTree(table);
    HuffmanTreeShape(table);
    ImageCodesKeys(root, "");
    assert s in multiset(LeafSymbols(root));
    assert s in Symbols(table);
  }

  /** The Shannon-Fano codes of a frequency table. */
  lemma ShannonFanoTableFacts(table: seq<FreqRecord>, syms: seq<string>)
    requires IsFrequencyTable(table, syms) && |table| >= 1
    ensures UsableCodes(ShannonFanoTable(table), syms, |table|)
    ensures |ShannonFanoTable(table)| == |table|
    ensures |table| == 1 ==> ShannonFanoTable(table) == map[table[0].symbol := ""]
  {
    var end := |table| - 1;
    var codes := ShannonFanoTable(table);
    assert RangeSymbols(table, 0, end) == Symbols(table);
    ShannonFanoKeys(table, 0, end, "");
    ShannonFanoPrefixFree(table, 0, end, "");
    ShannonFanoExtend(table, 0, end, "");
    KeyCount(codes, table);
    if |table| >= 2 {
      forall s | s in codes ensures codes[s] != [] {
        assert |codes[s]| > 0;
      }
    }
  }

  /** Round trip: a usable code table decodes the encoding of any sequence
      of its symbols back to that sequence, and the encoding is as long as
      the table's weighted code length. */
  lemma UsableCodesRoundTrip(codes: CodeTable, table: seq<FreqRecord>, syms: seq<string>)
    requires IsFrequencyTable(table, syms) && |table| >= 2
    requires UsableCodes(codes, syms, |table|)
    ensures Decode(Encoding(syms, codes), codes) == Some(syms)
    ensures |Encoding(syms, codes)| == WeightedCodeLength(table, codes)
  {
    DecodeEncoding(syms, codes);
    EncodedLengthIsWeightedLength(syms, table, codes);
  }

  /** The Huffman text codes of a text with at least two distinct
      characters decode its encoding back to the text. */
  lemma HuffmanTextRoundTrip(text: string, table: seq<FreqRecord>)
    requires IsFrequencyTable(table, Chars(text)) && |table| >= 2
    ensures Decode(Encoding(Chars(text), HuffmanTextTable(table)), HuffmanTextTable(table)) == Some(Chars(text))
    ensures |Encoding(Chars(text), HuffmanTextTable(table))| == WeightedCodeLength(table, HuffmanTextTable(table))
  {
    HuffmanTableFacts(table, Chars(text));
    HuffmanTextTableIsHuffmanTable(table, text);
    UsableCodesRoundTrip(HuffmanTable(table), table, Chars(text));
  }

  /** The same for the Shannon-Fano codes. */
  lemma ShannonFanoTextRoundTrip(text: string, table: seq<FreqRecord>)
    requires IsFrequencyTable(table, Chars(text)) && |table| >= 2
    ensures Decode(Encoding(Chars(text), ShannonFanoTable(table)), ShannonFanoTable(table)) == Some(Chars(text))
    ensures |Encoding(Chars(text), ShannonFanoTable(table))| == WeightedCodeLength(table, ShannonFanoTable(table))
  {
    ShannonFanoTableFacts(table, Chars(text));
    UsableCodesRoundTrip(ShannonFanoTable(table), table, Chars(text));
  }

  /** A text of one repeated character gets the empty code from both coders,
      so both encodings are empty whatever the text's length. */
  lemma SingleSymbolEncodesEmpty(text: string, table: seq<FreqRecord>)
    requires IsFrequencyTable(table, Chars(text)) && |table| == 1
    ensures Encoding(Chars(text), HuffmanTextTable(table)) == ""
    ensures Encoding(Chars(text), ShannonFanoTable(table)) == ""
  {
    HuffmanTableFacts(table, Chars(text));
    HuffmanTextTableIsHuffmanTable(table, text);
    ShannonFanoTableFacts(table, Chars(text));
    EncodedLengthIsWeightedLength(Chars(text), table, HuffmanTable(table));
    EncodedLengthIsWeightedLength(Chars(text), table, ShannonFanoTable(table));
    var single := map[table[0].symbol := ""];
    var w := WeightOf(CodeLengthOf(single));
    assert table[1..] == [];
    assert SumBy(table[1..], w) == 0;
    assert w(table[0]) == 0;
    assert SumBy(table, w) == 0;
  }
}
