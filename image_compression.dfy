/** The integer part of `processImageCompression`: pixels to bits, bits to
    runs, runs to a frequency table of run keys, the Huffman code of that
    table, the encoding of the runs and the size estimate in bits (encoded
    length plus 16 bits per dictionary entry). */
module ImageCompression {
  import opened Seqs
  import opened Frequency
  import opened PrefixCodes
  import opened Huffman
  import opened CodeGeneration
  import opened Coding
  import opened RunLength

  /** The loop that builds `encodedImage`: the code of each run's key, in
      run order. */
  method EncodeRuns(runs: seq<Run>, codes: CodeTable) returns (encoded: string)
    ensures encoded == Encoding(RunKeys(runs), codes)
    ensures |encoded| == SumBy(RunKeys(runs), CodeLengthOf(codes))
  {
    encoded := "";
    var i := 0;
    while i < |runs|
      invariant 0 <= i <= |runs|
      invariant encoded == Encoding(RunKeys(runs)[..i], codes)
    {
      var key := RunKey(runs[i]);
      EncodingAppend(RunKeys(runs)[..i], [key], codes);
      assert RunKeys(runs)[..i + 1] == RunKeys(runs)[..i] + [key];
      encoded := encoded + Lookup(codes, key);
      i := i + 1;
    }
    assert RunKeys(runs)[..|runs|] == RunKeys(runs);
    EncodingLength(RunKeys(runs), codes);
  }

  /** What a decoder holding the code dictionary recovers from the encoded
      image: decode the keys, read each key back as a run, expand the runs.
      (The source has no image decoder; this one exists only in the model.) */
  ghost function DecodeImage(encoded: string, codes: CodeTable): Option<string> {
    match Decode(encoded, codes)
    case None => None
    case Some(keys) =>
      match ParseRunKeys(keys)
      case None => None
      case Some(runs) => Some(Expand(runs))
  }

  /** `processImageCompression` from the pixel data on, without the
      floating-point sizes and the display: returns the bit string, the
      runs, the sorted run-key table, the code dictionary, the encoded
      image and the compressed size in bits (before the division by 8). */
  method ProcessImageCompression(data: seq<int>)
    returns (bits: string, runs: seq<Run>, table: seq<FreqRecord>, codes: CodeTable,
             encoded: string, compressedBits: int, ghost keyOrder: seq<string>)
    ensures |bits| == (|data| + 3) / 4 && IsBitString(bits)
    ensures forall k :: 0 <= k < |bits| ==> 4 * k < |data| && bits[k] == PixelBit(data[4 * k])
    ensures bits != [] ==> MaximalRuns(runs) && Expand(runs) == bits
    ensures bits == [] ==> runs == [Run(None, 1)]
    ensures IsFrequencyTable(table, RunKeys(runs)) && NonIncreasing(table)
    ensures TotalFrequency(table) == |runs|
    ensures table == FrequencyTable(keyOrder, multiset(RunKeys(runs)))
    ensures |table| >= 1 && codes == HuffmanTable(table)
    ensures encoded == Encoding(RunKeys(runs), codes)
    ensures compressedBits == WeightedCodeLength(table, codes) + 16 * |table|
    ensures |table| >= 2 ==> DecodeImage(encoded, codes) == Some(bits)
    ensures |table| == 1 ==> |runs| == 1 && encoded == "" && compressedBits == 16
  {
    bits := BinaryString(data);
    runs := RunLengths(bits);
    var keys := RunKeys(runs);
    var runFrequencies := CountOccurrences(keys);
    table, keyOrder := TableFromCounts(runFrequencies, keys);
    var root := BuildHuffmanTree(table);
    var dictionary := new CodeDictionary();
    GenerateImageHuffmanCodes(root, "", dictionary);
    codes := dictionary.entries;
    encoded := EncodeRuns(runs, codes);
    compressedBits := |encoded| + |codes| * 16;

    assert runs != [] by {
      assert Expand([]) == [];
    }
    assert keys[0] in Symbols(table);
    assert root == Some(HuffmanTree(table));
    EmptyMerge(HuffmanTable(table));
    CodedImageFacts(bits, runs, table);
  }

  lemma EmptyMerge(m: CodeTable)
    ensures map[] + m == m
  {
  }

  /** The facts about the code dictionary and the encoded image that the
      pipeline promises, from the shape of its runs and its table. */
  lemma CodedImageFacts(bits: string, runs: seq<Run>, table: seq<FreqRecord>)
    requires IsFrequencyTable(table, RunKeys(runs)) && |table| >= 1
    requires bits != [] ==> MaximalRuns(runs) && Expand(runs) == bits
    requires bits == [] ==> runs == [Run(None, 1)]
    ensures var codes := HuffmanTable(table);
      var encoded := Encoding(RunKeys(runs), codes);
      && |codes| == |table|
      && |encoded| == WeightedCodeLength(table, codes)
      && (|table| >= 2 ==> DecodeImage(encoded, codes) == Some(bits))
      && (|table| == 1 ==> |runs| == 1 && encoded == "" && |codes| == 1)
  {
    var codes := HuffmanTable(table);
    HuffmanTableFacts(table, RunKeys(runs));
    EncodedLengthIsWeightedLength(RunKeys(runs), table, codes);
    if |table| >= 2 {
      ImageRoundTrip(bits, runs, table);
    } else {
      SingleKeySingleRun(bits, runs, table);
      var w := WeightOf(CodeLengthOf(codes));
      assert table[1..] == [];
      assert SumBy(table[1..], w) == 0;
      assert w(table[0]) == 0;
    }
  }

  /** With two or more distinct run keys the encoded image decodes back to
      the bit string. */
  lemma ImageRoundTrip(bits: string, runs: seq<Run>, table: seq<FreqRecord>)
    requires IsFrequencyTable(table, RunKeys(runs)) && |table| >= 2
    requires bits != [] ==> MaximalRuns(runs) && Expand(runs) == bits
    requires bits == [] ==> runs == [Run(None, 1)]
    ensures DecodeImage(Encoding(RunKeys(runs), HuffmanTable(table)), HuffmanTable(table)) == Some(bits)
  {
    var codes := HuffmanTable(table);
    if bits == [] {
      SingleSymbolTable(table, RunKeys(runs));
    }
    HuffmanTableFacts(table, RunKeys(runs));
    DecodeEncoding(RunKeys(runs), codes);
    ParseRunKeysOfRunKeys(runs);
  }

  /** A frequency table of a one-element sequence has one record. */
  lemma SingleSymbolTable(table: seq<FreqRecord>, syms: seq<string>)
    requires IsFrequencyTable(table, syms) && |syms| == 1
    ensures |table| == 1
  {
    DistinctCardinality(Symbols(table));
    assert syms == [syms[0]];
    assert (set x | x in Symbols(table)) == {syms[0]};
  }

  /** The first two of several maximal runs have different keys. */
  lemma FirstKeysDiffer(runs: seq<Run>)
    requires MaximalRuns(runs)
    ensures |runs| >= 2 ==> RunKeys(runs)[0] != RunKeys(runs)[1]
  {
    if |runs| >= 2 {
      RunKeyInjective(runs[0], runs[1]);
    }
  }

  /** A single run key means a single run: neighbouring maximal runs differ
      in their bit and so in their key. A one-colour image therefore encodes
      to nothing, and only its dictionary entry is counted. */
  lemma SingleKeySingleRun(bits: string, runs: seq<Run>, table: seq<FreqRecord>)
    requires IsFrequencyTable(table, RunKeys(runs)) && |table| == 1
    requires bits != [] ==> MaximalRuns(runs) && Expand(runs) == bits
    requires bits == [] ==> runs == [Run(None, 1)]
    ensures |runs| == 1
  {
    if bits != [] {
      var keys := RunKeys(runs);
      assert Expand([]) == [];
      assert Symbols(table) == [table[0].symbol];
      assert forall i :: 0 <= i < |keys| ==> keys[i] == table[0].symbol by {
        forall i | 0 <= i < |keys| ensures keys[i] == table[0].symbol {
          assert keys[i] in Symbols(table);
        }
      }
      FirstKeysDiffer(runs);
    }
  }
}
