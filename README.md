# Huffman and Shannon-Fano coding engine of the compression demo

This Dafny project models the entropy-coding engine of a browser-based
compression demo (`app.js`). It covers:

- **Frequency tables.** Symbols are counted in a dictionary, the dictionary
  keys are listed, and the records are sorted by frequency, highest first,
  with a stable sort.
- **Huffman trees.** The node list is sorted ascending again and again. The
  two cheapest nodes are shifted off the front and their merge is pushed on
  the end.
- **Code walks.** The tree is walked with '0' for left and '1' for right.
  The walk either fills the global `huffmanCodes` table (leaves with
  one-character symbols only) or fills a dictionary passed in by the image
  pipeline (every leaf).
- **Shannon-Fano codes.** `findSplitIndex` scans a range for its
  best-balanced split, and `generateShannonFanoCodes` recurses into both
  halves.
- **Encoding.** `encodeText` concatenates the codes, and the statistics
  accumulate a weighted code length.
- **Image pipeline.** This is the integer part of `processImageCompression`:
  pixels become a string of '0'/'1', the string becomes maximal runs, and
  each run gets the key `bit + length`. The run keys get a frequency table
  and a Huffman dictionary, the runs are encoded, and the size estimate is
  the encoded length plus 16 bits per dictionary entry.

**Layout.**

- `seqs.dfy`: sums, flat maps, duplicate-freedom.
- `stable_sort.dfy`: the runtime's stable `Array.prototype.sort`, written as
  an insertion sort.
- `frequency.dfy`: the counting loop, `Object.keys` and
  `calculateFrequencies`.
- `prefix_codes.dfy`: code tables, `encodeText` and the statistics loop. It
  also holds a decoder that exists only in the model, because the
  application leaves decoding to a remote service.
- `huffman.dfy`: `buildHuffmanTree`, plus pure specifications of the two tree
  walks.
- `shannon_fano.dfy`: `findSplitIndex`, plus a pure specification of
  `generateShannonFanoCodes`.
- `code_generation.dfy`: the walks as the source writes them. They are
  recursive methods that assign into the global tables, a class
  `CodeGlobals`, or into a passed-in dictionary object, a class
  `CodeDictionary`.
- `coding.dfy`: what each coder yields for a whole frequency table, and the
  text round trips.
- `run_length.dfy` and `image_compression.dfy`: the image pipeline.

**Modelling choices.**

- **Symbols.** Symbols are strings, because the source keys its
  dictionaries by string. A text symbol is a one-character string, and a
  missing key reads as `undefined`. `Lookup` therefore yields the text
  "undefined", as JavaScript string concatenation does.
- **Key order.** The order in which `Object.keys` lists a dictionary is
  chosen nondeterministically (`ObjectKeys`). Results that depend on it are
  stated against a ghost `keyOrder`.
- **Empty image.** For an empty bit string, the run of `binaryString[0]`
  (`undefined`) is a run whose bit is `None`. Its key is "NaN", as the
  source's `undefined + 1` gives.
- **Text coders never called.** The source never calls
  `calculateFrequencies`, `generateHuffmanCodes`, `generateShannonFanoCodes`
  or `encodeText`. Text compression is sent to a remote service
  (app.js:97-107), which also returns the code tables, and these overwrite
  `huffmanCodes` and `shannonFanoCodes` (app.js:106-107). The top-level
  calls `generateHuffmanCodes(tree, '')` and
  `generateShannonFanoCodes(table, 0, table.length - 1, '')` that
  `Coding.HuffmanTextTable` and `Coding.ShannonFanoTable` describe are this
  model's assumption about how the functions are meant to be used.
- **One symbol.** As in the source, a table with a single symbol gives that
  symbol the empty code from both coders. Nothing substitutes "0".

## Model

| member | source | states |
|---|---|---|
| StableSort.SortBy | app.js:149 | the comparator sort yields a permutation of its input that is sorted by the key |
| StableSort.SortByStable | app.js:166 | the sort is stable: the elements sharing any key keep their relative order |
| StableSort.SortBySum | app.js:166 | sorting leaves any sum over the elements unchanged |
| Frequency.CountOccurrences | app.js:137-140 | the dictionary's keys are exactly the symbols that occur, and each value is that symbol's number of occurrences |
| Frequency.ObjectKeys | app.js:143 | every dictionary key is listed exactly once, and nothing else is listed |
| Frequency.TableFromCounts | app.js:143-149 | the records of a count dictionary, sorted, form a frequency table (one record per distinct symbol with its count), sorted non-increasing, summing to the number of symbols, in the stable-sort order of the key enumeration |
| Frequency.CalculateFrequencies | app.js:133-151 | the result has one record per distinct character with its count, every frequency is at least 1, the frequencies sum to the text length, and the records are sorted non-increasing by frequency |
| Frequency.Records | app.js:143-147 | defines the `Object.keys(...).map(...)` step: one record per listed key, in listing order, carrying that key's count; its meaning, a frequency table of the counted symbols once sorted, is stated by `FrequencyTableFacts` |
| Frequency.FrequencyTable | app.js:143-149 | the records after the descending stable sort: a permutation of them, sorted by frequency, highest first; records of equal frequency keep the key order (lemma `FrequencyTiesKeepKeyOrder`) |
| Frequency.PositiveFrequencies | app.js:139 | every record of a frequency table has frequency at least 1 |
| Frequency.FrequencyTableFacts | app.js:143-149 | sorting the records of distinct keys gives a frequency table of the counted symbols, non-increasing, with total equal to the symbol count |
| Frequency.TotalFrequencyIsLength | app.js:517 | the frequencies of a frequency table sum to the number of symbols counted |
| Frequency.TableWeightCounts | app.js:514-518 | summing frequency times g(symbol) over the table equals summing g over the symbol sequence |
| Frequency.FrequencyTiesKeepKeyOrder | app.js:143-149 | records of equal frequency appear in the order the dictionary keys were enumerated |
| PrefixCodes.Lookup | app.js:465 | defines `codes[symbol]` as string concatenation reads it: the code of a coded symbol, and the text "undefined" for a missing one (also the image loop, app.js:739); no contract of its own |
| PrefixCodes.Encoding | app.js:464-466 | defines the encoding of a symbol sequence as the in-order concatenation of the looked-up codes; its length and concatenation laws are `EncodingLength` and `EncodingAppend`; no contract of its own |
| PrefixCodes.EncodeText | app.js:462-468 | the result is the in-order concatenation of the characters' codes, and its length is the sum of their code lengths |
| PrefixCodes.EncodingLength | app.js:464-466 | the length of an encoding is the sum of the code lengths of its symbols |
| PrefixCodes.EncodingAppend | app.js:464-466 | encoding distributes over concatenation of symbol sequences |
| PrefixCodes.CodeLengthTotals | app.js:514-518 | the loop computes the weighted code length and the total frequency of the table |
| PrefixCodes.EncodedLengthIsWeightedLength | app.js:514-518 | the encoded length equals the weighted code length of the symbols' frequency table |
| PrefixCodes.Decode | app.js:470-501 | exists only in the model, because the source sends decoding to a remote service: greedy decoding by the one non-empty code that starts the bits; whatever it decodes re-encodes to the input bits |
| PrefixCodes.DecodeEncoding | app.js:462-468 | with a prefix-free table of non-empty codes covering the symbols, decoding the encoding gives the symbols back |
| PrefixCodes.PrefixFreeUnion | app.js:199-202 | the codes of two prefix-free halves with distinct symbols, started with `p+'0'` and `p+'1'`, are prefix-free together |
| Huffman.Merge | app.js:173-178 | the node pushed in place of the two cheapest: its leaves are the left leaves followed by the right leaves, and merging two well-formed nodes (symbol and frequency of every internal node are the concatenation and sum of its children's) gives a well-formed node |
| Huffman.LeavesOf | app.js:156-161 | defines the starting node list: one leaf per record, in table order; its meaning is stated by `FlatMapLeavesOf` and `HuffmanTreeShape` |
| Huffman.FlatMapLeavesOf | app.js:156-161 | reading the leaves of the starting node list from left to right gives back the frequency table, record for record |
| Huffman.MergeStep | app.js:164-182 | one loop iteration shrinks the node list by exactly one |
| Huffman.MergeStepTakesCheapest | app.js:166-181 | the iteration removes two nodes no dearer than any remaining one (the first no dearer than the second), keeps every other node, and appends their merge with summed frequency and concatenated symbol |
| Huffman.Combine | app.js:164-182 | defines the while loop run until one node remains (one `MergeStep` per iteration, the list shrinking by one each time); its properties are `CombineFrequency`, `CombineKeepsBag`, `CombineWellFormed` and `CombineInternal`; no contract of its own |
| Huffman.BuildHuffmanTree | app.js:154-186 | an empty table gives no root, and a non-empty one gives the root that repeating the iteration until one node remains produces |
| Huffman.CombineFrequency | app.js:175 | the root's frequency is the sum of the frequencies of the starting list |
| Huffman.CombineKeepsBag | app.js:173-181 | whatever a merge concatenates (leaf records, leaf symbols) is preserved as a multiset by the whole loop |
| Huffman.CombineWellFormed | app.js:173-178 | every internal node of the result carries the concatenated symbol and summed frequency of its children |
| Huffman.CombineInternal | app.js:164 | with two or more nodes the root is an internal node |
| Huffman.WellFormedSymbol | app.js:174 | a node's symbol is the left-to-right concatenation of its leaf symbols |
| Huffman.HuffmanTreeShape | app.js:154-186 | for a non-empty table, the root's frequency is the total frequency, its leaves are exactly the table's records, its symbol concatenates its leaf symbols, and it is internal when the table has two or more records |
| Huffman.TextCodes | app.js:189-203 | defines the codes `generateHuffmanCodes(node, code)` assigns: a leaf with a one-character symbol gets the code accumulated on the way down ('0' left, '1' right), a longer leaf symbol gets nothing; related to the image walk by `TextCodesRestrictImageCodes`; no contract of its own |
| Huffman.ImageCodes | app.js:771-785 | defines the codes `generateImageHuffmanCodes(node, code, codes)` assigns: every leaf gets the code accumulated on the way down, the right subtree's entries winning on a repeated symbol as the later assignment does; its keys, prefix extension, paths and prefix-freedom are the lemmas below; no contract of its own |
| Huffman.TextCodesRestrictImageCodes | app.js:193 | the text walk assigns exactly the image walk's codes of the one-character symbols |
| Huffman.TextCodesOfShortSymbols | app.js:193 | when every coded symbol is one character long, the text walk and the image walk assign the same table |
| Huffman.ImageCodesKeys | app.js:771-785 | the symbols given a code are exactly the leaf symbols |
| Huffman.ImageCodesExtend | app.js:780-784 | every code begins with the code the walk started from and is longer when the walk starts at an internal node |
| Huffman.ImageCodesArePaths | app.js:771-785 | with distinct leaf symbols, each code is the starting code followed by the root-to-leaf path ('0' left, '1' right) that reaches its symbol's leaf |
| Huffman.ImageCodesPrefixFree | app.js:771-785 | with distinct leaf symbols no code is a prefix of another |
| ShannonFano.SplitIndex | app.js:229-252 | the split lies in [start, end-1] (or is start for a one-record range), so both halves are non-empty |
| ShannonFano.Scan | app.js:241-249 | defines the second loop of `findSplitIndex` as a recursion over `i`, keeping the first `i` whose difference is strictly below the best so far; `ScanFindsFirstBest` states what it returns; no contract of its own |
| ShannonFano.ScanFindsFirstBest | app.js:241-249 | the second loop, started with the best difference set to the total, ends on the first split with the smallest imbalance |
| ShannonFano.SplitIndexIsFirstBest | app.js:236-251 | the split minimises abs(total - 2 * prefix sum), and every earlier split is strictly worse |
| ShannonFano.FirstBestSplitUnique | app.js:245 | the first minimising split is unique |
| ShannonFano.SplitDiffAtMostTotal | app.js:238 | no split is worse than the initial best difference, the total |
| ShannonFano.FindSplitIndex | app.js:229-252 | the two loops return the first split of smallest imbalance, which is the model's split |
| ShannonFano.SplitExample | app.js:229-252 | frequencies 5, 3, 2 over 0..2 split after index 0 |
| ShannonFano.ShannonFanoCodes | app.js:206-226 | defines the codes `generateShannonFanoCodes(freqData, start, end, code)` assigns: the code itself for one record, code+'0' and code+'1' for two, otherwise the left part up to the split with code+'0' and the rest with code+'1', the right part winning on a repeated symbol; its keys, prefix extension and prefix-freedom are the lemmas below; no contract of its own |
| ShannonFano.ShannonFanoKeys | app.js:206-226 | exactly the symbols of the range get a code, and a one-record range gets the starting code itself |
| ShannonFano.ShannonFanoExtend | app.js:214-225 | every code begins with the starting code, and is longer than it when the range has two or more records |
| ShannonFano.ShannonFanoPrefixFree | app.js:206-226 | with distinct symbols in the range no code is a prefix of another |
| CodeGeneration.CodeGlobals.constructor | app.js:19-20 | both global code tables start empty |
| CodeGeneration.CodeGlobals.GenerateHuffmanCodes | app.js:189-203 | the walk adds to `huffmanCodes` exactly the text codes of the tree (nothing for null) and leaves `shannonFanoCodes` alone |
| CodeGeneration.CodeGlobals.GenerateShannonFanoCodes | app.js:206-226 | the recursion adds to `shannonFanoCodes` exactly the Shannon-Fano codes of the range and leaves `huffmanCodes` alone |
| CodeGeneration.CodeDictionary.constructor | app.js:732 | the image code dictionary starts empty |
| CodeGeneration.GenerateImageHuffmanCodes | app.js:771-785 | the walk adds to the passed dictionary exactly the image codes of the tree (nothing for null) |
| Coding.HuffmanTable | app.js:731-733 | defines the Huffman dictionary of a frequency table: the image walk from '' over the tree built from it; `HuffmanTableFacts` states its properties; no contract of its own |
| Coding.HuffmanTextTable | app.js:189-203 | defines the table the call `generateHuffmanCodes(tree, '')` on the tree of a text's frequency table would fill (the source never makes this call, see "Modelling choices"); `HuffmanTextTableIsHuffmanTable` ties it to `HuffmanTable`; no contract of its own |
| Coding.ShannonFanoTable | app.js:206-226 | defines the table the call `generateShannonFanoCodes(table, 0, table.length - 1, '')` would fill (never made by the source either); `ShannonFanoTableFacts` states its properties; no contract of its own |
| Coding.KeyCount | app.js:744 | a code table keyed by the distinct symbols of a table has as many entries as the table has records |
| Coding.HuffmanTableFacts | app.js:731-733 | the Huffman codes of a frequency table cover exactly its symbols, are prefix-free, number one per record, are non-empty with two or more records, and are the single empty code with one record |
| Coding.HuffmanTextTableIsHuffmanTable | app.js:193 | for a text, whose symbols are single characters, the text walk and the image walk give the same codes |
| Coding.ShannonFanoTableFacts | app.js:206-226 | the Shannon-Fano codes of the whole table cover exactly its symbols, are prefix-free, number one per record, are non-empty with two or more records, and are the single empty code with one record |
| Coding.UsableCodesRoundTrip | app.js:462-468 | with such codes and two or more symbols, decoding the encoding gives the symbols back, and the encoding's length is the weighted code length |
| Coding.HuffmanTextRoundTrip | app.js:462-468 | a text with two or more distinct characters, encoded with its Huffman text codes, decodes back to the text, and its encoded length is the Huffman weighted length |
| Coding.ShannonFanoTextRoundTrip | app.js:462-468 | the same for its Shannon-Fano codes |
| Coding.SingleSymbolEncodesEmpty | app.js:208-210 | a text of one repeated character encodes to the empty string under both coders |
| RunLength.BinaryString | app.js:691-695 | one character per four channel values, '0' exactly when the pixel's first channel is 0, so the string is made of '0' and '1' |
| RunLength.PixelBit | app.js:694 | defines a pixel's character as '0' exactly when the first channel is 0; its contract states that the character is '0' or '1' |
| RunLength.RunLengths | app.js:698-713 | an empty string gives the single run of `undefined` with length 1; otherwise the runs are non-empty, neighbouring runs differ in bit, and expanding them gives the string back |
| RunLength.ExpandLength | app.js:698-713 | the run lengths sum to the length of the expanded string |
| RunLength.MaximalRunsUnique | app.js:702-710 | two maximal run lists with the same expansion are equal, so the scan's runs are the only maximal runs of the string |
| RunLength.RunKeys | app.js:717-718 | defines the key of each run, in run order; its meaning, that runs with a bit read back from their keys, is stated by `ParseRunKeysOfRunKeys` |
| RunLength.RunKey | app.js:718 | defines `run.bit + run.length`: the bit followed by the decimal text of the length, and "NaN" for the run whose bit is `undefined`; `ParseRunKeyOfRunKey` and `RunKeyInjective` state what it means; no contract of its own |
| RunLength.Decimal | app.js:718 | the decimal text of a length, as number-to-string conversion gives it, is non-empty and made of digits only (read back by `ParseDecimalOfDecimal`) |
| RunLength.ParseDecimalOfDecimal | app.js:718 | the decimal text of a length reads back as that length |
| RunLength.ParseRunKeyOfRunKey | app.js:718 | a run's key reads back as that run |
| RunLength.RunKeyInjective | app.js:718 | two runs with a bit have the same key exactly when they are the same run |
| RunLength.ParseRunKeysOfRunKeys | app.js:737-739 | the keys of a run list read back as that run list |
| ImageCompression.EncodeRuns | app.js:736-740 | the encoded image is the in-order concatenation of the codes of the run keys, and its length is the sum of their code lengths |
| ImageCompression.DecodeImage | app.js:736-740 | exists only in the model, because the source never decodes an image: decodes the keys with `Decode`, reads each key back as a run, and expands the runs; no contract of its own |
| ImageCompression.ProcessImageCompression | app.js:691-744 | the bits, maximal runs, run-key frequency table (summing to the number of runs), the Huffman dictionary of that table, and the encoding are as specified; the size estimate is the weighted code length plus 16 per record; with two or more keys the encoding decodes to the bit string, and with one key there is one run, an empty encoding and an estimate of 16 |
| ImageCompression.CodedImageFacts | app.js:731-744 | the dictionary has one entry per record, the encoded length is the weighted code length, two or more keys give the round trip, one key gives a single run and an empty encoding |
| ImageCompression.ImageRoundTrip | app.js:731-740 | with two or more distinct keys, decoding the encoded image, reading back the keys and expanding the runs gives the bit string |
| ImageCompression.SingleSymbolTable | app.js:700 | the frequency table of a single key (the empty image's) has one record |
| ImageCompression.FirstKeysDiffer | app.js:703-708 | the first two maximal runs have different keys |
| ImageCompression.SingleKeySingleRun | app.js:716-728 | a single distinct run key means a single run, that is a one-colour image |

## Left out

- The DOM, event listeners, `FileReader`, canvas drawing and the grey-level threshold (app.js:1-83) are left out. They are user interface and fractional pixel arithmetic.
- The `fetch` calls to the remote compress and decompress services (app.js:86-130, 471-501) are left out, because they are network I/O. The decoders here (`PrefixCodes.Decode`, `ImageCompression.DecodeImage`) exist only in the model to state round trips.
- Tree and table rendering and the Chart.js chart (app.js:255-459, 571-679) are left out, because they are display code.
- Probabilities, entropy, efficiencies, average lengths, ratios and the byte sizes (divisions by 8 and `toFixed`) are left out, because they are floating point. Only the integer bit counts and weighted sums behind them are modelled.
- Frequency.ObjectKeys: the JavaScript enumeration order (integer-like keys first in ascending order, then insertion order) is not modelled. The order is left open, and results are stated for whatever order was chosen.
- Frequency.CalculateFrequencies: characters are Dafny characters, not UTF-16 code units. A character outside the Basic Multilingual Plane counts as one symbol here but as two halves in JavaScript.
- ShannonFano.FindSplitIndex: frequencies are unbounded integers. JavaScript numbers are doubles, exact for any realistic total.
- CodeGeneration.CodeGlobals.GenerateShannonFanoCodes: requires a non-empty range inside the table. The source, called on an empty table, reads `freqData[0].symbol` of `undefined` and throws.
- PrefixCodes.CodeLengthTotals: requires every symbol to have a code. The source reads `.length` of `undefined` otherwise and throws.
- RunLength.Decimal: the decimal text of a run length is modelled without JavaScript's exponent form, which starts at 10^21 and which no image reaches.
