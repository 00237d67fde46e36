/** Code tables, encoding by concatenation (`encodeText` and the image
    encoding loop), the weighted code length the statistics accumulate, and
    a decoder that exists only in this model: the source hands decoding to
    a remote service, so the round trip is stated against this decoder. */
module PrefixCodes {
  import opened Seqs
  import opened Frequency

  /** A code table: symbol to a string of '0' and '1' (a JavaScript object
      used as a dictionary). */
  type CodeTable = map<string, string>

  predicate IsPrefix(p: string, s: string) {
    |p| <= |s| && s[..|p|] == p
  }

  /** No symbol's code is a prefix of (or equal to) another symbol's code. */
  ghost predicate PrefixFree(codes: CodeTable) {
    forall a, b :: a in codes && b in codes && a != b ==> !IsPrefix(codes[a], codes[b])
  }

  /** `codes[s]` as a JavaScript string concatenation sees it: a missing key
      reads as `undefined`, which concatenates as the text "undefined". */
  function Lookup(codes: CodeTable, s: string): string {
    if s in codes then codes[s] else "undefined"
  }

  /** The codes of `syms` concatenated in order. */
  function Encoding(syms: seq<string>, codes: CodeTable): string {
    if syms == [] then [] else Lookup(codes, syms[0]) + Encoding(syms[1..], codes)
  }

  function CodeLengthOf(codes: CodeTable): string -> int {
    s => |Lookup(codes, s)|
  }

  /** Sum over the table of frequency times code length (the
      `huffmanTotalLength` / `shannonFanoTotalLength` accumulators). */
  function WeightedCodeLength(table: seq<FreqRecord>, codes: CodeTable): int {
    TableWeight(table, CodeLengthOf(codes))
  }

  /** `encodeText`: append the code of every character in turn. */
  method EncodeText(text: string, codes: CodeTable) returns (encoded: string)
    ensures encoded == Encoding(Chars(text), codes)
    ensures |encoded| == SumBy(Chars(text), CodeLengthOf(codes))
  {
    encoded := "";
    var i := 0;
    while i < |text|
      invariant 0 <= i <= |text|
      invariant encoded == Encoding(Chars(text)[..i], codes)
    {
      EncodingAppend(Chars(text)[..i], [[text[i]]], codes);
      assert Chars(text)[..i + 1] == Chars(text)[..i] + [[text[i]]];
      encoded := encoded + Lookup(codes, [text[i]]);
      i := i + 1;
    }
    assert Chars(text)[..|text|] == Chars(text);
    EncodingLength(Chars(text), codes);
  }

  lemma {:induction false} EncodingAppend(a: seq<string>, b: seq<string>, codes: CodeTable)
    ensures Encoding(a + b, codes) == Encoding(a, codes) + Encoding(b, codes)
  {
    if a == [] {
      assert a + b == b;
    } else {
      assert (a + b)[1..] == a[1..] + b;
      EncodingAppend(a[1..], b, codes);
    }
  }

  /** The encoding is as long as the sum of the code lengths of its symbols. */
  lemma {:induction false} EncodingLength(syms: seq<string>, codes: CodeTable)
    ensures |Encoding(syms, codes)| == SumBy(syms, CodeLengthOf(codes))
  {
    if syms != [] {
      EncodingLength(syms[1..], codes);
    }
  }

  /** The accumulators of the statistics: for every record, frequency times
      the length of its symbol's code, and the frequencies themselves. The
      source reads `codes[item.symbol].length`, which throws for a symbol
      without a code. */
  method CodeLengthTotals(table: seq<FreqRecord>, codes: CodeTable) returns (totalLength: int, totalSymbols: int)
    requires forall i :: 0 <= i < |table| ==> table[i].symbol in codes
    ensures totalLength == WeightedCodeLength(table, codes)
    ensures totalSymbols == TotalFrequency(table)
  {
    totalLength, totalSymbols := 0, 0;
    var i := 0;
    while i < |table|
      invariant 0 <= i <= |table|
      invariant totalLength == WeightedCodeLength(table[..i], codes)
      invariant totalSymbols == TotalFrequency(table[..i])
    {
      var item := table[i];
      assert table[..i + 1] == table[..i] + [item];
      TableWeightSnoc(table[..i], item, CodeLengthOf(codes));
      TableWeightSnoc(table[..i], item, One);
      assert CodeLengthOf(codes)(item.symbol) == |codes[item.symbol]|;
      totalLength := totalLength + item.frequency * |codes[item.symbol]|;
      totalSymbols := totalSymbols + item.frequency;
      i := i + 1;
    }
    assert table[..|table|] == table;
  }

  /** The encoded length equals the weighted code length of the frequency
      table of the encoded symbols. */
  lemma EncodedLengthIsWeightedLength(syms: seq<string>, table: seq<FreqRecord>, codes: CodeTable)
    requires IsFrequencyTable(table, syms)
    ensures |Encoding(syms, codes)| == WeightedCodeLength(table, codes)
  {
    EncodingLength(syms, codes);
    TableWeightCounts(table, syms, CodeLengthOf(codes));
  }

  // ---------------------------------------------------------------------
  // Decoding (specification only)

  /** Greedy decoding: repeatedly strip the one non-empty code that starts
      the remaining bits. */
  ghost function Decode(bits: string, codes: CodeTable): (r: Option<seq<string>>)
    ensures r.Some? ==> Encoding(r.value, codes) == bits
    decreases |bits|
  {
    if bits == [] then Some([])
    else if exists s :: s in codes && codes[s] != [] && IsPrefix(codes[s], bits) then
      var s :| s in codes && codes[s] != [] && IsPrefix(codes[s], bits);
      match Decode(bits[|codes[s]|..], codes)
      case None => None
      case Some(rest) =>
        assert ([s] + rest)[1..] == rest;
        assert codes[s] + bits[|codes[s]|..] == bits;
        Some([s] + rest)
    else None
  }

  /** Two prefixes of one string are prefixes of each other. */
  lemma PrefixesOfSameString(p: string, q: string, s: string)
    requires IsPrefix(p, s) && IsPrefix(q, s)
    ensures IsPrefix(p, q) || IsPrefix(q, p)
  {
    if |p| <= |q| {
      assert q[..|p|] == s[..|p|];
    } else {
      assert p[..|q|] == s[..|q|];
    }
  }

  /** In a prefix-free table, the only non-empty code that starts
      `codes[x] + rest` is the code of `x`. */
  lemma OnlyMatchingCode(codes: CodeTable, x: string, rest: string)
    requires PrefixFree(codes)
    requires x in codes
    ensures forall s :: s in codes && codes[s] != [] && IsPrefix(codes[s], codes[x] + rest) ==> s == x
  {
    var bits := codes[x] + rest;
    assert IsPrefix(codes[x], bits);
    forall s | s in codes && codes[s] != [] && IsPrefix(codes[s], bits) ensures s == x {
      PrefixesOfSameString(codes[s], codes[x], bits);
    }
  }

  /** One decoding step when exactly one non-empty code, that of `x`,
      starts the bits. */
  lemma DecodeStep(bits: string, codes: CodeTable, x: string)
    requires x in codes && codes[x] != [] && IsPrefix(codes[x], bits)
    requires forall s :: s in codes && codes[s] != [] && IsPrefix(codes[s], bits) ==> s == x
    ensures Decode(bits, codes) ==
      match Decode(bits[|codes[x]|..], codes)
      case None => None
      case Some(rest) => Some([x] + rest)
  {
  }

  /** Round trip: decoding the encoding of symbols that all have non-empty
      codes in a prefix-free table gives the symbols back. */
  lemma {:induction false} DecodeEncoding(syms: seq<string>, codes: CodeTable)
    requires PrefixFree(codes)
    requires forall s :: s in codes ==> codes[s] != []
    requires forall s :: s in syms ==> s in codes
    ensures Decode(Encoding(syms, codes), codes) == Some(syms)
  {
    if syms != [] {
      var x := syms[0];
      var rest := Encoding(syms[1..], codes);
      var bits := codes[x] + rest;
      assert Encoding(syms, codes) == bits;
      assert IsPrefix(codes[x], bits);
      OnlyMatchingCode(codes, x, rest);
      DecodeStep(bits, codes, x);
      assert bits[|codes[x]|..] == rest;
      DecodeEncoding(syms[1..], codes);
      assert syms == [x] + syms[1..];
    }
  }

  /** The symbols of a merged table are those of its two parts. */
  lemma KeysOfMerge(m0: CodeTable, m1: CodeTable, left: seq<string>, right: seq<string>)
    requires forall s :: s in m0 <==> s in left
    requires forall s :: s in m1 <==> s in right
    ensures forall s :: s in m0 + m1 <==> s in left + right
  {
  }

  /** Codes that start with `p + "0"` or `p + "1"` start with `p` and are
      longer than it. */
  lemma ExtendUnion(m0: CodeTable, m1: CodeTable, p: string)
    requires forall s :: s in m0 ==> IsPrefix(p + "0", m0[s])
    requires forall s :: s in m1 ==> IsPrefix(p + "1", m1[s])
    ensures forall s :: s in m0 + m1 ==> IsPrefix(p, (m0 + m1)[s]) && |(m0 + m1)[s]| > |p|
  {
    forall s | s in m0 + m1 ensures IsPrefix(p, (m0 + m1)[s]) && |(m0 + m1)[s]| > |p| {
      var c := (m0 + m1)[s];
      var start := if s in m1 then p + "1" else p + "0";
      assert IsPrefix(start, c);
      assert c[..|p|] == start[..|p|] == p;
    }
  }

  /** Two prefix-free tables whose codes start with `p + "0"` and `p + "1"`
      and whose symbols differ form one prefix-free table. */
  lemma PrefixFreeUnion(m0: CodeTable, m1: CodeTable, p: string)
    requires PrefixFree(m0) && PrefixFree(m1)
    requires m0.Keys !! m1.Keys
    requires forall s :: s in m0 ==> IsPrefix(p + "0", m0[s])
    requires forall s :: s in m1 ==> IsPrefix(p + "1", m1[s])
    ensures PrefixFree(m0 + m1)
  {
    var m := m0 + m1;
    forall a, b | a in m && b in m && a != b ensures !IsPrefix(m[a], m[b]) {
      if a in m0 && b in m1 {
        assert m[a] == m0[a] && m[b] == m1[b];
        assert m[a][|p|] == (p + "0")[|p|];
        assert m[b][|p|] == (p + "1")[|p|];
      } else if a in m1 && b in m0 {
        assert m[a] == m1[a] && m[b] == m0[b];
        assert m[a][|p|] == (p + "1")[|p|];
        assert m[b][|p|] == (p + "0")[|p|];
      }
    }
  }

  /** The same, with the symbols of each table given as a list and the two
      lists together duplicate-free. */
  lemma PrefixFreeSplit(m0: CodeTable, m1: CodeTable, left: seq<string>, right: seq<string>, p: string)
    requires PrefixFree(m0) && PrefixFree(m1)
    requires forall s :: s in m0 <==> s in left
    requires forall s :: s in m1 <==> s in right
    requires forall s :: s in left ==> s !in right
    requires forall s :: s in m0 ==> IsPrefix(p + "0", m0[s])
    requires forall s :: s in m1 ==> IsPrefix(p + "1", m1[s])
    ensures PrefixFree(m0 + m1)
  {
    assert m0.Keys !! m1.Keys by {
      forall s | s in m0 ensures s !in m1 {
        assert s in left;
      }
    }
    PrefixFreeUnion(m0, m1, p);
  }
}
