/** The code-generation walks as the source writes them: recursive
    procedures that assign into a dictionary as they go, either one of the
    two global tables (`huffmanCodes`, `shannonFanoCodes`) or a dictionary
    object passed in by the caller. Each is proved to add exactly the
    entries of the pure function that specifies it. */
module CodeGeneration {
  import opened Seqs
  import opened Frequency
  import opened PrefixCodes
  import opened Huffman
  import opened ShannonFano

  /** Number of nodes in a tree; the recursion measure of the walks. */
  function Size(n: Node): nat {
    match n
    case Leaf(_, _) => 1
    case Internal(_, _, l, r) => 1 + Size(l) + Size(r)
  }

  function OptionSize(node: Option<Node>): nat {
    if node.Some? then Size(node.value) else 0
  }

  /** `node.left` / `node.right`: a leaf's children are `null`. */
  function LeftChild(n: Node): (r: Option<Node>)
    ensures OptionSize(r) < Size(n)
  {
    if n.Internal? then Some(n.left) else None
  }

  function RightChild(n: Node): (r: Option<Node>)
    ensures OptionSize(r) < Size(n)
  {
    if n.Internal? then Some(n.right) else None
  }

  /** The entries a walk started at `node` adds: nothing for `null`. */
  function TextWalk(node: Option<Node>, code: string): CodeTable {
    if node.Some? then TextCodes(node.value, code) else map[]
  }

  function ImageWalk(node: Option<Node>, code: string): CodeTable {
    if node.Some? then ImageCodes(node.value, code) else map[]
  }

  /** Map union, where later entries win, is associative. */
  lemma MergeAssociative(a: CodeTable, b: CodeTable, c: CodeTable)
    ensures a + b + c == a + (b + c)
  {
    forall k | k in a + b + c ensures (a + b + c)[k] == (a + (b + c))[k] {
    }
  }

  /** The same, with the right-hand pair already merged. */
  lemma MergeRegroup(a: CodeTable, b: CodeTable, c: CodeTable, bc: CodeTable)
    requires bc == b + c
    ensures a + b + c == a + bc
  {
    MergeAssociative(a, b, c);
  }

  /** The two global code tables of the text side. */
  class CodeGlobals {
    var huffmanCodes: CodeTable
    var shannonFanoCodes: CodeTable

    constructor()
      ensures huffmanCodes == map[] && shannonFanoCodes == map[]
    {
      huffmanCodes := map[];
      shannonFanoCodes := map[];
    }

    /** `generateHuffmanCodes(node, code)`: a leaf with a one-character
        symbol gets `code`; otherwise both children are walked, left with
        '0' appended and then right with '1', and a `null` child returns at
        once. */
    method GenerateHuffmanCodes(node: Option<Node>, code: string)
      modifies this
      ensures huffmanCodes == old(huffmanCodes) + TextWalk(node, code)
      ensures shannonFanoCodes == old(shannonFanoCodes)
      decreases OptionSize(node)
    {
      if node.None? {
        return;
      }
      var n := node.value;
      if LeftChild(n).None? && RightChild(n).None? && |n.symbol| == 1 {
        huffmanCodes := huffmanCodes[n.symbol := code];
        return;
      }
      ghost var start := huffmanCodes;
      GenerateHuffmanCodes(LeftChild(n), code + "0");
      GenerateHuffmanCodes(RightChild(n), code + "1");
      MergeAssociative(start, TextWalk(LeftChild(n), code + "0"), TextWalk(RightChild(n), code + "1"));
    }

    /** `generateShannonFanoCodes(freqData, start, end, code)`. */
    method GenerateShannonFanoCodes(table: seq<FreqRecord>, start: nat, end: nat, code: string)
      requires start <= end < |table|
      modifies this
      ensures shannonFanoCodes == old(shannonFanoCodes) + ShannonFanoCodes(table, start, end, code)
      ensures huffmanCodes == old(huffmanCodes)
      decreases end - start
    {
      if start == end {
        shannonFanoCodes := shannonFanoCodes[table[start].symbol := code];
        return;
      }
      if start + 1 == end {
        shannonFanoCodes := shannonFanoCodes[table[start].symbol := code + "0"];
        shannonFanoCodes := shannonFanoCodes[table[end].symbol := code + "1"];
        return;
      }
      var splitIndex := FindSplitIndex(table, start, end);
      ghost var start0 := shannonFanoCodes;
      ghost var m0 := ShannonFanoCodes(table, start, splitIndex, code + "0");
      ghost var m1 := ShannonFanoCodes(table, splitIndex + 1, end, code + "1");
      ghost var whole := ShannonFanoCodes(table, start, end, code);
      assert whole == m0 + m1;
      GenerateShannonFanoCodes(table, start, splitIndex, code + "0");
      GenerateShannonFanoCodes(table, splitIndex + 1, end, code + "1");
      MergeRegroup(start0, m0, m1, whole);
    }
  }

  /** The dictionary object the image pipeline passes to the walk. */
  class CodeDictionary {
    var entries: CodeTable

    constructor()
      ensures entries == map[]
    {
      entries := map[];
    }
  }

  /** `generateImageHuffmanCodes(node, code, codes)`: like the text walk,
      but every leaf gets a code whatever its symbol's length. */
  method GenerateImageHuffmanCodes(node: Option<Node>, code: string, codes: CodeDictionary)
    modifies codes
    ensures codes.entries == old(codes.entries) + ImageWalk(node, code)
    decreases OptionSize(node)
  {
    if node.None? {
      return;
    }
    var n := node.value;
    if LeftChild(n).None? && RightChild(n).None? {
      codes.entries := codes.entries[n.symbol := code];
      return;
    }
    ghost var start := codes.entries;
    GenerateImageHuffmanCodes(LeftChild(n), code + "0", codes);
    GenerateImageHuffmanCodes(RightChild(n), code + "1", codes);
    MergeAssociative(start, ImageWalk(LeftChild(n), code + "0"), ImageWalk(RightChild(n), code + "1"));
  }
}
