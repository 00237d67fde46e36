/** Huffman coding: `buildHuffmanTree` repeatedly sorts the working node list
    by frequency, takes the two cheapest nodes off its front and appends
    their merge; `generateHuffmanCodes` and `generateImageHuffmanCodes` walk
    the finished tree, appending '0' for left and '1' for right. */
module Huffman {
  import opened Seqs
  import opened StableSort
  import opened Frequency
  import opened PrefixCodes

  /** A tree node. An internal node stores, as the source's node objects do,
      the concatenation of its children's symbols and the sum of their
      frequencies. */
  datatype Node =
    | Leaf(symbol: string, frequency: nat)
    | Internal(symbol: string, frequency: nat, left: Node, right: Node)

  function NodeFrequency(n: Node): int { n.frequency }

  /** The node that replaces the two cheapest ones. */
  function Merge(left: Node, right: Node): (r: Node)
    ensures WellFormed(left) && WellFormed(right) ==> WellFormed(r)
    ensures Leaves(r) == Leaves(left) + Leaves(right)
  {
    Internal(left.symbol + right.symbol, left.frequency + right.frequency, left, right)
  }

  function LeafOf(r: FreqRecord): Node { Leaf(r.symbol, r.frequency) }

  /** `freqData.map(...)`: one leaf per record, in table order. */
  function LeavesOf(table: seq<FreqRecord>): (r: seq<Node>)
    ensures |r| == |table|
    ensures forall i :: 0 <= i < |table| ==> r[i] == LeafOf(table[i])
  {
    seq(|table|, i requires 0 <= i < |table| => LeafOf(table[i]))
  }

  /** The leaf records of a tree, left to right. */
  function Leaves(n: Node): seq<FreqRecord> {
    match n
    case Leaf(s, f) => [FreqRecord(s, f)]
    case Internal(_, _, l, r) => Leaves(l) + Leaves(r)
  }

  /** The leaf symbols of a tree, left to right. */
  function LeafSymbols(n: Node): seq<string> {
    match n
    case Leaf(s, _) => [s]
    case Internal(_, _, l, r) => LeafSymbols(l) + LeafSymbols(r)
  }

  /** Every internal node's symbol and frequency are those a merge gives. */
  predicate WellFormed(n: Node) {
    match n
    case Leaf(_, _) => true
    case Internal(s, f, l, r) =>
      s == l.symbol + r.symbol && f == l.frequency + r.frequency && WellFormed(l) && WellFormed(r)
  }

  function Concat(syms: seq<string>): string {
    if syms == [] then "" else syms[0] + Concat(syms[1..])
  }

  /** One iteration of the while loop: sort ascending by frequency (stably),
      shift the first two nodes off, push their merge. */
  function MergeStep(nodes: seq<Node>): (r: seq<Node>)
    requires |nodes| >= 2
    ensures |r| == |nodes| - 1
  {
    SortByLength(nodes, NodeFrequency);
    var sorted := SortBy(nodes, NodeFrequency);
    sorted[2..] + [Merge(sorted[0], sorted[1])]
  }

  /** The loop of `buildHuffmanTree` run to the end on a non-empty list. */
  function Combine(nodes: seq<Node>): Node
    requires |nodes| >= 1
    decreases |nodes|
  {
    if |nodes| == 1 then nodes[0] else Combine(MergeStep(nodes))
  }

  /** `buildHuffmanTree`: the root, or nothing (`undefined`) for an empty
      table. */
  method BuildHuffmanTree(freqData: seq<FreqRecord>) returns (root: Option<Node>)
    ensures freqData == [] <==> root == None
    ensures freqData != [] ==> root == Some(Combine(LeavesOf(freqData)))
  {
    var nodes := LeavesOf(freqData);
    if |nodes| == 0 {
      return None;
    }
    ghost var leaves := nodes;
    while |nodes| > 1
      invariant |nodes| >= 1
      invariant Combine(nodes) == Combine(leaves)
      decreases |nodes|
    {
      ghost var before := nodes;
      MergeStepUnfold(nodes);
      nodes := SortBy(nodes, NodeFrequency);
      var left := nodes[0];
      nodes := nodes[1..];
      var right := nodes[0];
      nodes := nodes[1..];
      var newNode := Internal(left.symbol + right.symbol, left.frequency + right.frequency, left, right);
      assert newNode == Merge(left, right);
      nodes := nodes + [newNode];
      CombineStep(before);
    }
    root := Some(nodes[0]);
  }

  lemma CombineStep(nodes: seq<Node>)
    requires |nodes| >= 2
    ensures Combine(nodes) == Combine(MergeStep(nodes))
  {
  }

  /** The loop body's shifts and push, written out as one step. */
  lemma MergeStepUnfold(nodes: seq<Node>)
    requires |nodes| >= 2
    ensures var sorted := SortBy(nodes, NodeFrequency);
      && |sorted| == |nodes|
      && MergeStep(nodes) == sorted[2..] + [Merge(sorted[0], sorted[1])]
      && MergeStep(nodes) == sorted[1..][1..] + [Merge(sorted[0], sorted[1..][0])]
  {
    SortByLength(nodes, NodeFrequency);
    var sorted := SortBy(nodes, NodeFrequency);
    assert sorted[1..][1..] == sorted[2..];
    assert sorted[1..][0] == sorted[1];
  }

  // ---------------------------------------------------------------------
  // Properties of the merge loop

  /** Each iteration shrinks the list by one: it removes two nodes, the
      first no dearer than the second and the second no dearer than any node
      that stays, keeps every other node, and appends their merge. */
  lemma MergeStepTakesCheapest(nodes: seq<Node>)
    requires |nodes| >= 2
    ensures var merged := MergeStep(nodes)[|nodes| - 2];
      var rest := MergeStep(nodes)[..|nodes| - 2];
      && merged == Merge(merged.left, merged.right)
      && merged.left.frequency <= merged.right.frequency
      && (forall n :: n in rest ==> merged.right.frequency <= n.frequency)
      && multiset(rest) + multiset{merged.left, merged.right} == multiset(nodes)
  {
    MergeStepUnfold(nodes);
    var sorted := SortBy(nodes, NodeFrequency);
    CheapestFirst(sorted);
    SplitFirstTwo(sorted);
  }

  lemma SplitFirstTwo(sorted: seq<Node>)
    requires |sorted| >= 2
    ensures var step := sorted[2..] + [Merge(sorted[0], sorted[1])];
      && step[|sorted| - 2] == Merge(sorted[0], sorted[1])
      && step[..|sorted| - 2] == sorted[2..]
      && multiset(sorted[2..]) + multiset{sorted[0], sorted[1]} == multiset(sorted)
  {
    var step := sorted[2..] + [Merge(sorted[0], sorted[1])];
    assert step[..|sorted| - 2] == sorted[2..];
    assert sorted == [sorted[0], sorted[1]] + sorted[2..];
  }

  lemma CheapestFirst(sorted: seq<Node>)
    requires |sorted| >= 2
    requires SortedBy(sorted, NodeFrequency)
    ensures sorted[0].frequency <= sorted[1].frequency
    ensures forall n :: n in sorted[2..] ==> sorted[1].frequency <= n.frequency
  {
    assert NodeFrequency(sorted[0]) <= NodeFrequency(sorted[1]);
    forall n | n in sorted[2..] ensures sorted[1].frequency <= n.frequency {
      var k :| 2 <= k < |sorted| && sorted[k] == n;
      assert NodeFrequency(sorted[1]) <= NodeFrequency(sorted[k]);
    }
  }

  /** The root's frequency is the sum of the frequencies of the list. */
  lemma {:induction false} CombineFrequency(nodes: seq<Node>)
    requires |nodes| >= 1
    ensures Combine(nodes).frequency == SumBy(nodes, NodeFrequency)
    decreases |nodes|
  {
    if |nodes| == 1 {
      assert SumBy(nodes[1..], NodeFrequency) == 0;
    } else {
      MergeStepUnfold(nodes);
      var sorted := SortBy(nodes, NodeFrequency);
      CombineFrequency(MergeStep(nodes));
      SumByAppend(sorted[2..], [Merge(sorted[0], sorted[1])], NodeFrequency);
      assert sorted[2..] == sorted[1..][1..];
      SortBySum(nodes, NodeFrequency, NodeFrequency);
    }
  }

  /** Anything that a merge concatenates (the leaf records, the leaf
      symbols) is, over the whole list, kept as a multiset by the loop. */
  lemma {:induction false} CombineKeepsBag<U>(nodes: seq<Node>, f: Node -> seq<U>)
    requires |nodes| >= 1
    requires forall a, b :: f(Merge(a, b)) == f(a) + f(b)
    ensures multiset(f(Combine(nodes))) == multiset(FlatMap(nodes, f))
    decreases |nodes|
  {
    if |nodes| == 1 {
      assert FlatMap(nodes, f) == f(nodes[0]) + FlatMap(nodes[1..], f);
      assert FlatMap(nodes[1..], f) == [];
    } else {
      MergeStepUnfold(nodes);
      var sorted := SortBy(nodes, NodeFrequency);
      var merged := Merge(sorted[0], sorted[1]);
      CombineKeepsBag(MergeStep(nodes), f);
      FlatMapAppend(sorted[2..], [merged], f);
      assert FlatMap([merged], f) == f(merged) + FlatMap([merged][1..], f);
      assert [merged][1..] == [];
      assert FlatMap(sorted, f) == f(sorted[0]) + (f(sorted[1]) + FlatMap(sorted[2..], f)) by {
        assert sorted[1..][1..] == sorted[2..];
      }
      SortByFlatMap(nodes, NodeFrequency, f);
    }
  }

  lemma {:induction false} CombineWellFormed(nodes: seq<Node>)
    requires |nodes| >= 1
    requires forall n :: n in nodes ==> WellFormed(n)
    ensures WellFormed(Combine(nodes))
    decreases |nodes|
  {
    if |nodes| > 1 {
      MergeStepUnfold(nodes);
      var sorted := SortBy(nodes, NodeFrequency);
      var step := MergeStep(nodes);
      forall n | n in sorted ensures WellFormed(n) {
        assert n in multiset(nodes);
      }
      assert WellFormed(Merge(sorted[0], sorted[1]));
      forall n | n in step ensures WellFormed(n) {
        if n in sorted[2..] {
          assert n in sorted;
        }
      }
      CombineWellFormed(step);
    }
  }

  lemma {:induction false} CombineInternal(nodes: seq<Node>)
    requires |nodes| >= 2
    ensures Combine(nodes).Internal?
    decreases |nodes|
  {
    if |nodes| > 2 {
      CombineInternal(MergeStep(nodes));
    }
  }

  lemma {:induction false} FlatMapLeavesOf(table: seq<FreqRecord>)
    ensures FlatMap(LeavesOf(table), Leaves) == table
  {
    if table != [] {
      var leaves := LeavesOf(table);
      FlatMapLeavesOf(table[1..]);
      assert leaves[1..] == LeavesOf(table[1..]);
      assert FlatMap(leaves, Leaves) == Leaves(leaves[0]) + FlatMap(leaves[1..], Leaves);
      assert Leaves(leaves[0]) == [table[0]];
      assert table == [table[0]] + table[1..];
    }
  }

  lemma {:induction false} FlatMapLeafSymbolsOf(table: seq<FreqRecord>)
    ensures FlatMap(LeavesOf(table), LeafSymbols) == Symbols(table)
  {
    if table != [] {
      var leaves := LeavesOf(table);
      FlatMapLeafSymbolsOf(table[1..]);
      assert leaves[1..] == LeavesOf(table[1..]);
      assert FlatMap(leaves, LeafSymbols) == LeafSymbols(leaves[0]) + FlatMap(leaves[1..], LeafSymbols);
      assert LeafSymbols(leaves[0]) == [table[0].symbol];
      assert Symbols(table) == [table[0].symbol] + Symbols(table[1..]);
    }
  }

  lemma {:induction false} SumFrequencyLeavesOf(table: seq<FreqRecord>)
    ensures SumBy(LeavesOf(table), NodeFrequency) == TotalFrequency(table)
  {
    if table != [] {
      SumFrequencyLeavesOf(table[1..]);
      assert LeavesOf(table)[1..] == LeavesOf(table[1..]);
      TotalFrequencyCons(table);
    }
  }

  lemma {:induction false} WellFormedSymbol(n: Node)
    requires WellFormed(n)
    ensures n.symbol == Concat(LeafSymbols(n))
  {
    if n.Internal? {
      WellFormedSymbol(n.left);
      WellFormedSymbol(n.right);
      ConcatAppend(LeafSymbols(n.left), LeafSymbols(n.right));
    }
  }

  lemma {:induction false} ConcatAppend(a: seq<string>, b: seq<string>)
    ensures Concat(a + b) == Concat(a) + Concat(b)
  {
    if a == [] {
      assert a + b == b;
    } else {
      assert (a + b)[1..] == a[1..] + b;
      ConcatAppend(a[1..], b);
    }
  }

  /** The tree built from a non-empty table: its root's frequency is the
      total frequency, its leaves are exactly the table's records, its
      leaf symbols are those of the table (so they are distinct when the
      table's are), and its symbol is the left-to-right concatenation of
      its leaf symbols. With two or more records the root is internal. */
  lemma HuffmanTreeShape(table: seq<FreqRecord>)
    requires |table| >= 1
    ensures var root := Combine(LeavesOf(table));
      && root.frequency == TotalFrequency(table)
      && multiset(Leaves(root)) == multiset(table)
      && multiset(LeafSymbols(root)) == multiset(Symbols(table))
      && WellFormed(root)
      && root.symbol == Concat(LeafSymbols(root))
      && (|table| >= 2 ==> root.Internal?)
  {
    var leaves := LeavesOf(table);
    var root := Combine(leaves);
    CombineFrequency(leaves);
    SumFrequencyLeavesOf(table);
    CombineKeepsBag(leaves, Leaves);
    CombineKeepsBag(leaves, LeafSymbols);
    FlatMapLeavesOf(table);
    FlatMapLeafSymbolsOf(table);
    CombineWellFormed(leaves);
    WellFormedSymbol(root);
    if |table| >= 2 {
      CombineInternal(leaves);
    }
  }

  // ---------------------------------------------------------------------
  // Code generation

  /** `generateImageHuffmanCodes(node, code, codes)` as the entries it adds:
      every leaf gets the code accumulated on the way down; where two leaves
      share a symbol, the later (right-hand) assignment wins. */
  function ImageCodes(n: Node, code: string): CodeTable {
    match n
    case Leaf(s, _) => map[s := code]
    case Internal(_, _, l, r) => ImageCodes(l, code + "0") + ImageCodes(r, code + "1")
  }

  /** `generateHuffmanCodes(node, code)` as the entries it adds: as above,
      but only leaves whose symbol is one character long get a code. */
  function TextCodes(n: Node, code: string): CodeTable {
    match n
    case Leaf(s, _) => if |s| == 1 then map[s := code] else map[]
    case Internal(_, _, l, r) => TextCodes(l, code + "0") + TextCodes(r, code + "1")
  }

  /** The leaf reached by following the bits of `path` from `n`. */
  function LeafSymbolAt(n: Node, path: string): Option<string> {
    match n
    case Leaf(s, _) => if path == [] then Some(s) else None
    case Internal(_, _, l, r) =>
      if path == [] then None
      else if path[0] == '0' then LeafSymbolAt(l, path[1..])
      else if path[0] == '1' then LeafSymbolAt(r, path[1..])
      else None
  }

  /** The text walk gives exactly the image walk's entries for one-character
      symbols. */
  lemma {:induction false} TextCodesRestrictImageCodes(n: Node, code: string)
    ensures TextCodes(n, code) == map s | s in ImageCodes(n, code) && |s| == 1 :: ImageCodes(n, code)[s]
  {
    match n
    case Leaf(_, _) =>
    case Internal(_, _, l, r) =>
      TextCodesRestrictImageCodes(l, code + "0");
      TextCodesRestrictImageCodes(r, code + "1");
  }

  /** When every coded symbol is one character long, the two walks
      agree. */
  lemma TextCodesOfShortSymbols(n: Node, code: string)
    requires forall s :: s in ImageCodes(n, code) ==> |s| == 1
    ensures TextCodes(n, code) == ImageCodes(n, code)
  {
    var image, text := ImageCodes(n, code), TextCodes(n, code);
    TextCodesRestrictImageCodes(n, code);
    assert text.Keys == image.Keys;
  }

  /** The symbols that receive a code are exactly the leaf symbols. */
  lemma {:induction false} ImageCodesKeys(n: Node, code: string)
    ensures forall s :: s in ImageCodes(n, code) <==> s in LeafSymbols(n)
  {
    if n.Internal? {
      ImageCodesKeys(n.left, code + "0");
      ImageCodesKeys(n.right, code + "1");
    }
  }

  /** Every code starts with the code the walk began with, and is longer
      than it when the walk starts at an internal node. */
  lemma {:induction false} ImageCodesExtend(n: Node, code: string)
    ensures forall s :: s in ImageCodes(n, code) ==> IsPrefix(code, ImageCodes(n, code)[s])
    ensures n.Internal? ==> forall s :: s in ImageCodes(n, code) ==> |ImageCodes(n, code)[s]| > |code|
  {
    if n.Internal? {
      var ml, mr := ImageCodes(n.left, code + "0"), ImageCodes(n.right, code + "1");
      ImageCodesExtend(n.left, code + "0");
      ImageCodesExtend(n.right, code + "1");
      ExtendUnion(ml, mr, code);
    }
  }

  /** With distinct leaf symbols, each code is the walk's starting code
      followed by the root-to-leaf path of its symbol's leaf ('0' left, '1'
      right); so the code's length past the start is the leaf's depth. */
  lemma {:induction false} ImageCodesArePaths(n: Node, code: string)
    requires Distinct(LeafSymbols(n))
    ensures forall s :: s in ImageCodes(n, code) ==>
      IsPrefix(code, ImageCodes(n, code)[s]) &&
      LeafSymbolAt(n, ImageCodes(n, code)[s][|code|..]) == Some(s)
  {
    ImageCodesExtend(n, code);
    if n.Leaf? {
      assert code[|code|..] == [];
    } else {
      var l, r := n.left, n.right;
      DistinctHalves(LeafSymbols(l), LeafSymbols(r));
      ImageCodesArePaths(l, code + "0");
      ImageCodesArePaths(r, code + "1");
      ImageCodesKeys(l, code + "0");
      ImageCodesKeys(r, code + "1");
      ImageCodesExtend(l, code + "0");
      ImageCodesExtend(r, code + "1");
      var ml, mr := ImageCodes(l, code + "0"), ImageCodes(r, code + "1");
      assert ImageCodes(n, code) == ml + mr;
      forall s | s in ml + mr
        ensures LeafSymbolAt(n, (ml + mr)[s][|code|..]) == Some(s)
      {
        if s in ml {
          assert s !in mr;
          assert (ml + mr)[s] == ml[s];
          StepDown(n, ml[s], code, '0', s);
        } else {
          StepDown(n, mr[s], code, '1', s);
        }
      }
    }
  }

  /** A path that starts with `bit` at an internal node continues in the
      child that bit selects. */
  lemma StepDown(n: Node, c: string, code: string, bit: char, s: string)
    requires n.Internal? && (bit == '0' || bit == '1')
    requires IsPrefix(code + [bit], c)
    requires LeafSymbolAt(if bit == '0' then n.left else n.right, c[|code| + 1..]) == Some(s)
    ensures LeafSymbolAt(n, c[|code|..]) == Some(s)
  {
    assert c[|code|..][0] == (code + [bit])[|code|] == bit;
    assert c[|code|..][1..] == c[|code| + 1..];
  }

  /** With distinct leaf symbols the codes are prefix-free. */
  lemma {:induction false} ImageCodesPrefixFree(n: Node, code: string)
    requires Distinct(LeafSymbols(n))
    ensures PrefixFree(ImageCodes(n, code))
  {
    match n
    case Leaf(_, _) =>
    case Internal(_, _, l, r) =>
      DistinctHalves(LeafSymbols(l), LeafSymbols(r));
      ImageCodesPrefixFree(l, code + "0");
      ImageCodesPrefixFree(r, code + "1");
      ImageCodesKeys(l, code + "0");
      ImageCodesKeys(r, code + "1");
      ImageCodesExtend(l, code + "0");
      ImageCodesExtend(r, code + "1");
      PrefixFreeSplit(ImageCodes(l, code + "0"), ImageCodes(r, code + "1"), LeafSymbols(l), LeafSymbols(r), code);
  }
}
