/** The first stages of the image pipeline: pixels to a string of '0' and
    '1', that string to maximal runs, and each run to the dictionary key
    `bit + length` (a one-character string followed by the length in
    decimal). */
module RunLength {
  import opened Seqs

  /** `{ bit: currentBit, length: currentRun }`. `bit` is `None` where the
      source reads `binaryString[0]` of an empty string (`undefined`). */
  datatype Run = Run(bit: Option<char>, length: nat)

  // ---------------------------------------------------------------------
  // Pixels to bits

  /** The bit of one pixel: its first channel is 0 (black) or not. */
  function PixelBit(value: int): (c: char)
    ensures c == '0' || c == '1'
  {
    if value == 0 then '0' else '1'
  }

  predicate IsBitString(bits: string) {
    forall k :: 0 <= k < |bits| ==> bits[k] == '0' || bits[k] == '1'
  }

  /** The loop at the top of `processImageCompression`: one character per
      RGBA pixel, taken from the pixel's first channel. */
  method BinaryString(data: seq<int>) returns (bits: string)
    ensures |bits| == (|data| + 3) / 4
    ensures forall k :: 0 <= k < |bits| ==> 4 * k < |data| && bits[k] == PixelBit(data[4 * k])
    ensures IsBitString(bits)
  {
    bits := "";
    var i := 0;
    while i < |data|
      invariant i % 4 == 0 && 0 <= i <= |data| + 3
      invariant |bits| == i / 4
      invariant forall k :: 0 <= k < |bits| ==> 4 * k < |data| && bits[k] == PixelBit(data[4 * k])
    {
      bits := bits + [PixelBit(data[i])];
      i := i + 4;
    }
  }

  // ---------------------------------------------------------------------
  // Runs

  /** The characters a run stands for. */
  function RunBits(r: Run): string {
    if r.bit.Some? then seq(r.length, _ => r.bit.value) else []
  }

  function Expand(runs: seq<Run>): string {
    FlatMap(runs, RunBits)
  }

  function RunLengthOf(r: Run): int { r.length }

  /** Every run has a bit and is non-empty, and neighbouring runs differ in
      their bit, so no run could be extended. */
  predicate MaximalRuns(runs: seq<Run>) {
    && (forall i :: 0 <= i < |runs| ==> runs[i].bit.Some? && runs[i].length >= 1)
    && (forall i :: 0 < i < |runs| ==> runs[i - 1].bit != runs[i].bit)
  }

  /** The run-length scan: extend the current run while the bit repeats,
      otherwise close it and start a new run of length 1; the last run is
      closed after the loop. */
  method RunLengths(bits: string) returns (runs: seq<Run>)
    ensures bits == [] ==> runs == [Run(None, 1)]
    ensures bits != [] ==> MaximalRuns(runs) && Expand(runs) == bits
  {
    runs := [];
    var currentRun := 1;
    var currentBit := if |bits| > 0 then Some(bits[0]) else None;
    if bits != [] {
      AppendRun([], Run(currentBit, 1));
      assert [] + [Run(currentBit, 1)] == [Run(currentBit, 1)];
      assert RunBits(Run(currentBit, 1)) == bits[..1];
    }
    var i := 1;
    while i < |bits|
      invariant bits != [] ==> 1 <= i <= |bits|
      invariant bits == [] ==> runs == [] && currentRun == 1 && currentBit == None
      invariant bits != [] ==> currentBit == Some(bits[i - 1]) && currentRun >= 1
      invariant bits != [] ==> MaximalRuns(runs + [Run(currentBit, currentRun)])
      invariant bits != [] ==> Expand(runs + [Run(currentBit, currentRun)]) == bits[..i]
    {
      assert bits[..i + 1] == bits[..i] + [bits[i]];
      if Some(bits[i]) == currentBit {
        ExtendLastRun(runs, bits[i], currentRun);
        MaximalRunsGrow(runs, Run(currentBit, currentRun), Run(currentBit, currentRun + 1));
        currentRun := currentRun + 1;
      } else {
        var closed := runs + [Run(currentBit, currentRun)];
        AppendRun(closed, Run(Some(bits[i]), 1));
        MaximalRunsAppend(closed, Run(Some(bits[i]), 1));
        runs := closed;
        currentBit := Some(bits[i]);
        currentRun := 1;
      }
      i := i + 1;
    }
    runs := runs + [Run(currentBit, currentRun)];
    if bits != [] {
      assert bits[..|bits|] == bits;
    }
  }

  lemma AppendRun(runs: seq<Run>, r: Run)
    ensures Expand(runs + [r]) == Expand(runs) + RunBits(r)
  {
    FlatMapAppend(runs, [r], RunBits);
    assert FlatMap([r], RunBits) == RunBits(r) + FlatMap([], RunBits);
  }

  lemma MaximalRunsGrow(runs: seq<Run>, last: Run, grown: Run)
    requires MaximalRuns(runs + [last])
    requires grown.bit == last.bit && grown.length >= last.length
    ensures MaximalRuns(runs + [grown])
  {
    var a, b := runs + [last], runs + [grown];
    assert forall i :: 0 <= i < |runs| ==> a[i] == b[i];
    assert a[|runs|] == last && b[|runs|] == grown;
  }

  lemma MaximalRunsAppend(runs: seq<Run>, r: Run)
    requires MaximalRuns(runs) && runs != []
    requires r.bit.Some? && r.length >= 1 && r.bit != runs[|runs| - 1].bit
    ensures MaximalRuns(runs + [r])
  {
    var b := runs + [r];
    assert forall i :: 0 <= i < |runs| ==> b[i] == runs[i];
  }

  /** Growing the last run by one appends one more copy of its bit. */
  lemma ExtendLastRun(runs: seq<Run>, b: char, n: nat)
    ensures Expand(runs + [Run(Some(b), n + 1)]) == Expand(runs + [Run(Some(b), n)]) + [b]
  {
    AppendRun(runs, Run(Some(b), n + 1));
    AppendRun(runs, Run(Some(b), n));
    assert RunBits(Run(Some(b), n + 1)) == RunBits(Run(Some(b), n)) + [b];
  }

  /** The lengths of the runs add up to the length of the bit string. */
  lemma {:induction false} ExpandLength(runs: seq<Run>)
    requires forall i :: 0 <= i < |runs| ==> runs[i].bit.Some?
    ensures |Expand(runs)| == SumBy(runs, RunLengthOf)
  {
    if runs != [] {
      assert runs == [runs[0]] + runs[1..];
      FlatMapAppend([runs[0]], runs[1..], RunBits);
      AppendRun([], runs[0]);
      ExpandLength(runs[1..]);
    }
  }

  /** The maximal runs of a string are unique: any two maximal run lists
      that expand to the same string are equal. */
  lemma {:induction false} MaximalRunsUnique(a: seq<Run>, b: seq<Run>)
    requires MaximalRuns(a) && MaximalRuns(b)
    requires Expand(a) == Expand(b)
    ensures a == b
  {
    if a == [] || b == [] {
      if a != [] {
        NonEmptyExpand(a);
      } else if b != [] {
        NonEmptyExpand(b);
      }
    } else {
      var s := Expand(a);
      SplitFirstRun(a);
      SplitFirstRun(b);
      var x, y := a[0], b[0];
      assert x.bit.value == s[0] == y.bit.value;
      NextRunBit(a);
      NextRunBit(b);
      assert forall k :: 0 <= k < x.length ==> s[k] == RunBits(x)[k] == x.bit.value;
      assert forall k :: 0 <= k < y.length ==> s[k] == RunBits(y)[k] == y.bit.value;
      assert x.length == y.length;
      assert |RunBits(x)| == x.length;
      assert Expand(a[1..]) == s[x.length..] == Expand(b[1..]);
      MaximalRunsUnique(a[1..], b[1..]);
      assert a == [x] + a[1..] && b == [y] + b[1..];
    }
  }

  lemma NonEmptyExpand(runs: seq<Run>)
    requires MaximalRuns(runs) && runs != []
    ensures Expand(runs) != []
  {
    SplitFirstRun(runs);
  }

  lemma SplitFirstRun(runs: seq<Run>)
    requires runs != []
    ensures Expand(runs) == RunBits(runs[0]) + Expand(runs[1..])
  {
    assert runs == [runs[0]] + runs[1..];
    FlatMapAppend([runs[0]], runs[1..], RunBits);
    AppendRun([], runs[0]);
  }

  /** Right after a maximal first run, either the string ends or the next
      run's (different) bit follows. */
  lemma NextRunBit(runs: seq<Run>)
    requires MaximalRuns(runs) && runs != []
    ensures var s := Expand(runs);
      |s| >= runs[0].length &&
      (|runs| >= 2 ==> |s| > runs[0].length && s[runs[0].length] == runs[1].bit.value && runs[1].bit != runs[0].bit)
      && (|runs| == 1 ==> |s| == runs[0].length)
  {
    SplitFirstRun(runs);
    if |runs| >= 2 {
      SplitFirstRun(runs[1..]);
      assert runs[1..][0] == runs[1];
    } else {
      assert runs[1..] == [];
    }
  }

  // ---------------------------------------------------------------------
  // Run keys

  function DigitChar(d: nat): char
    requires d < 10
  {
    ('0' as int + d) as char
  }

  predicate IsDigit(c: char) { '0' <= c <= '9' }

  predicate AllDigits(s: string) {
    forall i :: 0 <= i < |s| ==> IsDigit(s[i])
  }

  /** A length as JavaScript writes a number into a string: decimal, no
      leading zeros. */
  function Decimal(n: nat): (s: string)
    ensures |s| >= 1 && AllDigits(s)
  {
    if n < 10 then [DigitChar(n)] else Decimal(n / 10) + [DigitChar(n % 10)]
  }

  function ParseDecimal(s: string): nat
    requires AllDigits(s)
  {
    if s == [] then 0
    else ParseDecimal(s[..|s| - 1]) * 10 + (s[|s| - 1] as int - '0' as int)
  }

  lemma {:induction false} ParseDecimalOfDecimal(n: nat)
    ensures ParseDecimal(Decimal(n)) == n
  {
    if n >= 10 {
      var s := Decimal(n);
      assert s[..|s| - 1] == Decimal(n / 10);
      ParseDecimalOfDecimal(n / 10);
    }
  }

  /** `run.bit + run.length`: with no bit the source adds `undefined` to a
      number, which gives `NaN`, and the key is the text "NaN". */
  function RunKey(r: Run): string {
    if r.bit.Some? then [r.bit.value] + Decimal(r.length) else "NaN"
  }

  function RunKeys(runs: seq<Run>): (keys: seq<string>)
    ensures |keys| == |runs|
    ensures forall i :: 0 <= i < |runs| ==> keys[i] == RunKey(runs[i])
  {
    seq(|runs|, i requires 0 <= i < |runs| => RunKey(runs[i]))
  }

  /** Reading a run back from its key. */
  function ParseRunKey(key: string): Option<Run> {
    if |key| >= 2 && AllDigits(key[1..]) then Some(Run(Some(key[0]), ParseDecimal(key[1..])))
    else None
  }

  lemma ParseRunKeyOfRunKey(r: Run)
    requires r.bit.Some?
    ensures ParseRunKey(RunKey(r)) == Some(r)
  {
    var key := RunKey(r);
    assert key[1..] == Decimal(r.length);
    ParseDecimalOfDecimal(r.length);
  }

  /** Run keys are injective on runs that have a bit. */
  lemma RunKeyInjective(r1: Run, r2: Run)
    requires r1.bit.Some? && r2.bit.Some?
    ensures RunKey(r1) == RunKey(r2) <==> r1 == r2
  {
    ParseRunKeyOfRunKey(r1);
    ParseRunKeyOfRunKey(r2);
  }

  /** Reading back a whole sequence of keys. */
  function ParseRunKeys(keys: seq<string>): Option<seq<Run>> {
    if keys == [] then Some([])
    else match (ParseRunKey(keys[0]), ParseRunKeys(keys[1..]))
      case (Some(r), Some(rest)) => Some([r] + rest)
      case _ => None
  }

  lemma {:induction false} ParseRunKeysOfRunKeys(runs: seq<Run>)
    requires forall i :: 0 <= i < |runs| ==> runs[i].bit.Some?
    ensures ParseRunKeys(RunKeys(runs)) == Some(runs)
  {
    if runs != [] {
      assert RunKeys(runs) == [RunKey(runs[0])] + RunKeys(runs[1..]);
      ParseRunKeyOfRunKey(runs[0]);
      ParseRunKeysOfRunKeys(runs[1..]);
      ParseRunKeysCons(RunKey(runs[0]), RunKeys(runs[1..]), runs[0], runs[1..]);
      assert runs == [runs[0]] + runs[1..];
    }
  }

  /** Reading back a key in front of keys that read back. */
  lemma ParseRunKeysCons(key: string, keys: seq<string>, r: Run, rest: seq<Run>)
    requires ParseRunKey(key) == Some(r) && ParseRunKeys(keys) == Some(rest)
    ensures ParseRunKeys([key] + keys) == Some([r] + rest)
  {
    assert ([key] + keys)[0] == key;
    assert ([key] + keys)[1..] == keys;
  }
}
