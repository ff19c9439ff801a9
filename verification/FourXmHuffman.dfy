/**
 * read_huffman_tables of libavcodec/4xm.c: the frequency runs, the merge loop on its arrays, and the code tables.
 */
module FourXmHuffman {
  import opened Basics
  import opened SeqSums
  import opened HuffmanTree
  import opened HuffmanCodes
  import opened HuffmanOptimal

  // ---- the frequency runs ----------------------------------------------------------------------------

  datatype Parsed = Invalid | Parsed(pos: nat, table: seq<nat>)

  /** The table after one run: the places `start..end` take the bytes at `pos`. */
  function Overlay(table: seq<nat>, start: Byte, end: Byte, bytes: seq<Byte>): (t: seq<nat>)
    requires |table| == 256 && |bytes| == Max(end - start + 1, 0)
    ensures |t| == 256
  {
    seq(256, i requires 0 <= i < 256 => if start <= i <= end then bytes[i - start] else table[i])
  }

  function ParseRuns(buf: seq<Byte>, size: nat, pos: nat, start: Byte, end: Byte, table: seq<nat>): (p: Parsed)
    requires size + PADDING <= |buf| && pos <= size + 2 && |table| == 256
    ensures p.Parsed? ==> |p.table| == 256 && p.pos <= size
    decreases size + 2 - pos
  {
    var n := Max(end - start + 1, 0);
    if size - pos < n + 1 then Invalid
    else
      var t := Overlay(table, start, end, buf[pos..pos + n]);
      var next := buf[pos + n];
      if next == 0 then Parsed(pos + n + 1, t)
      else ParseRuns(buf, size, pos + n + 2, next, buf[pos + n + 1], t)
  }

  function Zero256(): (t: seq<nat>)
    ensures |t| == 256
  {
    seq(256, _ => 0)
  }

  /** The byte frequencies of a table and the 4-byte aligned position behind it. */
  function ParseTable(buf: seq<Byte>, size: nat): (p: Parsed)
    requires size + PADDING <= |buf|
    ensures p.Parsed? ==> |p.table| == 256
  {
    var p := ParseRuns(buf, size, 2, buf[0], buf[1], Zero256());
    if p.Invalid? then Invalid
    else
      var aligned := (p.pos + 3) / 4 * 4;
      if aligned > size then Invalid else Parsed(aligned, p.table)
  }

  /** A run as the encoder lays it down: first and last byte value, then their frequencies. */
  datatype Run = Run(start: Byte, end: Byte, bytes: seq<Byte>)

  ghost predicate WellFormed(runs: seq<Run>) {
    && (forall i :: 0 <= i < |runs| ==> |runs[i].bytes| == Max(runs[i].end - runs[i].start + 1, 0))
    && (forall i :: 1 <= i < |runs| ==> runs[i].start != 0)
  }

  function OverlayAll(table: seq<nat>, runs: seq<Run>): (t: seq<nat>)
    requires |table| == 256
    requires forall i :: 0 <= i < |runs| ==> |runs[i].bytes| == Max(runs[i].end - runs[i].start + 1, 0)
    ensures |t| == 256
    decreases |runs|
  {
    if runs == [] then table
    else OverlayAll(Overlay(table, runs[0].start, runs[0].end, runs[0].bytes), runs[1..])
  }

  /** The bytes the runs take, with the closing zero. */
  function Extent(runs: seq<Run>): nat {
    if runs == [] then 1 else 2 + |runs[0].bytes| + Extent(runs[1..])
  }

  /** The runs are laid down in the buffer from `at` on, followed by the closing zero. */
  ghost predicate Laid(runs: seq<Run>, buf: seq<Byte>, at: nat)
    decreases |runs|
  {
    if runs == [] then at < |buf| && buf[at] == 0
    else
      var r := runs[0];
      var next := at + 2 + |r.bytes|;
      next <= |buf| && buf[at] == r.start && buf[at + 1] == r.end && buf[at + 2..next] == r.bytes
      && Laid(runs[1..], buf, next)
  }

  /** Whatever the split into runs, reading back the laid-down runs gives their frequencies, later runs winning. */
  lemma {:induction false} RunsRoundTrip(runs: seq<Run>, buf: seq<Byte>, size: nat, at: nat, table: seq<nat>)
    requires runs != [] && WellFormed(runs) && |table| == 256
    requires size + PADDING <= |buf| && at + Extent(runs) <= size && Laid(runs, buf, at)
    ensures ParseRuns(buf, size, at + 2, runs[0].start, runs[0].end, table)
         == Parsed(at + Extent(runs), OverlayAll(table, runs))
    decreases |runs|
  {
    var rest := runs[1..];
    if rest != [] {
      assert rest[0] == runs[1];
      RunsRoundTrip(rest, buf, size, at + 2 + |runs[0].bytes|,
                    Overlay(table, runs[0].start, runs[0].end, runs[0].bytes));
    }
  }

  /**
   * The whole table: runs laid down at the start of the buffer are read back into a table of zeros, and what follows
   * begins at the next place divisible by four, unless that lies behind the end.
   */
  lemma TableRoundTrip(runs: seq<Run>, buf: seq<Byte>, size: nat)
    requires runs != [] && WellFormed(runs) && size + PADDING <= |buf| && Extent(runs) <= size && Laid(runs, buf, 0)
    ensures var p, n := ParseTable(buf, size), Extent(runs);
            && (p.Parsed? ==> p.table == OverlayAll(Zero256(), runs) && p.pos % 4 == 0 && n <= p.pos < n + 4)
            && (p.Invalid? <==> exists k :: n <= k < n + 4 && k % 4 == 0 && k > size)
  {
    RunsRoundTrip(runs, buf, size, 0, Zero256());
    NextAligned(Extent(runs), size);
    hide ParseRuns, Laid, WellFormed, Extent, OverlayAll, Zero256;
  }

  lemma NextAligned(n: nat, size: nat)
    ensures var aligned := (n + 3) / 4 * 4;
            && aligned % 4 == 0 && n <= aligned < n + 4
            && (aligned > size <==> exists k :: n <= k < n + 4 && k % 4 == 0 && k > size)
  {
    var q := (n + 3) / 4;
    assert 4 * q <= n + 3 < 4 * q + 4 && q * 4 % 4 == 0;
    forall k | n <= k < n + 4 && k % 4 == 0 ensures k == q * 4 {
      assert k == 4 * (k / 4) && k / 4 == q;
    }
  }

  // ---- the forest a table starts from ------------------------------------------------------------------

  ghost predicate ByteTable(t: seq<nat>) {
    |t| == 256 && forall i :: 0 <= i < 256 ==> t[i] < 256
  }

  /**
   * Byte frequencies, the end symbol with weight 1, and no internal node. `flag0` is what the uninitialised array
   * holds.
   */
  function Start(t: seq<nat>, flag0: seq<int>): Forest
    requires |t| == 256 && |flag0| == NODES
  {
    var w := t + [1] + seq(255, _ => 0);
    Forest(w, seq(NODES, _ => -1), flag0, w, seq(NODES, _ => (0, 0)))
  }

  lemma TableSum(t: seq<nat>, flag0: seq<int>)
    requires ByteTable(t) && |flag0| == NODES
    ensures Sum(Start(t, flag0).freq) <= 65281
  {
    var z := seq(255, _ => 0);
    SumConcat(t + [1], z);
    SumConcat(t, [1]);
    SumAtMost(t, 255);
    SumZeros(z);
    assert Sum([1]) == 1 by { SumSingle([1], 0); }
  }

  lemma StartOk(t: seq<nat>, flag0: seq<int>)
    requires ByteTable(t) && |flag0| == NODES
    ensures Ok(Start(t, flag0), SYMBOLS)
  {
    TableSum(t, flag0);
  }

  /** The first internal node: the symbols of the table and the end symbol come before it. */
  function FirstNode(t: seq<nat>): nat { |t| + 1 }

  function Finished(t: seq<nat>, flag0: seq<int>): (f: Forest)
    requires |t| == 256 && |flag0| == NODES
    ensures Sized(f)
  {
    Build(Start(t, flag0), FirstNode(t))
  }

  /** Live symbols of a table: the end symbol and every byte with a frequency. */
  function LiveSymbols(t: seq<nat>): int {
    1 + Live(t)
  }

  lemma LiveAtStart(t: seq<nat>, flag0: seq<int>)
    requires ByteTable(t) && |flag0| == NODES
    ensures Live(Start(t, flag0).freq) == LiveSymbols(t)
    ensures 1 <= LiveSymbols(t) <= 257
    ensures LiveSymbols(t) <= 256 <==> exists i :: 0 <= i < 256 && t[i] == 0
  {
    var z := seq(255, _ => 0);
    assert Ones(Start(t, flag0).freq) == (Ones(t) + [1]) + z;
    SumConcat(Ones(t) + [1], z);
    SumConcat(Ones(t), [1]);
    SumZeros(z);
    SumSingle([1], 0);
    SumBounds(Ones(t));
    SumAtMost(Ones(t), 1);
    if i :| 0 <= i < 256 && t[i] == 0 {
      SumUpdate(Ones(t), i, 1);
      SumAtMost(Ones(t)[i := 1], 1);
    } else {
      SumScale(Ones(t), Ones(t), 1);
      SumOnes(Ones(t));
    }
  }

  lemma {:induction false} SumOnes(s: seq<int>)
    requires forall k :: 0 <= k < |s| ==> s[k] == 1
    ensures Sum(s) == |s|
  {
    if |s| > 0 { SumOnes(s[..|s| - 1]); }
  }

  /** The invariant at the end of the run, with the total weight and the number of trees. */
  lemma FinishedFacts(t: seq<nat>, flag0: seq<int>)
    requires ByteTable(t) && |flag0| == NODES
    ensures Ok(Finished(t, flag0), NODES)
    ensures Sum(Finished(t, flag0).freq) <= 65281
    ensures Live(Finished(t, flag0).freq) == if LiveSymbols(t) <= 256 then 1 else 2
    ensures forall k :: 0 <= k < SYMBOLS ==> Finished(t, flag0).weight[k] == Start(t, flag0).freq[k]
  {
    var f := Start(t, flag0);
    StartOk(t, flag0);
    TableSum(t, flag0);
    LiveAtStart(t, flag0);
    BuildKeeps(f, FirstNode(t));
    TreesLeft(f, FirstNode(t));
  }

  /** The code words of the 257 symbols in a finished forest. */
  function Words(f: Forest): (c: seq<seq<int>>)
    requires Ok(f, NODES)
    ensures |c| == SYMBOLS
  {
    seq(SYMBOLS, k requires 0 <= k < SYMBOLS => Code(f.up, f.flag, k))
  }

  /** The code words a frequency table gives its symbols. */
  function Codes(t: seq<nat>, flag0: seq<int>): (c: seq<seq<int>>)
    requires ByteTable(t) && |flag0| == NODES
    ensures |c| == SYMBOLS
  {
    FinishedFacts(t, flag0);
    Words(Finished(t, flag0))
  }

  /** The weights of the 257 symbols. */
  function Weights(t: seq<nat>): (w: seq<nat>)
    requires |t| == 256
    ensures |w| == SYMBOLS
  {
    t + [1]
  }

  ghost predicate Weighs(f: Forest, w: seq<nat>)
    requires Sized(f)
  {
    |w| == SYMBOLS && forall k :: 0 <= k < SYMBOLS ==> f.weight[k] == w[k]
  }

  lemma FinishedWeighs(t: seq<nat>, flag0: seq<int>)
    requires ByteTable(t) && |flag0| == NODES
    ensures Weighs(Finished(t, flag0), Weights(t))
  {
    FinishedFacts(t, flag0);
  }

  lemma WordsOfBits(f: Forest)
    requires Ok(f, NODES)
    ensures forall k :: 0 <= k < SYMBOLS ==> Bits(Words(f)[k])
  {
    forall k | 0 <= k < SYMBOLS ensures Bits(Words(f)[k]) {
      CodesAreBits(f, k);
    }
  }

  lemma SamePrefixFree(f: Forest, w: seq<nat>)
    requires Ok(f, NODES) && Weighs(f, w)
    ensures IsPrefixCode(w, Words(f)) <==> PrefixFree(f)
  {
    WordsOfBits(f);
    var c := Words(f);
    if PrefixFree(f) {
      forall a, b | 0 <= a < SYMBOLS && 0 <= b < SYMBOLS && w[a] > 0 && w[b] > 0 && a != b ensures !(c[a] <= c[b]) {
        assert IsLiveSymbol(f, a) && IsLiveSymbol(f, b);
      }
    }
    if IsPrefixCode(w, c) {
      forall a, b | IsLiveSymbol(f, a) && IsLiveSymbol(f, b) && a != b
        ensures !(Code(f.up, f.flag, a) <= Code(f.up, f.flag, b))
      {
        assert w[a] > 0 && w[b] > 0 && !(c[a] <= c[b]);
      }
    }
  }

  // ---- main results ---------------------------------------------------------------------------------------

  lemma ShortWords(f: Forest, k: nat)
    requires Ok(f, NODES) && Sum(f.freq) < 75025 && k < SYMBOLS
    ensures |Words(f)[k]| <= MAX_CODE_LENGTH
  {
    assert LinkOk(f, NODES, k);
    if f.weight[k] > 0 { DepthBound(f, k); }
  }

  /**
   * Question of the source's own comment ("can this happen at all ?"): no code is longer than 22 bits, for any table.
   */
  lemma NoLongCodes(t: seq<nat>, flag0: seq<int>, k: nat)
    requires ByteTable(t) && |flag0| == NODES && k < SYMBOLS
    ensures |Codes(t, flag0)[k]| <= MAX_CODE_LENGTH
  {
    FinishedFacts(t, flag0);
    ShortWords(Finished(t, flag0), k);
  }

  /** The codes of the live symbols are prefix-free exactly when some byte does not occur. */
  lemma PrefixFreeIff(t: seq<nat>, flag0: seq<int>)
    requires ByteTable(t) && |flag0| == NODES
    ensures IsPrefixCode(Weights(t), Codes(t, flag0)) <==> exists i :: 0 <= i < 256 && t[i] == 0
  {
    FinishedFacts(t, flag0);
    LiveAtStart(t, flag0);
    FinishedWeighs(t, flag0);
    SamePrefixFree(Finished(t, flag0), Weights(t));
    PrefixFreeIffOneTree(Finished(t, flag0));
  }

  /** Padding symbol lengths out to all nodes changes neither sum, since internal nodes start without weight. */
  lemma OnAllNodes(t: seq<nat>, flag0: seq<int>, l: seq<nat>, d: seq<nat>, m: nat)
    requires |t| == 256 && |flag0| == NODES && |l| == SYMBOLS && |d| == NODES && d[..SYMBOLS] == l
    ensures Cost(Start(t, flag0).freq, d) == Cost(Weights(t), l)
    ensures Kraft(Start(t, flag0).freq, d, m) == Kraft(Weights(t), l, m)
  {
    var w := Start(t, flag0).freq;
    var z := seq(255, _ => 0);
    assert Products(w, d) == Products(Weights(t), l) + z;
    SumConcat(Products(Weights(t), l), z);
    assert Shares(w, d, m) == Shares(Weights(t), l, m) + z;
    SumConcat(Shares(Weights(t), l, m), z);
    SumZeros(z);
  }

  lemma TableCosts(t: seq<nat>, flag0: seq<int>)
    requires ByteTable(t) && |flag0| == NODES
    ensures Cost(Weights(t), Lengths(Codes(t, flag0))) == MergeCost(Start(t, flag0), FirstNode(t))
    ensures Kraft(Weights(t), Lengths(Codes(t, flag0)), MAX_CODE_LENGTH)
         == (if LiveSymbols(t) <= 256 then 1 else 2) * Pow2(MAX_CODE_LENGTH)
  {
    FinishedFacts(t, flag0);
    StartOk(t, flag0);
    var f := Finished(t, flag0);
    var d := Depths(f.up);
    forall k | 0 <= k < NODES && f.weight[k] > 0 ensures Depth(f.up, k) <= MAX_CODE_LENGTH {
      DepthBound(f, k);
    }
    BuildCosts(Start(t, flag0), FirstNode(t), MAX_CODE_LENGTH);
    OnAllNodes(t, flag0, Lengths(Codes(t, flag0)), d, MAX_CODE_LENGTH);
  }

  /** Kraft's sum is exactly one whenever at most 256 symbols are live. */
  lemma KraftEquality(t: seq<nat>, flag0: seq<int>)
    requires ByteTable(t) && |flag0| == NODES
    ensures Kraft(Weights(t), Lengths(Codes(t, flag0)), MAX_CODE_LENGTH) == Pow2(MAX_CODE_LENGTH)
       <==> exists i :: 0 <= i < 256 && t[i] == 0
  {
    TableCosts(t, flag0);
    LiveAtStart(t, flag0);
  }

  function MaxLength(code: seq<seq<int>>): (m: nat)
    ensures forall k :: 0 <= k < |code| ==> |code[k]| <= m
  {
    if code == [] then 0
    else
      var n := MaxLength(code[..|code| - 1]);
      var l := |code[|code| - 1]|;
      if l > n then l else n
  }

  lemma FinishedInOrder(t: seq<nat>, flag0: seq<int>)
    requires ByteTable(t) && |flag0| == NODES
    ensures InOrder(Finished(t, flag0))
  {
    StartOk(t, flag0);
    BuildInOrder(Start(t, flag0), FirstNode(t));
  }

  /** Of two symbols whose codes differ in the last bit only, the lighter one, or of equals the first, has the 0. */
  lemma SiblingCodes(t: seq<nat>, flag0: seq<int>, a: nat, b: nat, c: seq<int>)
    requires ByteTable(t) && |flag0| == NODES && a < SYMBOLS && b < SYMBOLS && exists i :: 0 <= i < 256 && t[i] == 0
    requires Codes(t, flag0)[a] == c + [0] && Codes(t, flag0)[b] == c + [1]
    ensures Sooner(Weights(t), a, b)
  {
    FinishedFacts(t, flag0);
    FinishedWeighs(t, flag0);
    FinishedInOrder(t, flag0);
    LiveAtStart(t, flag0);
    var f := Finished(t, flag0);
    assert LinkOk(f, NODES, a) && LinkOk(f, NODES, b);
    LiveRoots(f);
    var p, q := f.up[a], f.up[b];
    assert Code(f.up, f.flag, p) == (c + [0])[..|c|] == c == (c + [1])[..|c|] == Code(f.up, f.flag, q);
    CodeIdentifies(f, p, q);
    assert KidsInOrder(f, p);
  }

  /** A byte value alone with the end symbol: the lighter has code 0, and the byte if both weigh 1. */
  lemma OneByteCodes(t: seq<nat>, flag0: seq<int>, b: nat)
    requires ByteTable(t) && |flag0| == NODES && b < 256 && forall i :: 0 <= i < 256 ==> (t[i] > 0 <==> i == b)
    ensures var c := Codes(t, flag0);
            if t[b] == 1 then c[b] == [0] && c[END_SYMBOL] == [1] else c[b] == [1] && c[END_SYMBOL] == [0]
  {
    var s, first := Start(t, flag0), FirstNode(t);
    StartOk(t, flag0);
    assert s.freq[b] > 0 && s.freq[END_SYMBOL] == 1;
    assert forall k :: 0 <= k < NODES && s.freq[k] > 0 ==> k == b || k == END_SYMBOL;
    var more, x, y, g := BuildStep(s, first);
    assert more;
    assert Sooner(s.freq, x, y);
    assert forall k :: 0 <= k < NODES && g.freq[k] > 0 ==> k == first;
    var again, u, v, h := BuildStep(g, first + 1);
    assert Finished(t, flag0) == g;
    FinishedFacts(t, flag0);
    RootCode(g, x, first);
    RootCode(g, y, first);
  }

  lemma RootCode(f: Forest, n: nat, p: nat)
    requires Ok(f, NODES) && n < NODES && p < NODES && f.up[n] == p && f.up[p] == -1
    ensures Code(f.up, f.flag, n) == [f.flag[n]]
  {
    assert Code(f.up, f.flag, p) == [];
  }

  /** No prefix code for the live symbols has a smaller total weighted length. */
  lemma Optimal(t: seq<nat>, flag0: seq<int>, code: seq<seq<int>>)
    requires ByteTable(t) && |flag0| == NODES && IsPrefixCode(Weights(t), code)
    ensures Cost(Weights(t), Lengths(Codes(t, flag0))) <= Cost(Weights(t), Lengths(code))
  {
    var f := Start(t, flag0);
    var m := MaxLength(code);
    var l := Lengths(code);
    var d := l + seq(255, _ => 0);
    StartOk(t, flag0);
    KraftInequality(Weights(t), code, m);
    OnAllNodes(t, flag0, l, d, m);
    KraftLowerBound(f, FirstNode(t), d, m);
    TableCosts(t, flag0);
  }

  /** A code word as the integer the source stores: most significant bit first. */
  function Value(c: seq<int>): int {
    if c == [] then 0 else 2 * Value(c[..|c| - 1]) + c[|c| - 1]
  }

  lemma {:induction false} ValueInjective(c: seq<int>, e: seq<int>)
    requires |c| == |e| && Bits(c) && Bits(e) && Value(c) == Value(e)
    ensures c == e
  {
    if c != [] {
      var n := |c| - 1;
      assert c == c[..n] + [c[n]] && e == e[..n] + [e[n]];
      ValueInjective(c[..n], e[..n]);
    }
  }

  /** The stored value of a code word matches the stream exactly when the code word begins it. */
  lemma ValueMatches(c: seq<int>, stream: seq<int>)
    requires Bits(c) && Bits(stream) && |c| <= |stream|
    ensures Value(stream[..|c|]) == Value(c) <==> c <= stream
  {
    if c <= stream {
      assert stream[..|c|] == c;
    } else if Value(stream[..|c|]) == Value(c) {
      ValueInjective(stream[..|c|], c);
    }
  }

  lemma {:induction false} CodesAreBits(f: Forest, n: nat)
    requires Ok(f, NODES) && n < NODES
    ensures Bits(Code(f.up, f.flag, n))
    decreases NODES - n
  {
    if f.up[n] != -1 {
      assert LinkOk(f, NODES, n);
      CodesAreBits(f, f.up[n]);
    }
  }

  lemma SomeRoot(f: Forest) returns (r: nat)
    requires Sized(f) && Live(f.freq) == 1
    ensures r < NODES && f.freq[r] > 0
  {
    if forall r :: 0 <= r < NODES ==> f.freq[r] == 0 { SumZeros(Ones(f.freq)); }
    r :| 0 <= r < NODES && f.freq[r] > 0;
  }

  /** The symbol whose stored value is found at the head of the stream. */
  ghost predicate Hit(c: seq<int>, stream: seq<int>) {
    |c| <= |stream| && Value(stream[..|c|]) == Value(c)
  }

  lemma WordsDecode(f: Forest, w: seq<nat>, stream: seq<int>) returns (k: nat)
    requires Ok(f, NODES) && Sum(f.freq) < 75025 && Live(f.freq) == 1 && Weighs(f, w)
    requires Bits(stream) && |stream| >= MAX_CODE_LENGTH
    ensures k < SYMBOLS && w[k] > 0
    ensures forall b :: 0 <= b < SYMBOLS && w[b] > 0 ==> (Hit(Words(f)[b], stream) <==> b == k)
  {
    var r := SomeRoot(f);
    k := Walk(f.kids, r, stream);
    Decodes(f, r, stream);
    WordsOfBits(f);
    assert IsLiveSymbol(f, k);
    forall b | 0 <= b < SYMBOLS && w[b] > 0 ensures Hit(Words(f)[b], stream) <==> b == k {
      assert IsLiveSymbol(f, b);
      ShortWords(f, b);
      ValueMatches(Words(f)[b], stream);
    }
  }

  // ---- the function itself -----------------------------------------------------------------------------------

  /** The scan of the merge loop for the two lightest live nodes below `j`. */
  method FindSmallest(frequency: array<nat>, j: nat) returns (min0: nat, min1: nat, s0: nat, s1: nat)
    requires j <= frequency.Length
    ensures Scan(min0, min1, s0, s1) == ScanTo(frequency[..], j)
  {
    min0, min1, s0, s1 := SENTINEL, SENTINEL, 0, 0;
    var i := 0;
    while i < j
      invariant 0 <= i <= j
      invariant Scan(min0, min1, s0, s1) == ScanTo(frequency[..], i)
    {
      if frequency[i] != 0 {
        if frequency[i] < min1 {
          if frequency[i] < min0 {
            min1, s1 := min0, s0;
            min0, s0 := frequency[i], i;
          } else {
            min1, s1 := frequency[i], i;
          }
        }
      }
      i := i + 1;
    }
  }

  /** One merge, in place. */
  method Join(frequency: array<nat>, up: array<int>, flag: array<int>, j: nat, s0: nat, s1: nat)
    requires frequency.Length == NODES && up.Length == NODES && flag.Length == NODES
    requires up != flag && frequency as object !in {up as object, flag as object}
    requires s0 < j && s1 < j && s0 != s1 && j < NODES
    modifies frequency, up, flag
    ensures frequency[..] == old(frequency[..])[j := old(frequency[s0] + frequency[s1])][s0 := 0][s1 := 0]
    ensures up[..] == old(up[..])[s0 := j][s1 := j]
    ensures flag[..] == old(flag[..])[s0 := 0][s1 := 1]
  {
    frequency[j] := frequency[s0] + frequency[s1];
    flag[s0] := 0;
    flag[s1] := 1;
    up[s0] := j;
    up[s1] := j;
    frequency[s0] := 0;
    frequency[s1] := 0;
  }

  /** The arrays hold the forest `f`. */
  ghost predicate Holds(frequency: array<nat>, up: array<int>, flag: array<int>, f: Forest)
    reads frequency, up, flag
  {
    Sized(f) && frequency[..] == f.freq && up[..] == f.up && flag[..] == f.flag
  }

  lemma PairBelow(f: Forest, j: nat, x: nat, y: nat)
    requires Sized(f) && j <= NODES && TwoSmallest(f.freq, j, x, y)
    ensures x < j && y < j && x != y
  {
  }

  /** One round of the merge loop: a merge, or the end of the run. */
  method Round(frequency: array<nat>, up: array<int>, flag: array<int>, j: nat, ghost f: Forest)
      returns (more: bool, ghost g: Forest)
    requires up != flag && frequency as object !in {up as object, flag as object}
    requires Holds(frequency, up, flag, f) && Ok(f, j) && j < NODES
    modifies frequency, up, flag
    ensures Holds(frequency, up, flag, g)
    ensures more ==> Ok(g, j + 1) && Build(g, j + 1) == Build(f, j)
    ensures !more ==> g == f == Build(f, j)
  {
    hide Ok, Build, ScanTo, Merged, AtMostOneLive, Live, TwoSmallest;
    ghost var merging, x, y, h := BuildStep(f, j);
    g := if merging then h else f;
    var min0, min1, s0, s1 := FindSmallest(frequency, j);
    more := min1 != SENTINEL;
    if more {
      PairBelow(f, j, s0, s1);
      Join(frequency, up, flag, j, s0, s1);
    }
  }

  /** The merge loop, in place on the three arrays. */
  method BuildTree(frequency: array<nat>, up: array<int>, flag: array<int>, ghost t: seq<nat>) returns (ghost f: Forest)
    requires up != flag && frequency as object !in {up as object, flag as object}
    requires ByteTable(t) && flag.Length == NODES && Holds(frequency, up, flag, Start(t, flag[..]))
    modifies frequency, up, flag
    ensures f == Finished(t, old(flag[..])) && Holds(frequency, up, flag, f)
  {
    f := Start(t, flag[..]);
    StartOk(t, flag[..]);
    ghost var goal := Finished(t, flag[..]);
    var j := SYMBOLS;
    assert Build(f, j) == goal;
    hide Ok, Build, Start, Finished, Holds;
    while j < NODES
      invariant SYMBOLS <= j <= NODES && Ok(f, j) && Sized(f)
      invariant Holds(frequency, up, flag, f) && Build(f, j) == goal
    {
      var more, g := Round(frequency, up, flag, j, f);
      f := g;
      if !more { return; }
      j := j + 1;
    }
    ghost var more, x, y, g := BuildStep(f, j);
  }

  lemma {:induction false} ValueCons(bit: int, c: seq<int>)
    ensures Value([bit] + c) == bit * Pow2(|c|) + Value(c)
  {
    if c == [] {
      assert [bit] + c == [bit];
      assert Value([bit]) == 2 * Value([]) + bit;
    } else {
      var n := |c| - 1;
      assert ([bit] + c)[..n + 1] == [bit] + c[..n];
      ValueCons(bit, c[..n]);
      assert bit * Pow2(n + 1) == 2 * (bit * Pow2(n));
    }
  }

  /** The climb from one symbol to its root: the code value and length, and whether a length passed 31. */
  method ReadCode(up: array<int>, flag: array<int>, j: nat, ghost f: Forest)
      returns (bits: int, len: nat, overflow: bool)
    requires up.Length == NODES && flag.Length == NODES && j < SYMBOLS
    requires Ok(f, NODES) && f.up == up[..] && f.flag == flag[..] && Sum(f.freq) < 75025
    ensures len == |Words(f)[j]| && bits == Value(Words(f)[j]) && !overflow
  {
    ShortWords(f, j);
    var node := j;
    bits, len, overflow := 0, 0, false;
    ghost var suffix := [];
    assert Code(f.up, f.flag, node) + suffix == Words(f)[j];
    assert Climbs(f.up);
    hide Ok, Pow2;
    while up[node] != -1
      invariant node < NODES && !overflow
      invariant Code(f.up, f.flag, node) + suffix == Words(f)[j]
      invariant bits == Value(suffix) && len == |suffix|
      decreases NODES - node
    {
      ValueCons(flag[node], suffix);
      assert Code(f.up, f.flag, up[node]) + ([flag[node]] + suffix) == Code(f.up, f.flag, node) + suffix;
      suffix := [flag[node]] + suffix;
      bits := bits + flag[node] * Pow2(len);
      len := len + 1;
      if len > 31 { overflow := true; }
      node := up[node];
    }
    assert suffix == Words(f)[j];
  }

  /** The loop over the symbols that fills `len_tab` and `bits_tab`. */
  method ReadCodes(up: array<int>, flag: array<int>, ghost f: Forest)
      returns (lens: seq<nat>, bits: seq<int>, overflow: bool)
    requires up.Length == NODES && flag.Length == NODES
    requires Ok(f, NODES) && f.up == up[..] && f.flag == flag[..] && Sum(f.freq) < 75025
    ensures lens == Lengths(Words(f)) && bits == Values(Words(f)) && !overflow
  {
    var lenTab := new nat[SYMBOLS](_ => 0);
    var bitsTab := new int[SYMBOLS](_ => 0);
    overflow := false;
    var j := 0;
    while j < SYMBOLS
      invariant 0 <= j <= SYMBOLS && !overflow
      invariant f.up == up[..] && f.flag == flag[..]
      invariant forall k :: 0 <= k < j ==> lenTab[k] == |Words(f)[k]| && bitsTab[k] == Value(Words(f)[k])
    {
      var value, len, over := ReadCode(up, flag, j, f);
      bitsTab[j], lenTab[j], overflow := value, len, overflow || over;
      j := j + 1;
    }
    lens, bits := lenTab[..], bitsTab[..];
  }

  function Values(code: seq<seq<int>>): (v: seq<int>)
    ensures |v| == |code|
  {
    seq(|code|, k requires 0 <= k < |code| => Value(code[k]))
  }

  /** Everything after the runs: the end symbol, the merges and the codes. `flag0` is what the stack array held. */
  method MakeTables(frequency: array<nat>, flag: array<int>, ghost t: seq<nat>)
      returns (lens: seq<nat>, bits: seq<int>, overflow: bool)
    requires frequency.Length == NODES && flag.Length == NODES && frequency as object != flag
    requires ByteTable(t) && frequency[..256] == t && forall k :: 256 <= k < NODES ==> frequency[k] == 0
    modifies frequency, flag
    ensures lens == Lengths(Codes(t, old(flag[..]))) && bits == Values(Codes(t, old(flag[..]))) && !overflow
  {
    ghost var flag0 := flag[..];
    frequency[END_SYMBOL] := 1;
    var up := new int[NODES](_ => -1);
    assert frequency[..] == Start(t, flag0).freq && up[..] == Start(t, flag0).up;
    ghost var f := BuildTree(frequency, up, flag, t);
    FinishedFacts(t, flag0);
    lens, bits, overflow := ReadCodes(up, flag, Finished(t, flag0));
  }

  lemma {:induction false} ParsedBytes(buf: seq<Byte>, size: nat, pos: nat, start: Byte, end: Byte, table: seq<nat>)
    requires size + PADDING <= |buf| && pos <= size + 2 && ByteTable(table)
    requires ParseRuns(buf, size, pos, start, end, table).Parsed?
    ensures ByteTable(ParseRuns(buf, size, pos, start, end, table).table)
    decreases size + 2 - pos
  {
    var n := Max(end - start + 1, 0);
    var t := Overlay(table, start, end, buf[pos..pos + n]);
    var next := buf[pos + n];
    if next != 0 {
      ParsedBytes(buf, size, pos + n + 2, next, buf[pos + n + 1], t);
    }
  }

  /** One run: the frequencies of the symbols `start` to `end`, read from `ptr` on. */
  method ReadRun(buf: seq<Byte>, start: Byte, end: Byte, frequency: array<nat>, ptr: nat) returns (next: nat)
    requires frequency.Length == NODES && ptr + Max(end - start + 1, 0) <= |buf|
    modifies frequency
    ensures next == ptr + Max(end - start + 1, 0)
    ensures frequency[..256] == Overlay(old(frequency[..256]), start, end, buf[ptr..next])
    ensures forall k :: 256 <= k < NODES ==> frequency[k] == old(frequency[k])
  {
    next := ptr;
    var i: int := start;
    while i <= end
      invariant start <= i && (i <= end + 1 || i == start)
      invariant next == ptr + (i - start)
      invariant forall k :: 256 <= k < NODES ==> frequency[k] == old(frequency[k])
      invariant forall k :: 0 <= k < 256 ==>
                  frequency[k] == if start <= k < i then buf[ptr + (k - start)] else old(frequency[k])
    {
      frequency[i] := buf[next];
      next := next + 1;
      i := i + 1;
    }
    assert frequency[..256] == Overlay(old(frequency[..256]), start, end, buf[ptr..next]);
  }

  lemma OverlayBytes(table: seq<nat>, start: Byte, end: Byte, bytes: seq<Byte>)
    requires ByteTable(table) && |bytes| == Max(end - start + 1, 0)
    ensures ByteTable(Overlay(table, start, end, bytes))
  {
  }

  /** The run loop, the alignment and the two bounds checks; -1 stands for the failure return. */
  method ReadRuns(buf: seq<Byte>, size: nat, frequency: array<nat>) returns (next: int)
    requires size + PADDING <= |buf| && frequency.Length == NODES
    requires forall k :: 0 <= k < NODES ==> frequency[k] == 0
    modifies frequency
    ensures next < 0 <==> ParseTable(buf, size).Invalid?
    ensures next >= 0 ==> next == ParseTable(buf, size).pos && ByteTable(ParseTable(buf, size).table)
                          && frequency[..256] == ParseTable(buf, size).table
    ensures forall k :: 256 <= k < NODES ==> frequency[k] == 0
  {
    hide Overlay;
    var start: Byte, end: Byte := buf[0], buf[1];
    var ptr := 2;
    ghost var goal := ParseRuns(buf, size, 2, buf[0], buf[1], Zero256());
    assert frequency[..256] == Zero256();
    while true
      invariant 2 <= ptr <= size + 2
      invariant forall k :: 256 <= k < NODES ==> frequency[k] == 0
      invariant ByteTable(frequency[..256]) && ParseRuns(buf, size, ptr, start, end, frequency[..256]) == goal
      decreases size + 2 - ptr
    {
      if size - ptr < Max(end - start + 1, 0) + 1 { return -1; }
      OverlayBytes(frequency[..256], start, end, buf[ptr..ptr + Max(end - start + 1, 0)]);
      ptr := ReadRun(buf, start, end, frequency, ptr);
      start := buf[ptr];
      ptr := ptr + 1;
      if start == 0 { break; }
      end := buf[ptr];
      ptr := ptr + 1;
    }
    while ptr % 4 != 0
      invariant goal.pos <= ptr <= (goal.pos + 3) / 4 * 4
      decreases (goal.pos + 3) / 4 * 4 - ptr
    {
      ptr := ptr + 1;
    }
    next := if ptr > size then -1 else ptr;
  }
}
