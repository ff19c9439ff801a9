/**
 * What becomes of the code table read_huffman_tables of libavcodec/4xm.c builds: when init_vlc takes it, when it
 * decodes, and the whole function.
 */
module FourXmTables {
  import opened Basics
  import opened SeqSums
  import opened HuffmanTree
  import opened HuffmanCodes
  import opened HuffmanOptimal
  import opened FourXmHuffman
  import opened VlcTable

  const ACDC_VLC_BITS: nat := 9

  /** A byte value that does not occur, or one that does. */
  ghost predicate SomeZero(t: seq<nat>) { exists i :: 0 <= i < |t| && t[i] == 0 }

  ghost predicate SomeByte(t: seq<nat>) { exists i :: 0 <= i < |t| && t[i] != 0 }

  /**
   * A live symbol that was never merged: it ends as a root and its code is empty, like that of a symbol that does not
   * occur.
   */
  ghost predicate BareRoot(t: seq<nat>, flag0: seq<int>)
    requires ByteTable(t) && |flag0| == NODES
  {
    exists k :: 0 <= k < SYMBOLS && Bare(Weights(t), Codes(t, flag0), k)
  }

  ghost predicate Bare(w: seq<nat>, code: seq<seq<int>>, k: nat)
    requires k < |w| == |code|
  {
    w[k] > 0 && code[k] == []
  }

  // ---- init_vlc's verdict -------------------------------------------------------------------------------------

  /** Only live symbols have a code of any length. */
  lemma CodedIsLive(t: seq<nat>, flag0: seq<int>, k: nat)
    requires ByteTable(t) && |flag0| == NODES && k < SYMBOLS && Codes(t, flag0)[k] != []
    ensures Weights(t)[k] > 0
  {
    FinishedFacts(t, flag0);
    FinishedWeighs(t, flag0);
    assert LinkOk(Finished(t, flag0), NODES, k);
  }

  lemma PrefixFreeAccepted(t: seq<nat>, flag0: seq<int>)
    requires ByteTable(t) && |flag0| == NODES && SomeZero(t)
    ensures Accepts(Codes(t, flag0), ACDC_VLC_BITS)
  {
    PrefixFreeIff(t, flag0);
    var c := Codes(t, flag0);
    forall a: nat, b: nat ensures !Collide(c, a, b) {
      if a < SYMBOLS && b < SYMBOLS && c[a] != [] && c[b] != [] {
        CodedIsLive(t, flag0, a);
        CodedIsLive(t, flag0, b);
      }
    }
    forall s | 0 <= s < |c| ensures |c[s]| <= 3 * ACDC_VLC_BITS { NoLongCodes(t, flag0, s); }
    ApartAccepted(c, ACDC_VLC_BITS);
  }

  lemma ThreeLive(freq: seq<nat>, a: nat, b: nat, c: nat)
    requires a < |freq| && b < |freq| && c < |freq| && freq[a] > 0 && freq[b] > 0 && freq[c] > 0
    requires a != b && b != c && a != c
    ensures Live(freq) >= 3
  {
    var ones := Ones(freq);
    SumUpdate(ones, a, 0);
    SumUpdate(ones[a := 0], b, 0);
    SumBounds(ones[a := 0][b := 0]);
    assert ones[a := 0][b := 0][c] == 1;
  }

  /** With a symbol among two roots, all symbols that have a code are in the other tree. */
  lemma SharedRoot(f: Forest, k: nat, a: nat, b: nat)
    requires Ok(f, NODES) && Live(f.freq) <= 2 && k < SYMBOLS && a < SYMBOLS && b < SYMBOLS
    requires f.weight[k] > 0 && f.up[k] == -1 && f.up[a] != -1 && f.up[b] != -1
    ensures f.weight[a] > 0 && f.weight[b] > 0 && Root(f.up, a) == Root(f.up, b)
  {
    assert LinkOk(f, NODES, k) && LinkOk(f, NODES, a) && LinkOk(f, NODES, b);
    AncestorFacts(f, a, Depth(f.up, a));
    AncestorFacts(f, b, Depth(f.up, b));
    assert LinkOk(f, NODES, Root(f.up, a)) && LinkOk(f, NODES, Root(f.up, b));
    if Root(f.up, a) != Root(f.up, b) { ThreeLive(f.freq, k, Root(f.up, a), Root(f.up, b)); }
  }

  lemma BareRootAccepted(t: seq<nat>, flag0: seq<int>)
    requires ByteTable(t) && |flag0| == NODES && BareRoot(t, flag0)
    ensures Accepts(Codes(t, flag0), ACDC_VLC_BITS)
  {
    FinishedFacts(t, flag0);
    FinishedWeighs(t, flag0);
    var f, c := Finished(t, flag0), Codes(t, flag0);
    var k :| 0 <= k < SYMBOLS && Bare(Weights(t), c, k);
    forall a: nat, b: nat ensures !Collide(c, a, b) {
      if a < SYMBOLS && b < SYMBOLS && a != b && c[a] != [] && c[b] != [] {
        SharedRoot(f, k, a, b);
        NoPrefixInTree(f, a, b);
        NoPrefixInTree(f, b, a);
      }
    }
    forall s | 0 <= s < |c| ensures |c[s]| <= 3 * ACDC_VLC_BITS { NoLongCodes(t, flag0, s); }
    ApartAccepted(c, ACDC_VLC_BITS);
  }

  lemma {:induction false} Pow2Grows(a: nat, b: nat)
    requires a <= b
    ensures Pow2(a) <= Pow2(b)
    decreases b
  {
    if a < b { Pow2Grows(a, b - 1); }
  }

  lemma {:induction false} Pow2Splits(a: nat, b: nat)
    ensures Pow2(a + b) == Pow2(a) * Pow2(b)
    decreases b
  {
    if b > 0 {
      Pow2Splits(a, b - 1);
      assert Pow2(a) * (2 * Pow2(b - 1)) == 2 * (Pow2(a) * Pow2(b - 1));
    }
  }

  lemma SpaceForLong()
    ensures SYMBOLS * Pow2(12) < 2 * Pow2(MAX_CODE_LENGTH)
  {
    Pow2Splits(12, 10);
    assert Pow2(10) == 1024;
  }

  lemma LongFillLittle(w: seq<nat>, l: seq<nat>)
    requires |w| == |l| == SYMBOLS && forall k :: 0 <= k < SYMBOLS && w[k] > 0 ==> l[k] > ACDC_VLC_BITS
    ensures Kraft(w, l, MAX_CODE_LENGTH) <= SYMBOLS * Pow2(12)
  {
    var s := Shares(w, l, MAX_CODE_LENGTH);
    forall k | 0 <= k < |s| ensures s[k] <= Pow2(12) {
      if w[k] > 0 && l[k] <= MAX_CODE_LENGTH { Pow2Grows(MAX_CODE_LENGTH - l[k], 12); }
    }
    SumAtMost(s, Pow2(12));
  }

  /** 257 symbols cannot fill two code spaces with codes of more than 9 bits only. */
  lemma ShortCode(t: seq<nat>, flag0: seq<int>) returns (a: nat)
    requires ByteTable(t) && |flag0| == NODES && !SomeZero(t)
    ensures a < SYMBOLS && Weights(t)[a] > 0 && |Codes(t, flag0)[a]| <= ACDC_VLC_BITS
  {
    var w, c := Weights(t), Codes(t, flag0);
    var l := Lengths(c);
    LiveAtStart(t, flag0);
    TableCosts(t, flag0);
    SpaceForLong();
    if forall k :: 0 <= k < SYMBOLS && w[k] > 0 ==> l[k] > ACDC_VLC_BITS { LongFillLittle(w, l); }
    a :| 0 <= a < SYMBOLS && w[a] > 0 && l[a] <= ACDC_VLC_BITS;
  }

  /** A symbol in the tree of root `s` whose code overlaps any given bits. */
  lemma OverlapInTree(f: Forest, s: nat, bits: seq<int>) returns (b: nat)
    requires Ok(f, NODES) && Sum(f.freq) < 75025 && SYMBOLS <= s < NODES && f.weight[s] > 0 && f.up[s] == -1
    requires Bits(bits)
    ensures b < SYMBOLS && f.weight[b] > 0 && Root(f.up, b) == s
    ensures Code(f.up, f.flag, b) != [] && Overlap(bits, Code(f.up, f.flag, b))
  {
    var z := bits + Zeros(MAX_CODE_LENGTH + 1);
    b := Walk(f.kids, s, z);
    WalkFacts(f, s, z);
    assert Code(f.up, f.flag, s) + z == z;
    DepthBound(f, b);
    var c := Code(f.up, f.flag, b);
    assert c == z[..|c|] && bits == z[..|bits|];
  }

  lemma OtherRoot(f: Forest, r: nat) returns (s: nat)
    requires Ok(f, NODES) && Live(f.freq) == 2 && r < NODES
    ensures s < NODES && s != r && f.freq[s] > 0
  {
    LiveAtMostOne(f.freq, NODES);
    var p, q :| 0 <= p < NODES && 0 <= q < NODES && f.freq[p] > 0 && f.freq[q] > 0 && p != q;
    s := if p == r then q else p;
  }

  lemma TwoTreesRefused(t: seq<nat>, flag0: seq<int>)
    requires ByteTable(t) && |flag0| == NODES && !SomeZero(t) && !BareRoot(t, flag0)
    ensures !Accepts(Codes(t, flag0), ACDC_VLC_BITS)
  {
    FinishedFacts(t, flag0);
    FinishedWeighs(t, flag0);
    LiveAtStart(t, flag0);
    var f, c := Finished(t, flag0), Codes(t, flag0);
    var a := ShortCode(t, flag0);
    assert !Bare(Weights(t), c, a);
    var s := OtherRoot(f, Root(f.up, a));
    assert LinkOk(f, NODES, s) && f.up[s] == -1 && f.weight[s] > 0;
    assert s < SYMBOLS ==> !Bare(Weights(t), c, s);
    WordsOfBits(f);
    var b := OverlapInTree(f, s, c[a]);
    assert Collide(c, a, b);
    ShortCollisionRefused(c, ACDC_VLC_BITS, a, b);
  }

  /** init_vlc takes the table if and only if some byte does not occur or some symbol was left unmerged. */
  lemma InitVerdict(t: seq<nat>, flag0: seq<int>)
    requires ByteTable(t) && |flag0| == NODES
    ensures Accepts(Codes(t, flag0), ACDC_VLC_BITS) <==> SomeZero(t) || BareRoot(t, flag0)
  {
    hide Accepts, Codes, BareRoot;
    if SomeZero(t) { PrefixFreeAccepted(t, flag0); }
    else if BareRoot(t, flag0) { BareRootAccepted(t, flag0); }
    else { TwoTreesRefused(t, flag0); }
  }

  // ---- decoding ----------------------------------------------------------------------------------------------------

  /** A lookup finds symbol `k`: its code is not empty and its stored value stands at the head of the stream. */
  ghost predicate Answer(code: seq<seq<int>>, stream: seq<int>, k: nat) {
    k < |code| && code[k] != [] && Hit(code[k], stream)
  }

  ghost predicate OneAnswer(code: seq<seq<int>>, stream: seq<int>) {
    exists k :: Answer(code, stream, k) && forall b :: Answer(code, stream, b) ==> b == k
  }

  ghost predicate Stream(s: seq<int>) { Bits(s) && |s| >= MAX_CODE_LENGTH }

  /** The table is taken, every symbol that occurs has a code, and every 22 bits begin with exactly one. */
  ghost predicate Decodable(t: seq<nat>, flag0: seq<int>)
    requires ByteTable(t) && |flag0| == NODES
  {
    && Accepts(Codes(t, flag0), ACDC_VLC_BITS) && !BareRoot(t, flag0)
    && forall s :: Stream(s) ==> OneAnswer(Codes(t, flag0), s)
  }

  /** With one tree of several symbols, none is its own root. */
  lemma NoBareSymbol(t: seq<nat>, flag0: seq<int>)
    requires ByteTable(t) && |flag0| == NODES && SomeZero(t) && SomeByte(t)
    ensures !BareRoot(t, flag0)
  {
    FinishedFacts(t, flag0);
    FinishedWeighs(t, flag0);
    LiveAtStart(t, flag0);
    var f, c, w := Finished(t, flag0), Codes(t, flag0), Weights(t);
    var i :| 0 <= i < |t| && t[i] != 0;
    LiveRoots(f);
    forall k | 0 <= k < SYMBOLS ensures !Bare(w, c, k) {
      if w[k] > 0 && c[k] == [] {
        var b := if k == END_SYMBOL then i else END_SYMBOL;
        assert w[b] > 0 && Root(f.up, b) == Root(f.up, k) == k;
        AncestorFacts(f, b, Depth(f.up, b));
      }
    }
  }

  /** The all-zero table: no symbol has a code, so no lookup ever finds one, not even the end symbol's. */
  lemma AllZeroHasNoCodes(t: seq<nat>, flag0: seq<int>, k: nat)
    requires ByteTable(t) && |flag0| == NODES && !SomeByte(t) && k < SYMBOLS
    ensures Codes(t, flag0)[k] == [] && BareRoot(t, flag0)
  {
    var f := Start(t, flag0);
    StartOk(t, flag0);
    LiveAtStart(t, flag0);
    SumZeros(Ones(t));
    LiveAtMostOne(f.freq, FirstNode(t));
    var more, x, y, g := BuildStep(f, FirstNode(t));
    assert Finished(t, flag0) == f;
    FinishedFacts(t, flag0);
    assert Bare(Weights(t), Codes(t, flag0), END_SYMBOL);
  }

  /**
   * Reading most significant bit first, every 22 bits begin with the code of exactly one symbol, and that symbol
   * occurs.
   */
  lemma TablesDecode(t: seq<nat>, flag0: seq<int>, stream: seq<int>) returns (k: nat)
    requires ByteTable(t) && |flag0| == NODES && SomeZero(t) && SomeByte(t) && Stream(stream)
    ensures Answer(Codes(t, flag0), stream, k) && Weights(t)[k] > 0
    ensures forall b :: Answer(Codes(t, flag0), stream, b) ==> b == k
  {
    FinishedFacts(t, flag0);
    LiveAtStart(t, flag0);
    FinishedWeighs(t, flag0);
    NoBareSymbol(t, flag0);
    k := WordsDecode(Finished(t, flag0), Weights(t), stream);
    var c := Codes(t, flag0);
    assert !Bare(Weights(t), c, k);
    forall b | Answer(c, stream, b) ensures b == k { CodedIsLive(t, flag0, b); }
  }

  /** The table decodes if and only if some byte does not occur and some byte does. */
  lemma DecodableIff(t: seq<nat>, flag0: seq<int>)
    requires ByteTable(t) && |flag0| == NODES
    ensures Decodable(t, flag0) <==> SomeZero(t) && SomeByte(t)
  {
    hide Accepts, Codes, BareRoot, Answer;
    InitVerdict(t, flag0);
    if !SomeByte(t) { AllZeroHasNoCodes(t, flag0, 0); }
    if SomeZero(t) && SomeByte(t) {
      NoBareSymbol(t, flag0);
      forall s | Stream(s) ensures OneAnswer(Codes(t, flag0), s) { var k := TablesDecode(t, flag0, s); }
    }
  }

  // ---- full tables of either kind -----------------------------------------------------------------------------------

  ghost predicate NotTwice(freq: seq<nat>, a: nat, b: nat)
    requires a < |freq| && b < |freq|
  {
    freq[a] > 0 && freq[b] > 0 ==> freq[a] <= 2 * freq[b]
  }

  /** No live node but `skip` weighs more than twice another. */
  ghost predicate Balanced(freq: seq<nat>, skip: int) {
    forall a, b :: 0 <= a < |freq| && 0 <= b < |freq| && a != skip && b != skip ==> NotTwice(freq, a, b)
  }

  /** Merging the two lightest of balanced nodes keeps them balanced. */
  lemma MergeBalanced(f: Forest, j: nat, x: nat, y: nat, g: Forest, skip: int)
    requires Sized(f) && j < NODES && TwoSmallest(f.freq, j, x, y) && Merged(f, j, x, y, g) && Balanced(f.freq, skip)
    requires x != skip && y != skip && j != skip && forall k :: j <= k < NODES ==> f.freq[k] == 0
    ensures Balanced(g.freq, skip)
  {
    forall a, b | 0 <= a < NODES && 0 <= b < NODES && a != skip && b != skip ensures NotTwice(g.freq, a, b) {
      assert NotTwice(f.freq, a, b) && NotTwice(f.freq, a, x) && NotTwice(f.freq, y, b) && NotTwice(f.freq, x, b);
    }
  }

  lemma {:induction false} BuildBalanced(f: Forest, j: nat)
    requires Ok(f, j) && Balanced(f.freq, -1)
    ensures Balanced(Build(f, j).freq, -1)
    decreases NODES - j
  {
    hide Ok, Balanced, TwoSmallest, Build, Merged;
    var more, x, y, g := BuildStep(f, j);
    if more {
      NoneBeyond(f, j);
      MergeBalanced(f, j, x, y, g, -1);
      BuildBalanced(g, j + 1);
    }
  }

  /** All byte frequencies between `least` and twice that. */
  ghost predicate Even(t: seq<nat>, least: nat) {
    |t| == 256 && least > 0 && forall i :: 0 <= i < 256 ==> least <= t[i] <= 2 * least
  }

  /** All live nodes weigh between `m` and twice that. */
  ghost predicate Between(freq: seq<nat>, m: nat) {
    forall k :: 0 <= k < |freq| && freq[k] > 0 ==> m <= freq[k] <= 2 * m
  }

  lemma BetweenBalanced(freq: seq<nat>, m: nat)
    requires Between(freq, m)
    ensures Balanced(freq, -1)
  {
  }

  /** The first merge takes the end symbol along, or all weights are 1 and 2: what is left is balanced either way. */
  lemma FirstMerge(t: seq<nat>, flag0: seq<int>, least: nat, x: nat, y: nat, g: Forest)
    requires ByteTable(t) && Even(t, least) && |flag0| == NODES
    requires TwoSmallest(Start(t, flag0).freq, SYMBOLS, x, y) && Merged(Start(t, flag0), SYMBOLS, x, y, g)
    ensures Between(g.freq, Start(t, flag0).freq[y])
  {
    var freq := Start(t, flag0).freq;
    var m := freq[y];
    assert freq[END_SYMBOL] == 1;
    assert forall k :: 0 <= k < 256 ==> freq[k] == t[k];
    assert forall k :: SYMBOLS <= k < NODES ==> freq[k] == 0;
    forall k | 0 <= k < NODES && g.freq[k] > 0 ensures m <= g.freq[k] <= 2 * m {
      assert g.freq[k] == if k == SYMBOLS then freq[x] + freq[y] else freq[k];
    }
  }

  /** A table whose frequencies are all at most twice the least leaves two inner trees: init_vlc refuses it. */
  lemma EvenTableRefused(t: seq<nat>, flag0: seq<int>, least: nat)
    requires ByteTable(t) && Even(t, least) && |flag0| == NODES
    ensures !Accepts(Codes(t, flag0), ACDC_VLC_BITS)
  {
    hide Accepts;
    EvenIsBalanced(t, flag0, least);
    FinishedFacts(t, flag0);
    FinishedWeighs(t, flag0);
    var f := Finished(t, flag0);
    forall k | 0 <= k < SYMBOLS ensures !Bare(Weights(t), Codes(t, flag0), k) {
      assert LinkOk(f, NODES, k);
      if f.up[k] == -1 { HeavyRoots(t, flag0, least, k); }
    }
    InitVerdict(t, flag0);
  }

  lemma EvenIsBalanced(t: seq<nat>, flag0: seq<int>, least: nat)
    requires ByteTable(t) && Even(t, least) && |flag0| == NODES
    ensures Balanced(Finished(t, flag0).freq, -1)
  {
    hide Between, Balanced;
    var s, first := Start(t, flag0), FirstNode(t);
    StartOk(t, flag0);
    LiveAtStart(t, flag0);
    NoneBeyond(s, first);
    LiveAtMostOne(s.freq, first);
    hide Live;
    var more, x, y, g := BuildStep(s, first);
    assert more;
    FirstMerge(t, flag0, least, x, y, g);
    BetweenBalanced(g.freq, s.freq[y]);
    BuildBalanced(g, first + 1);
  }

  lemma HeavyRoots(t: seq<nat>, flag0: seq<int>, least: nat, k: nat)
    requires ByteTable(t) && Even(t, least) && |flag0| == NODES && k < NODES
    requires Balanced(Finished(t, flag0).freq, -1)
    ensures !(0 < Finished(t, flag0).freq[k] <= 2 * least)
  {
    FinishedFacts(t, flag0);
    LiveAtStart(t, flag0);
    StartOk(t, flag0);
    BuildKeeps(Start(t, flag0), FirstNode(t));
    TableTotal(t, flag0);
    EvenTotal(t, least);
    hide Start;
    var freq := Finished(t, flag0).freq;
    if 0 < freq[k] <= 2 * least {
      forall a | 0 <= a < NODES ensures freq[a] <= 4 * least * Ones(freq)[a] { assert NotTwice(freq, a, k); }
      SumAtMostOther(freq, Ones(freq), 4 * least);
    }
  }

  lemma TableTotal(t: seq<nat>, flag0: seq<int>)
    requires |t| == 256 && |flag0| == NODES
    ensures Sum(Start(t, flag0).freq) == Sum(t) + 1
  {
    var z := seq(255, _ => 0);
    SumConcat(t + [1], z);
    SumConcat(t, [1]);
    SumZeros(z);
    assert Sum([1]) == 1 by { SumSingle([1], 0); }
  }

  lemma EvenTotal(t: seq<nat>, least: nat)
    requires Even(t, least)
    ensures Sum(t) >= 256 * least
  {
    var ones := seq(256, _ => 1);
    SumOnes(ones);
    var floor: seq<int> := seq(256, _ => least);
    SumScale(floor, ones, least);
    SumAtMostOther(floor, t, 1);
  }

  /** The simplest of them: 256 equal frequencies. */
  lemma EqualFrequenciesRefused(t: seq<nat>, flag0: seq<int>)
    requires ByteTable(t) && t[0] > 0 && (forall i :: 0 <= i < 256 ==> t[i] == t[0]) && |flag0| == NODES
    ensures !Accepts(Codes(t, flag0), ACDC_VLC_BITS)
  {
    EvenTableRefused(t, flag0, t[0]);
  }

  /** One byte weighs more than two thirds of all others, the end symbol included, and those are 1 or 2. */
  ghost predicate Dominated(t: seq<nat>, h: nat) {
    && |t| == 256 && h < 256 && (forall i :: 0 <= i < 256 && i != h ==> 1 <= t[i] <= 2)
    && 3 * t[h] > 2 * (Sum(t) - t[h] + 1)
  }

  /** Two live nodes besides node `h`, both lighter: each is at most twice the other. */
  lemma TwoOthers(freq: seq<nat>, h: nat) returns (p: nat, q: nat)
    requires |freq| == NODES && h < NODES && freq[h] > 0 && Live(freq) >= 3 && Balanced(freq, h)
    requires 3 * freq[h] > 2 * (Sum(freq) - freq[h])
    ensures p < NODES && q < NODES && p != q && p != h && q != h && 0 < freq[p] < freq[h] && 0 < freq[q] < freq[h]
  {
    var rest := freq[h := 0];
    SumUpdate(freq, h, 0);
    SumUpdate(Ones(freq), h, 0);
    assert Ones(rest) == Ones(freq)[h := 0];
    LiveAtMostOne(rest, NODES);
    p, q :| 0 <= p < NODES && 0 <= q < NODES && rest[p] > 0 && rest[q] > 0 && p != q;
    SumUpdate(rest, p, 0);
    SumBounds(rest[p := 0]);
    assert rest[p := 0][q] == rest[q];
    assert NotTwice(freq, p, q) && NotTwice(freq, q, p);
  }

  lemma {:induction false} HeavyStays(f: Forest, j: nat, h: nat)
    requires Ok(f, j) && h < j && Live(f.freq) == 514 - j && Balanced(f.freq, h)
    requires f.freq[h] > 0 && f.up[h] == -1 && 3 * f.freq[h] > 2 * (Sum(f.freq) - f.freq[h])
    ensures Build(f, j).up[h] == -1
    decreases NODES - j
  {
    hide Ok, Balanced, Build, Live, Sum;
    var more, x, y, g := BuildStep(f, j);
    if more {
      var p, q := TwoOthers(f.freq, h);
      NoneBeyond(f, j);
      assert x != h && y != h;
      MergeBalanced(f, j, x, y, g, h);
      HeavyStays(g, j + 1, h);
    }
  }

  lemma DominatedStart(t: seq<nat>, flag0: seq<int>, h: nat)
    requires ByteTable(t) && Dominated(t, h) && |flag0| == NODES
    ensures var freq := Start(t, flag0).freq;
            freq[h] == t[h] > 0 && Live(freq) == 257 && Balanced(freq, h) && 3 * freq[h] > 2 * (Sum(freq) - freq[h])
  {
    TableTotal(t, flag0);
    SumBounds(t);
    LiveAtStart(t, flag0);
  }

  /** A full table that is taken: its heavy byte keeps an empty code, so the table cannot decode it. */
  lemma DominatedAccepted(t: seq<nat>, flag0: seq<int>, h: nat)
    requires ByteTable(t) && Dominated(t, h) && |flag0| == NODES
    ensures Accepts(Codes(t, flag0), ACDC_VLC_BITS)
    ensures Weights(t)[h] > 0 && Codes(t, flag0)[h] == [] && !Decodable(t, flag0)
  {
    hide Accepts, Balanced;
    DominatedStart(t, flag0, h);
    StartOk(t, flag0);
    HeavyStays(Start(t, flag0), FirstNode(t), h);
    FinishedFacts(t, flag0);
    assert Bare(Weights(t), Codes(t, flag0), h);
    InitVerdict(t, flag0);
  }

  /** The extreme one: as heavy as all other bytes together, which only 255 against 255 times 1 is. */
  lemma HeaviestAccepted(t: seq<nat>, flag0: seq<int>, h: nat)
    requires ByteTable(t) && !SomeZero(t) && h < 256 && t[h] >= Sum(t) - t[h] && |flag0| == NODES
    ensures Dominated(t, h) && t[h] == 255 && forall i :: 0 <= i < 256 && i != h ==> t[i] == 1
    ensures Accepts(Codes(t, flag0), ACDC_VLC_BITS) && Codes(t, flag0)[h] == []
  {
    forall i | 0 <= i < 256 ensures t[i] >= 1 {}
    forall i | 0 <= i < 256 && i != h ensures t[i] == 1 && t[h] == 255 { OthersAreOne(t, h, i); }
    var other := if h == 0 then 1 else 0;
    OthersAreOne(t, h, other);
    SumUpdate(t, h, 1);
    SumOnes(t[h := 1]);
    DominatedAccepted(t, flag0, h);
  }

  lemma OthersAreOne(t: seq<nat>, h: nat, i: nat)
    requires ByteTable(t) && (forall k :: 0 <= k < 256 ==> t[k] >= 1) && h < 256 && i < 256 && i != h
    requires t[h] >= Sum(t) - t[h]
    ensures t[i] == 1 && t[h] == 255
  {
    var ones, low := seq(256, _ => 1), t[h := 1][i := 1];
    SumOnes(ones);
    SumUpdate(t, h, 1);
    SumUpdate(t[h := 1], i, 1);
    SumAtMostOther(ones, low, 1);
  }

  // ---- the whole function -------------------------------------------------------------------------------------------

  /** The bits of a stored code, most significant first. */
  function WordOf(len: nat, value: int): (c: seq<int>)
    ensures |c| == len
  {
    if len == 0 then [] else WordOf(len - 1, value / 2) + [value % 2]
  }

  /** A code is recovered from its stored length and value, and the value fits the length. */
  lemma {:induction false} WordOfValue(c: seq<int>)
    requires Bits(c)
    ensures WordOf(|c|, Value(c)) == c && 0 <= Value(c) < Pow2(|c|)
  {
    if c != [] {
      var n := |c| - 1;
      WordOfValue(c[..n]);
      assert c == c[..n] + [c[n]];
    }
  }

  function WordsOf(lens: seq<nat>, bits: seq<int>): (c: seq<seq<int>>)
    requires |lens| == |bits|
    ensures |c| == |lens|
  {
    seq(|lens|, k requires 0 <= k < |lens| => WordOf(lens[k], bits[k]))
  }

  /** init_vlc on the stored tables: every value fits its length and the table can be built. */
  predicate InitVlc(lens: seq<nat>, bits: seq<int>, nb: nat)
    requires |lens| == |bits| && nb > 0
  {
    && (forall k :: 0 <= k < |lens| && lens[k] > 0 ==> bits[k] < Pow2(lens[k]))
    && Accepts(WordsOf(lens, bits), nb)
  }

  lemma InitVlcIsVerdict(code: seq<seq<int>>, nb: nat)
    requires nb > 0 && forall k :: 0 <= k < |code| ==> Bits(code[k])
    ensures InitVlc(Lengths(code), Values(code), nb) <==> Accepts(code, nb)
  {
    var lens, bits := Lengths(code), Values(code);
    forall k | 0 <= k < |code| ensures WordOf(lens[k], bits[k]) == code[k] && bits[k] < Pow2(lens[k]) {
      WordOfValue(code[k]);
    }
    assert WordsOf(lens, bits) == code;
  }

  lemma CodesInit(t: seq<nat>, flag0: seq<int>)
    requires ByteTable(t) && |flag0| == NODES
    ensures InitVlc(Lengths(Codes(t, flag0)), Values(Codes(t, flag0)), ACDC_VLC_BITS) <==>
            SomeZero(t) || BareRoot(t, flag0)
  {
    hide Accepts, InitVlc, BareRoot;
    FinishedFacts(t, flag0);
    WordsOfBits(Finished(t, flag0));
    InitVlcIsVerdict(Codes(t, flag0), ACDC_VLC_BITS);
    InitVerdict(t, flag0);
  }

  datatype Tables = NoTables | Tables(next: nat, lens: seq<nat>, bits: seq<int>)

  /**
   * The tables the function ends with, if it gets that far: every byte occurs and no symbol was left unmerged make it
   * fail.
   */
  ghost predicate Usable(t: seq<nat>, flag0: seq<int>)
    requires |flag0| == NODES
  {
    ByteTable(t) && (SomeZero(t) || BareRoot(t, flag0))
  }

  /**
   * The whole function on a padded buffer of `size` bytes: no tables exactly when the runs do not parse or init_vlc
   * turns the codes down; otherwise the position behind the runs and the length and value of every symbol's code. The
   * overflow message is never printed.
   */
  method ReadHuffmanTables(buf: seq<Byte>, size: nat, flag: array<int>) returns (r: Tables, overflow: bool)
    requires size + PADDING <= |buf| && flag.Length == NODES
    modifies flag
    ensures !overflow
    ensures var p, flag0 := ParseTable(buf, size), old(flag[..]);
            r.Tables? <==> p.Parsed? && Usable(p.table, flag0)
    ensures var p, flag0 := ParseTable(buf, size), old(flag[..]);
            r.Tables? ==> r == Tables(p.pos, Lengths(Codes(p.table, flag0)), Values(Codes(p.table, flag0)))
  {
    hide InitVlc, BareRoot;
    overflow := false;
    var frequency := new nat[NODES](_ => 0);
    var next := ReadRuns(buf, size, frequency);
    if next < 0 { return NoTables, false; }
    ghost var t, flag0 := ParseTable(buf, size).table, flag[..];
    var lens, bits, over := MakeTables(frequency, flag, t);
    CodesInit(t, flag0);
    r, overflow := if InitVlc(lens, bits, ACDC_VLC_BITS) then Tables(next, lens, bits) else NoTables, over;
  }
}
