/**
 * The Huffman tree builder of libavcodec/4xm.c: `frequency`, `up` and `flag` after each merge,
 * as functions, and the invariant every merge keeps.
 */
module HuffmanTree {
  import opened SeqSums

  const NODES: nat := 512
  const SYMBOLS: nat := 257
  const END_SYMBOL: nat := 256
  /** The start value of both running minima: larger than any weight a table can hold. */
  const SENTINEL: nat := 65536

  /** The running minima of the selection scan and the nodes that hold them. */
  datatype Scan = Scan(min0: nat, min1: nat, s0: nat, s1: nat)

  function ScanStep(sc: Scan, i: nat, freq: nat): Scan {
    if freq == 0 || freq >= sc.min1 then sc
    else if freq < sc.min0 then Scan(freq, sc.min0, i, sc.s0)
    else sc.(min1 := freq, s1 := i)
  }

  function ScanTo(freq: seq<nat>, i: nat): (sc: Scan)
    requires i <= |freq|
    ensures i == 0 ==> sc == Scan(SENTINEL, SENTINEL, 0, 0)
    ensures i > 0 ==> sc.s0 < i && sc.s1 < i
  {
    if i == 0 then Scan(SENTINEL, SENTINEL, 0, 0) else ScanStep(ScanTo(freq, i - 1), i - 1, freq[i - 1])
  }

  /**
   * The arrays of the builder. `freq`, `up` and `flag` are the source's; `weight` remembers the weight a
   * node had before it was merged away and `kids` the pair a node was made of.
   */
  datatype Forest = Forest(freq: seq<nat>, up: seq<int>, flag: seq<int>, weight: seq<nat>, kids: seq<(nat, nat)>)

  predicate Sized(f: Forest) {
    |f.freq| == NODES && |f.up| == NODES && |f.flag| == NODES && |f.weight| == NODES && |f.kids| == NODES
  }

  function Merge(f: Forest, j: nat, x: nat, y: nat): Forest
    requires Sized(f) && x < NODES && y < NODES && j < NODES
  {
    var w := f.freq[x] + f.freq[y];
    Forest(f.freq[j := w][x := 0][y := 0], f.up[x := j][y := j], f.flag[x := 0][y := 1],
           f.weight[j := w], f.kids[j := (x, y)])
  }

  /** All remaining merges, from internal node `j` on. */
  function Build(f: Forest, j: nat): (r: Forest)
    requires Sized(f) && 0 < j
    ensures Sized(r)
    decreases |f.freq| - j
  {
    if j >= NODES then f
    else
      var sc := ScanTo(f.freq, j);
      if sc.min1 == SENTINEL then f else Build(Merge(f, j, sc.s0, sc.s1), j + 1)
  }

  // ---- what the scan finds -------------------------------------------------------------------

  ghost predicate Below(freq: seq<nat>, bound: nat) {
    forall k :: 0 <= k < |freq| ==> freq[k] < bound
  }

  /** `x` and `y` are two live nodes below `j` and no other live node below `j` is lighter than `y`. */
  ghost predicate TwoSmallest(freq: seq<nat>, j: nat, x: nat, y: nat)
    requires j <= |freq|
  {
    && x < j && y < j && x != y
    && 0 < freq[x] <= freq[y]
    && forall k :: 0 <= k < j && k != x && freq[k] > 0 ==> freq[y] <= freq[k]
  }

  ghost predicate AtMostOneLive(freq: seq<nat>, j: nat)
    requires j <= |freq|
  {
    forall a, b :: 0 <= a < j && 0 <= b < j && freq[a] > 0 && freq[b] > 0 ==> a == b
  }

  ghost predicate ScanMeans(freq: seq<nat>, i: nat, sc: Scan)
    requires i <= |freq|
  {
    && sc.min0 <= sc.min1 <= SENTINEL
    && (sc.min0 == SENTINEL ==> forall k :: 0 <= k < i ==> freq[k] == 0)
    && (sc.min0 < SENTINEL ==>
          && sc.s0 < i && freq[sc.s0] == sc.min0 > 0
          && (forall k :: 0 <= k < i && freq[k] > 0 ==> sc.min0 <= freq[k])
          && (forall k :: 0 <= k < i && freq[k] > 0 && k != sc.s0 ==> sc.min1 <= freq[k]))
    && (sc.min1 < SENTINEL ==>
          sc.min0 < SENTINEL && sc.s1 < i && sc.s1 != sc.s0 && freq[sc.s1] == sc.min1)
  }

  lemma {:induction false} ScanInvariant(freq: seq<nat>, i: nat)
    requires i <= |freq| && Below(freq, SENTINEL)
    ensures ScanMeans(freq, i, ScanTo(freq, i))
  {
    if i > 0 {
      ScanInvariant(freq, i - 1);
      assert freq[i - 1] < SENTINEL;
    }
  }

  /**
   * While every weight stays under the sentinel, the sentinel in `min_freq[1]` means exactly "fewer than two live
   * nodes".
   */
  lemma ScanSelects(freq: seq<nat>, j: nat)
    requires 0 < j <= |freq| && Below(freq, SENTINEL)
    ensures ScanTo(freq, j).min1 == SENTINEL <==> AtMostOneLive(freq, j)
    ensures ScanTo(freq, j).min1 != SENTINEL ==> TwoSmallest(freq, j, ScanTo(freq, j).s0, ScanTo(freq, j).s1)
    ensures ScanTo(freq, j).min1 != SENTINEL ==>
              ScanTo(freq, j).min0 == freq[ScanTo(freq, j).s0] && ScanTo(freq, j).min1 == freq[ScanTo(freq, j).s1]
  {
    ScanInvariant(freq, j);
    var sc := ScanTo(freq, j);
    if sc.min1 == SENTINEL {
      forall a, b | 0 <= a < j && 0 <= b < j && freq[a] > 0 && freq[b] > 0 ensures a == b {
        assert freq[a] < SENTINEL && freq[b] < SENTINEL;
      }
    } else {
      assert freq[sc.s0] > 0 && freq[sc.s1] > 0;
    }
  }

  /** `a` comes before `b`: it is lighter, or as light and of smaller index. */
  predicate Sooner(freq: seq<nat>, a: nat, b: nat)
    requires a < |freq| && b < |freq|
  {
    freq[a] < freq[b] || (freq[a] == freq[b] && a < b)
  }

  /** `x` is the first of the live nodes below `j` by weight and index, and `y` the second. */
  ghost predicate FirstTwo(freq: seq<nat>, j: nat, x: nat, y: nat)
    requires j <= |freq| && x < |freq| && y < |freq|
  {
    Sooner(freq, x, y) && forall k :: 0 <= k < j && freq[k] > 0 && k != x && k != y ==> Sooner(freq, y, k)
  }

  ghost predicate ScanFirst(freq: seq<nat>, i: nat, sc: Scan)
    requires i <= |freq|
  {
    && (sc.min0 < SENTINEL ==>
          sc.s0 < i && forall k :: 0 <= k < i && freq[k] > 0 && k != sc.s0 ==> Sooner(freq, sc.s0, k))
    && (sc.min1 < SENTINEL ==> sc.s0 < i && sc.s1 < i && FirstTwo(freq, i, sc.s0, sc.s1))
  }

  /** Equal weights are taken in the order of their nodes. */
  lemma {:induction false} ScanTakesFirst(freq: seq<nat>, i: nat)
    requires i <= |freq| && Below(freq, SENTINEL)
    ensures ScanFirst(freq, i, ScanTo(freq, i))
  {
    ScanInvariant(freq, i);
    if i > 0 {
      ScanTakesFirst(freq, i - 1);
      ScanInvariant(freq, i - 1);
    }
  }

  // ---- the invariant of the merge loop ---------------------------------------------------------

  /** Parent links only lead to later nodes, so every climb ends. */
  ghost predicate Climbs(up: seq<int>) {
    && |up| == NODES
    && forall k :: 0 <= k < NODES ==> up[k] == -1 || (k < up[k] < NODES && SYMBOLS <= up[k])
  }

  /**
   * Node `k` while nodes from `j` on do not exist yet: it is live exactly when it has weight and no parent, and a
   * merged node is the recorded kid of its parent, on the side its flag tells.
   */
  ghost predicate LinkOk(f: Forest, j: nat, k: nat)
    requires Sized(f) && k < NODES
  {
    && (j <= k ==> f.weight[k] == 0)
    && f.freq[k] == (if f.up[k] == -1 then f.weight[k] else 0)
    && (f.up[k] != -1 ==>
          && 0 <= f.up[k] < j && f.up[k] < NODES
          && f.weight[k] > 0 && f.weight[f.up[k]] > 0
          && ((f.flag[k] == 0 && k == f.kids[f.up[k]].0) || (f.flag[k] == 1 && k == f.kids[f.up[k]].1)))
  }

  /** Internal node `n`, if in use, was made of its recorded pair and weighs as much as both. */
  ghost predicate HasKids(f: Forest, n: nat)
    requires Sized(f) && n < NODES
  {
    SYMBOLS <= n && f.weight[n] > 0 ==>
      var (a, b) := f.kids[n];
      && a < n && b < n && a != b && f.weight[a] > 0 && f.weight[b] > 0
      && f.up[a] == n && f.up[b] == n && f.flag[a] == 0 && f.flag[b] == 1
      && f.weight[n] == f.weight[a] + f.weight[b]
  }

  /** No live node is lighter than a node already merged away. */
  ghost predicate NotLighter(f: Forest, n: nat, c: nat)
    requires Sized(f) && n < NODES && c < NODES
  {
    f.freq[n] > 0 && f.up[c] != -1 ==> f.weight[c] <= f.weight[n]
  }

  /** `a` weighs at least as much as its child `p` and its grandchild `c` together. */
  ghost predicate Outweighs(f: Forest, c: nat, p: nat, a: nat)
    requires Sized(f) && c < NODES && p < NODES && a < NODES
  {
    f.up[c] == p && f.up[p] == a ==> f.weight[a] >= f.weight[p] + f.weight[c]
  }

  ghost predicate Ok(f: Forest, j: nat) {
    && Sized(f) && Climbs(f.up) && SYMBOLS <= j <= NODES && Sum(f.freq) < SENTINEL
    && (forall k :: 0 <= k < NODES ==> LinkOk(f, j, k))
    && (forall n :: 0 <= n < NODES ==> HasKids(f, n))
    && (forall n, c :: 0 <= n < NODES && 0 <= c < NODES ==> NotLighter(f, n, c))
    && (forall c, p, a :: 0 <= c < NODES && 0 <= p < NODES && 0 <= a < NODES ==> Outweighs(f, c, p, a))
  }

  lemma OkBelow(f: Forest, j: nat)
    requires Ok(f, j)
    ensures Below(f.freq, SENTINEL)
  {
    SumBounds(f.freq);
  }

  /** Live weight is conserved by a merge. */
  lemma MergeConserves(f: Forest, j: nat, x: nat, y: nat)
    requires Sized(f) && j < NODES && f.freq[j] == 0 && TwoSmallest(f.freq, j, x, y)
    ensures Sum(Merge(f, j, x, y).freq) == Sum(f.freq)
  {
    var w := f.freq[x] + f.freq[y];
    SumUpdate(f.freq, j, w);
    SumUpdate(f.freq[j := w], x, 0);
    SumUpdate(f.freq[j := w][x := 0], y, 0);
  }

  /** `g` is `f` after merging the live nodes `x` and `y` into the new node `j`, place by place. */
  ghost predicate Merged(f: Forest, j: nat, x: nat, y: nat, g: Forest)
    requires Sized(f) && j < NODES && x < j && y < j
  {
    && Sized(g) && x != y
    && f.freq[x] > 0 && f.freq[y] > 0
    && (forall k :: 0 <= k < NODES ==>
          g.freq[k] == if k == x || k == y then 0 else if k == j then f.freq[x] + f.freq[y] else f.freq[k])
    && (forall k :: 0 <= k < NODES ==> g.up[k] == if k == x || k == y then j else f.up[k])
    && (forall k :: 0 <= k < NODES ==> g.flag[k] == if k == x then 0 else if k == y then 1 else f.flag[k])
    && (forall k :: 0 <= k < NODES ==> g.weight[k] == if k == j then f.freq[x] + f.freq[y] else f.weight[k])
    && (forall k :: 0 <= k < NODES ==> g.kids[k] == if k == j then (x, y) else f.kids[k])
  }

  lemma MergeIsMerged(f: Forest, j: nat, x: nat, y: nat)
    requires Sized(f) && j < NODES && TwoSmallest(f.freq, j, x, y)
    ensures Merged(f, j, x, y, Merge(f, j, x, y))
  {
  }

  lemma MergedBasics(f: Forest, j: nat, x: nat, y: nat, g: Forest)
    requires Ok(f, j) && j < NODES && x < j && y < j && Merged(f, j, x, y, g)
    ensures f.up[x] == -1 && f.up[y] == -1 && f.weight[j] == 0 && f.up[j] == -1 && f.freq[j] == 0
    ensures f.weight[x] == f.freq[x] && f.weight[y] == f.freq[y]
    ensures Climbs(g.up)
    ensures var next := j + 1; forall k :: 0 <= k < NODES ==> LinkOk(g, next, k)
    ensures forall n :: 0 <= n < NODES ==> HasKids(g, n)
  {
    assert LinkOk(f, j, x) && LinkOk(f, j, y) && LinkOk(f, j, j);
    var next := j + 1;
    forall k | 0 <= k < NODES ensures LinkOk(g, next, k) {
      assert LinkOk(f, j, k);
    }
    forall n | 0 <= n < NODES ensures HasKids(g, n) {
      assert HasKids(f, n) && LinkOk(f, j, n);
    }
  }

  lemma MergedOrder(f: Forest, j: nat, x: nat, y: nat, g: Forest)
    requires Ok(f, j) && j < NODES && TwoSmallest(f.freq, j, x, y) && Merged(f, j, x, y, g)
    ensures forall n, c :: 0 <= n < NODES && 0 <= c < NODES ==> NotLighter(g, n, c)
  {
    MergedBasics(f, j, x, y, g);
    forall n, c | 0 <= n < NODES && 0 <= c < NODES ensures NotLighter(g, n, c) {
      assert NotLighter(f, n, c) && NotLighter(f, x, c) && LinkOk(f, j, n);
    }
  }

  lemma MergedGrand(f: Forest, j: nat, x: nat, y: nat, g: Forest)
    requires Ok(f, j) && j < NODES && x < j && y < j && Merged(f, j, x, y, g)
    ensures forall c, p, a :: 0 <= c < NODES && 0 <= p < NODES && 0 <= a < NODES ==> Outweighs(g, c, p, a)
  {
    MergedBasics(f, j, x, y, g);
    forall c, p, a | 0 <= c < NODES && 0 <= p < NODES && 0 <= a < NODES ensures Outweighs(g, c, p, a) {
      assert Outweighs(f, c, p, a) && NotLighter(f, x, c) && NotLighter(f, y, c);
      assert LinkOk(f, j, c) && LinkOk(f, j, p);
    }
  }

  /** Every merge of the two lightest live nodes keeps the invariant. */
  lemma MergeKeepsOk(f: Forest, j: nat, x: nat, y: nat)
    requires Ok(f, j) && j < NODES && TwoSmallest(f.freq, j, x, y)
    ensures Ok(Merge(f, j, x, y), j + 1)
    ensures Merged(f, j, x, y, Merge(f, j, x, y))
    ensures f.up[x] == -1 && f.up[y] == -1 && f.weight[j] == 0 && f.up[j] == -1 && f.freq[j] == 0
  {
    var g := Merge(f, j, x, y);
    MergeIsMerged(f, j, x, y);
    MergedBasics(f, j, x, y, g);
    MergedOrder(f, j, x, y, g);
    MergedGrand(f, j, x, y, g);
    MergeConserves(f, j, x, y);
  }

  /** One unfolding of `Build` together with everything the proofs need about the chosen pair. */
  lemma BuildStep(f: Forest, j: nat) returns (more: bool, x: nat, y: nat, g: Forest)
    requires Ok(f, j)
    ensures Sized(f) && SYMBOLS <= j <= NODES
    ensures more <==> j < NODES && !AtMostOneLive(f.freq, j)
    ensures j < NODES ==> (more <==> ScanTo(f.freq, j).min1 != SENTINEL)
    ensures x < NODES && y < NODES && (more ==> ScanTo(f.freq, j) == Scan(f.freq[x], f.freq[y], x, y))
    ensures !more ==> Build(f, j) == f
    ensures more ==> TwoSmallest(f.freq, j, x, y) && g == Merge(f, j, x, y) && Ok(g, j + 1)
    ensures more ==> Build(f, j) == Build(g, j + 1) && Sum(g.freq) == Sum(f.freq)
    ensures more ==> Merged(f, j, x, y, g) && Live(g.freq) == Live(f.freq) - 1
    ensures more ==> f.up[x] == -1 && f.up[y] == -1 && f.freq[j] == 0 && f.weight[j] == 0 && f.up[j] == -1
    ensures more ==> FirstTwo(f.freq, j, x, y)
  {
    more, x, y, g := false, 0, 0, f;
    if j < NODES {
      OkBelow(f, j);
      ScanSelects(f.freq, j);
      var sc := ScanTo(f.freq, j);
      if sc.min1 != SENTINEL {
        more, x, y := true, sc.s0, sc.s1;
        ScanTakesFirst(f.freq, j);
        g := Merge(f, j, x, y);
        MergeKeepsOk(f, j, x, y);
        MergeConserves(f, j, x, y);
        MergeCountsDown(f, j, x, y);
      }
    }
  }

  /** `g` extends `f`: same links, weights and pairs wherever `f` has them. */
  ghost predicate Extends(f: Forest, j: nat, g: Forest)
    requires Sized(f)
  {
    && Sized(g)
    && (forall k :: 0 <= k < NODES && f.up[k] != -1 ==> g.up[k] == f.up[k] && g.flag[k] == f.flag[k])
    && (forall k :: 0 <= k < NODES && (k < j || f.weight[k] > 0) ==> g.weight[k] == f.weight[k])
  }

  /** The finished forest satisfies the invariant, keeps the live weight, and never rewrites an old link. */
  lemma {:induction false} BuildKeeps(f: Forest, j: nat)
    requires Ok(f, j)
    ensures Ok(Build(f, j), NODES)
    ensures Sum(Build(f, j).freq) == Sum(f.freq)
    ensures Extends(f, j, Build(f, j))
    decreases NODES - j
  {
    var more, x, y, g := BuildStep(f, j);
    if more {
      BuildKeeps(g, j + 1);
      ExtendsFurther(f, j, x, y, g, Build(g, j + 1));
    } else {
      forall k | 0 <= k < NODES ensures LinkOk(f, NODES, k) {
        assert LinkOk(f, j, k);
      }
    }
  }

  lemma ExtendsFurther(f: Forest, j: nat, x: nat, y: nat, g: Forest, h: Forest)
    requires Sized(f) && j < NODES && x < j && y < j && Merged(f, j, x, y, g) && Extends(g, j + 1, h)
    requires f.up[x] == -1 && f.up[y] == -1 && f.weight[j] == 0
    ensures Extends(f, j, h)
  {
  }

  // ---- how many trees are left -------------------------------------------------------------------

  function Ones(freq: seq<nat>): seq<int> {
    seq(|freq|, k requires 0 <= k < |freq| => if freq[k] > 0 then 1 else 0)
  }

  /** The number of live nodes. */
  function Live(freq: seq<nat>): int {
    Sum(Ones(freq))
  }

  lemma LiveAtMostOne(freq: seq<nat>, j: nat)
    requires j <= |freq| && forall k :: j <= k < |freq| ==> freq[k] == 0
    ensures AtMostOneLive(freq, j) <==> Live(freq) <= 1
    ensures Live(freq) >= 0
  {
    var ones := Ones(freq);
    SumBounds(ones);
    if AtMostOneLive(freq, j) {
      if a :| 0 <= a < j && freq[a] > 0 {
        SumSingle(ones, a);
      } else {
        SumZeros(ones);
      }
    } else {
      var a, b :| 0 <= a < j && 0 <= b < j && freq[a] > 0 && freq[b] > 0 && a != b;
      SumUpdate(ones, a, 0);
      SumBounds(ones[a := 0]);
      assert ones[a := 0][b] == 1;
    }
  }

  lemma MergeCountsDown(f: Forest, j: nat, x: nat, y: nat)
    requires Sized(f) && j < NODES && f.freq[j] == 0 && TwoSmallest(f.freq, j, x, y)
    ensures Live(Merge(f, j, x, y).freq) == Live(f.freq) - 1
  {
    var ones := Ones(f.freq);
    SumUpdate(ones, j, 1);
    SumUpdate(ones[j := 1], x, 0);
    SumUpdate(ones[j := 1][x := 0], y, 0);
    assert Ones(Merge(f, j, x, y).freq) == ones[j := 1][x := 0][y := 0];
  }

  lemma NoneBeyond(f: Forest, j: nat)
    requires Ok(f, j)
    ensures forall k :: j <= k < NODES ==> f.freq[k] == 0
  {
    forall k | j <= k < NODES ensures f.freq[k] == 0 {
      assert LinkOk(f, j, k);
    }
  }

  /** The loop ends with one tree, unless it runs out of internal nodes first. */
  lemma {:induction false} TreesLeft(f: Forest, j: nat)
    requires Ok(f, j) && Live(f.freq) >= 1
    ensures Live(Build(f, j).freq) == if Live(f.freq) <= NODES - j + 1 then 1 else Live(f.freq) - (NODES - j)
    decreases NODES - j
  {
    var more, x, y, g := BuildStep(f, j);
    NoneBeyond(f, j);
    LiveAtMostOne(f.freq, j);
    if more {
      TreesLeft(g, j + 1);
    }
  }

  // ---- equal weights ----------------------------------------------------------------------------------------------

  /** The kids of an internal node are in order: the first has flag 0. */
  ghost predicate KidsInOrder(f: Forest, p: nat)
    requires Sized(f) && p < NODES
  {
    SYMBOLS <= p && f.weight[p] > 0 && f.kids[p].0 < NODES && f.kids[p].1 < NODES ==>
      Sooner(f.weight, f.kids[p].0, f.kids[p].1)
  }

  /** A node merged into `p` came before every node `n` that was there then and was left. */
  ghost predicate MergedFirst(f: Forest, c: nat, p: nat, n: nat)
    requires Sized(f) && c < NODES && n < NODES
  {
    f.up[c] == p && n < p && f.weight[n] > 0 && (f.up[n] == -1 || f.up[n] > p) ==> Sooner(f.weight, c, n)
  }

  ghost predicate InOrder(f: Forest) {
    && Sized(f) && (forall p: nat :: p < NODES ==> KidsInOrder(f, p))
    && forall c: nat, p: nat, n: nat :: c < NODES && p < NODES && n < NODES ==> MergedFirst(f, c, p, n)
  }

  lemma MergeInOrder(f: Forest, j: nat, x: nat, y: nat, g: Forest)
    requires Ok(f, j) && InOrder(f) && j < NODES && x < j && y < j && Merged(f, j, x, y, g) && FirstTwo(f.freq, j, x, y)
    ensures InOrder(g)
  {
    MergedBasics(f, j, x, y, g);
    forall p: nat | p < NODES ensures KidsInOrder(g, p) {
      assert KidsInOrder(f, p) && LinkOk(f, j, p) && HasKids(f, p);
    }
    forall c: nat, p: nat, n: nat | c < NODES && p < NODES && n < NODES ensures MergedFirst(g, c, p, n) {
      assert MergedFirst(f, c, p, n) && LinkOk(f, j, c) && LinkOk(f, j, n);
      if p == j && (c == x || c == y) && n < j && n != x && n != y && f.freq[n] > 0 {
        assert Sooner(f.freq, y, n);
      }
    }
  }

  /** The finished forest: every merge took the first two by weight and index, the first of them with flag 0. */
  lemma {:induction false} BuildInOrder(f: Forest, j: nat)
    requires Ok(f, j) && InOrder(f)
    ensures InOrder(Build(f, j))
    decreases NODES - j
  {
    hide Ok, InOrder, Merged, FirstTwo, Build;
    var more, x, y, g := BuildStep(f, j);
    if more {
      ChosenBelow(f, j, x, y);
      MergeInOrder(f, j, x, y, g);
      BuildInOrder(g, j + 1);
    }
  }

  lemma ChosenBelow(f: Forest, j: nat, x: nat, y: nat)
    requires Sized(f) && j <= NODES && TwoSmallest(f.freq, j, x, y)
    ensures x < j && y < j
  {
  }
}
