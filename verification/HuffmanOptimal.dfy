/**
 * The merge loop of libavcodec/4xm.c builds an optimal prefix code: Kraft's sum, the cost of the merges, and the
 * lower bound no prefix code can beat.
 */
module HuffmanOptimal {
  import opened Basics
  import opened SeqSums
  import opened HuffmanTree
  import opened HuffmanCodes

  /** The share of the code space a live item of length `len` takes, in units of 2^-m. */
  function Share(weight: nat, len: nat, m: nat): nat {
    if weight == 0 || len > m then 0 else Pow2(m - len)
  }

  function Shares(w: seq<nat>, l: seq<nat>, m: nat): seq<int>
    requires |w| == |l|
  {
    seq(|w|, k requires 0 <= k < |w| => Share(w[k], l[k], m))
  }

  function Kraft(w: seq<nat>, l: seq<nat>, m: nat): int
    requires |w| == |l|
  {
    Sum(Shares(w, l, m))
  }

  function Products(w: seq<nat>, l: seq<nat>): seq<int>
    requires |w| == |l|
  {
    seq(|w|, k requires 0 <= k < |w| => w[k] * l[k])
  }

  /** Total weighted length: the size of the coded data. */
  function Cost(w: seq<nat>, l: seq<nat>): int
    requires |w| == |l|
  {
    Sum(Products(w, l))
  }

  ghost predicate Fits(w: seq<nat>, l: seq<nat>, m: nat) {
    |w| == |l| && forall k :: 0 <= k < |w| && w[k] > 0 ==> l[k] <= m
  }

  lemma KraftAt(w: seq<nat>, l: seq<nat>, m: nat, i: nat, v: nat, n: nat)
    requires |w| == |l| && i < |w|
    ensures Kraft(w[i := v], l[i := n], m) == Kraft(w, l, m) - Share(w[i], l[i], m) + Share(v, n, m)
  {
    SumUpdate(Shares(w, l, m), i, Share(v, n, m));
    assert Shares(w[i := v], l[i := n], m) == Shares(w, l, m)[i := Share(v, n, m)];
  }

  lemma CostAt(w: seq<nat>, l: seq<nat>, i: nat, v: nat, n: nat)
    requires |w| == |l| && i < |w|
    ensures Cost(w[i := v], l[i := n]) == Cost(w, l) - w[i] * l[i] + v * n
  {
    SumUpdate(Products(w, l), i, v * n);
    assert Products(w[i := v], l[i := n]) == Products(w, l)[i := v * n];
  }

  lemma JoinKraft(w: seq<nat>, l: seq<nat>, m: nat, x: nat, y: nat, j: nat, n: nat)
    requires |w| == |l| && x < |w| && y < |w| && j < |w| && x != y && x != j && y != j
    requires w[x] > 0 && w[y] > 0 && w[j] == 0 && l[x] == n + 1 && l[y] == n + 1 && n + 1 <= m
    ensures Kraft(w[j := w[x] + w[y]][x := 0][y := 0], l[j := n], m) == Kraft(w, l, m)
  {
    var v := w[x] + w[y];
    var w1, l1 := w[j := v], l[j := n];
    KraftAt(w, l, m, j, v, n);
    KraftAt(w1, l1, m, x, 0, n + 1);
    KraftAt(w1[x := 0], l1, m, y, 0, n + 1);
    assert l1[x := n + 1] == l1 && l1[y := n + 1] == l1;
    assert Pow2(m - n) == 2 * Pow2(m - (n + 1));
  }

  lemma JoinCost(w: seq<nat>, l: seq<nat>, x: nat, y: nat, j: nat, n: nat)
    requires |w| == |l| && x < |w| && y < |w| && j < |w| && x != y && x != j && y != j
    requires w[j] == 0 && l[x] == n + 1 && l[y] == n + 1
    ensures Cost(w[j := w[x] + w[y]][x := 0][y := 0], l[j := n]) == Cost(w, l) - (w[x] + w[y])
  {
    var a, b := w[x], w[y];
    var w1, l1 := w[j := a + b], l[j := n];
    CostAt(w, l, j, a + b, n);
    CostAt(w1, l1, x, 0, n + 1);
    CostAt(w1[x := 0], l1, y, 0, n + 1);
    assert l1[x := n + 1] == l1 && l1[y := n + 1] == l1;
    JoinGain(a, b, n);
  }

  lemma JoinGain(a: nat, b: nat, n: nat)
    ensures (a + b) * n == a * (n + 1) + b * (n + 1) - (a + b)
  {
  }

  /**
   * Two places `x`, `y` of length `n + 1` are joined into the free place `j` with length `n`: the code space stays
   * the same and the cost drops by the joined weight.
   */
  lemma Join(f: Forest, l: seq<nat>, m: nat, x: nat, y: nat, j: nat, n: nat)
    requires Sized(f) && |l| == NODES && x < j && y < j && j < NODES && x != y
    requires f.freq[x] > 0 && f.freq[y] > 0 && f.freq[j] == 0 && l[x] == n + 1 && l[y] == n + 1 && n + 1 <= m
    ensures Kraft(Merge(f, j, x, y).freq, l[j := n], m) == Kraft(f.freq, l, m)
    ensures Cost(Merge(f, j, x, y).freq, l[j := n]) == Cost(f.freq, l) - (f.freq[x] + f.freq[y])
  {
    JoinKraft(f.freq, l, m, x, y, j, n);
    JoinCost(f.freq, l, x, y, j, n);
  }

  // ---- what the merges cost -----------------------------------------------------------------------

  /** The sum of the weights of all nodes the remaining merges create. */
  function MergeCost(f: Forest, j: nat): nat
    requires Sized(f) && 0 < j
    decreases |f.freq| - j
  {
    if j >= NODES then 0
    else
      var sc := ScanTo(f.freq, j);
      if sc.min1 == SENTINEL then 0
      else f.freq[sc.s0] + f.freq[sc.s1] + MergeCost(Merge(f, j, sc.s0, sc.s1), j + 1)
  }

  function Depths(up: seq<int>): (d: seq<nat>)
    requires Climbs(up)
    ensures |d| == NODES
  {
    seq(NODES, k requires 0 <= k < NODES => Depth(up, k))
  }

  /** One unfolding of `MergeCost`, in step with `BuildStep`. */
  lemma CostStep(f: Forest, j: nat) returns (more: bool, x: nat, y: nat, g: Forest)
    requires Ok(f, j)
    ensures more <==> j < NODES && !AtMostOneLive(f.freq, j)
    ensures !more ==> Build(f, j) == f && MergeCost(f, j) == 0
    ensures more ==> TwoSmallest(f.freq, j, x, y) && g == Merge(f, j, x, y) && Ok(g, j + 1)
    ensures more ==> Build(f, j) == Build(g, j + 1) && Merged(f, j, x, y, g) && Live(g.freq) == Live(f.freq) - 1
    ensures more ==> f.freq[j] == 0 && MergeCost(f, j) == f.freq[x] + f.freq[y] + MergeCost(g, j + 1)
  {
    more, x, y, g := BuildStep(f, j);
  }

  /** No merge left: the live nodes are roots, which have depth 0 and fill one code space each. */
  lemma RootsCost(f: Forest, m: nat)
    requires Ok(f, NODES)
    ensures Cost(f.freq, Depths(f.up)) == 0
    ensures Kraft(f.freq, Depths(f.up), m) == Live(f.freq) * Pow2(m)
  {
    var d := Depths(f.up);
    forall k | 0 <= k < NODES && f.freq[k] > 0 ensures d[k] == 0 {
      assert LinkOk(f, NODES, k);
    }
    SumZeros(Products(f.freq, d));
    SumScale(Shares(f.freq, d, m), Ones(f.freq), Pow2(m));
  }

  /**
   * Read backwards over the run: with the depths of the finished forest, the live nodes of any stage cost exactly the
   * merges still to come, and they fill one whole code space per tree left at the end.
   */
  lemma {:induction false} BuildCosts(f: Forest, j: nat, m: nat)
    requires Ok(f, j) && Ok(Build(f, j), NODES)
    requires forall k :: 0 <= k < NODES && Build(f, j).weight[k] > 0 ==> Depth(Build(f, j).up, k) <= m
    ensures Cost(f.freq, Depths(Build(f, j).up)) == MergeCost(f, j)
    ensures Kraft(f.freq, Depths(Build(f, j).up), m) == Live(Build(f, j).freq) * Pow2(m)
    decreases NODES - j
  {
    var more, x, y, g := CostStep(f, j);
    var h := Build(f, j);
    if more {
      BuildKeeps(g, j + 1);
      BuildCosts(g, j + 1, m);
      JoinDepths(f, j, x, y, g, h, m);
    } else {
      RootsCost(f, m);
    }
  }

  lemma JoinDepths(f: Forest, j: nat, x: nat, y: nat, g: Forest, h: Forest, m: nat)
    requires Ok(f, j) && j < NODES && TwoSmallest(f.freq, j, x, y) && g == Merge(f, j, x, y) && f.freq[j] == 0
    requires Ok(h, NODES) && Extends(g, j + 1, h)
    requires forall k :: 0 <= k < NODES && h.weight[k] > 0 ==> Depth(h.up, k) <= m
    ensures Cost(f.freq, Depths(h.up)) == Cost(g.freq, Depths(h.up)) + f.freq[x] + f.freq[y]
    ensures Kraft(f.freq, Depths(h.up), m) == Kraft(g.freq, Depths(h.up), m)
  {
    var d := Depths(h.up);
    MergeIsMerged(f, j, x, y);
    assert g.up[x] == j && g.up[y] == j;
    assert h.up[x] == j && h.up[y] == j;
    assert d[x] == d[j] + 1 && d[y] == d[j] + 1;
    assert LinkOk(h, NODES, x);
    Join(f, d, m, x, y, j, d[j]);
    assert d[j := d[j]] == d;
  }

  // ---- no length assignment within Kraft's bound is cheaper ------------------------------------------

  lemma {:induction false} KraftHalves(w: seq<nat>, l: seq<nat>, m: nat)
    requires m > 0 && Fits(w, l, m - 1)
    ensures Kraft(w, l, m) == 2 * Kraft(w, l, m - 1)
  {
    SumScale(Shares(w, l, m), Shares(w, l, m - 1), 2);
  }

  /** Swapping two lengths so that the lighter item gets the longer one costs nothing extra. */
  lemma Swap(w: seq<nat>, l: seq<nat>, m: nat, a: nat, x: nat)
    requires Fits(w, l, m) && a < |w| && x < |w| && 0 < w[a] <= w[x] && l[a] <= l[x]
    ensures Fits(w, l[a := l[x]][x := l[a]], m)
    ensures Kraft(w, l[a := l[x]][x := l[a]], m) == Kraft(w, l, m)
    ensures Cost(w, l[a := l[x]][x := l[a]]) <= Cost(w, l)
  {
    if a != x {
      var l1 := l[a := l[x]];
      KraftAt(w, l, m, a, w[a], l[x]);
      KraftAt(w, l1, m, x, w[x], l[a]);
      CostAt(w, l, a, w[a], l[x]);
      CostAt(w, l1, x, w[x], l[a]);
      assert w[a := w[a]] == w && w[x := w[x]] == w;
      SwapGain(w[a], w[x], l[a], l[x]);
    } else {
      assert l[a := l[x]][x := l[a]] == l;
    }
  }

  lemma SwapGain(wa: nat, wx: nat, la: nat, lx: nat)
    requires wa <= wx && la <= lx
    ensures wa * lx + wx * la <= wa * la + wx * lx
  {
    assert (wx - wa) * (lx - la) >= 0;
    assert (wx - wa) * (lx - la) == wx * lx - wx * la - wa * lx + wa * la;
  }

  ghost predicate Deepest(w: seq<nat>, l: seq<nat>, m: nat, k: nat)
    requires |w| == |l|
  {
    k < |w| && w[k] > 0 && l[k] == m
  }

  /** When a single item has the greatest length, it can be shortened within Kraft's bound. */
  lemma Shorten(w: seq<nat>, l: seq<nat>, m: nat, i: nat)
    requires m > 0 && Fits(w, l, m) && Deepest(w, l, m, i)
    requires forall k :: 0 <= k < |w| && k != i ==> !Deepest(w, l, m, k)
    requires Kraft(w, l, m) <= Pow2(m)
    ensures Fits(w, l[i := m - 1], m - 1)
    ensures Kraft(w, l[i := m - 1], m - 1) <= Pow2(m - 1)
    ensures Cost(w, l[i := m - 1]) <= Cost(w, l)
  {
    var s := l[i := m - 1];
    forall k | 0 <= k < |w| && w[k] > 0 ensures s[k] <= m - 1 {
      assert k != i ==> !Deepest(w, l, m, k);
    }
    KraftAt(w, l, m, i, w[i], m - 1);
    CostAt(w, l, i, w[i], m - 1);
    assert w[i := w[i]] == w;
    assert Pow2(m - (m - 1)) == 2;
    KraftHalves(w, s, m);
    assert w[i] * (m - 1) <= w[i] * m;
  }

  /** Two places of the greatest length: the two lightest items can be moved there. */
  lemma MoveDown(w: seq<nat>, l: seq<nat>, m: nat, j: nat, a: nat, b: nat, p: nat, q: nat) returns (s: seq<nat>)
    requires j <= |w| && TwoSmallest(w, j, a, b) && Fits(w, l, m)
    requires forall k :: j <= k < |w| ==> w[k] == 0
    requires p != q && Deepest(w, l, m, p) && Deepest(w, l, m, q)
    ensures Fits(w, s, m) && s[a] == m && s[b] == m
    ensures Kraft(w, s, m) == Kraft(w, l, m) && Cost(w, s) <= Cost(w, l)
  {
    assert w[a] <= w[p] && w[a] <= w[q];
    Swap(w, l, m, a, p);
    s := l[a := l[p]][p := l[a]];
    if s[b] != m {
      var r := if q == a then p else q;
      assert r != a && Deepest(w, s, m, r);
      var t := s;
      Swap(w, t, m, b, r);
      s := t[b := t[r]][r := t[b]];
    }
  }

  ghost predicate TwoDeepest(w: seq<nat>, l: seq<nat>, m: nat)
    requires |w| == |l|
  {
    exists p, q :: p != q && Deepest(w, l, m, p) && Deepest(w, l, m, q)
  }

  /** With at most one item of the greatest length, the lengths can be refitted into half the space at no cost. */
  lemma Refit(w: seq<nat>, l: seq<nat>, m: nat) returns (s: seq<nat>)
    requires m > 0 && Fits(w, l, m) && Kraft(w, l, m) <= Pow2(m) && !TwoDeepest(w, l, m)
    ensures Fits(w, s, m - 1) && Kraft(w, s, m - 1) <= Pow2(m - 1) && Cost(w, s) <= Cost(w, l)
  {
    if p: nat :| Deepest(w, l, m, p) {
      Shorten(w, l, m, p);
      s := l[p := m - 1];
    } else {
      s := l;
      forall k | 0 <= k < |w| && w[k] > 0 ensures l[k] <= m - 1 {
        assert !Deepest(w, l, m, k);
      }
      KraftHalves(w, l, m);
    }
  }

  /** With two items of the greatest length, the lightest pair can be moved there and joined. */
  lemma JoinDeepest(f: Forest, j: nat, a: nat, b: nat, g: Forest, l: seq<nat>, m: nat) returns (s: seq<nat>)
    requires Sized(f) && j < NODES && TwoSmallest(f.freq, j, a, b) && g == Merge(f, j, a, b) && Fits(f.freq, l, m)
    requires forall k :: j <= k < NODES ==> f.freq[k] == 0
    requires m > 0 && TwoDeepest(f.freq, l, m)
    ensures Fits(g.freq, s, m) && Kraft(g.freq, s, m) == Kraft(f.freq, l, m)
    ensures Cost(f.freq, l) >= Cost(g.freq, s) + f.freq[a] + f.freq[b]
  {
    var p, q :| p != q && Deepest(f.freq, l, m, p) && Deepest(f.freq, l, m, q);
    var t := MoveDown(f.freq, l, m, j, a, b, p, q);
    Join(f, t, m, a, b, j, m - 1);
    s := t[j := m - 1];
    MergeIsMerged(f, j, a, b);
  }

  /** Any lengths within Kraft's bound cost at least as much as the merges. */
  lemma {:induction false} KraftLowerBound(f: Forest, j: nat, l: seq<nat>, m: nat)
    requires Ok(f, j) && Fits(f.freq, l, m) && Kraft(f.freq, l, m) <= Pow2(m)
    ensures Cost(f.freq, l) >= MergeCost(f, j)
    decreases NODES - j, m
  {
    assert Sized(f);
    hide Kraft, Cost, Ok, Build, MergeCost, TwoDeepest, Merged, Live, AtMostOneLive;
    var more, a, b, g := CostStep(f, j);
    if more {
      RoomForTwo(f.freq, l, m, a, b);
      if TwoDeepest(f.freq, l, m) {
        NoneBeyond(f, j);
        var s := JoinDeepest(f, j, a, b, g, l, m);
        KraftLowerBound(g, j + 1, s, m);
      } else {
        var s := Refit(f.freq, l, m);
        KraftLowerBound(f, j, s, m - 1);
      }
    } else {
      CostNotNegative(f.freq, l);
    }
  }

  lemma CostNotNegative(w: seq<nat>, l: seq<nat>)
    requires |w| == |l|
    ensures Cost(w, l) >= 0
  {
    SumBounds(Products(w, l));
  }

  /** Two live items do not fit into a code space of one word. */
  lemma RoomForTwo(w: seq<nat>, l: seq<nat>, m: nat, p: nat, q: nat)
    requires Fits(w, l, m) && p < |w| && q < |w| && p != q && w[p] > 0 && w[q] > 0 && Kraft(w, l, m) <= Pow2(m)
    ensures m > 0
  {
    var s := Shares(w, l, m);
    SumUpdate(s, p, 0);
    SumBounds(s[p := 0]);
    assert s[p := 0][q] >= 1;
  }

  // ---- every prefix code is within Kraft's bound -----------------------------------------------------

  /** A code table: a code word for each place of `w` that has weight. */
  ghost predicate IsPrefixCode(w: seq<nat>, code: seq<seq<int>>) {
    && |w| == |code|
    && (forall k :: 0 <= k < |w| && w[k] > 0 ==> Bits(code[k]))
    && (forall a, b :: 0 <= a < |w| && 0 <= b < |w| && w[a] > 0 && w[b] > 0 && a != b ==> !(code[a] <= code[b]))
  }

  function Lengths(code: seq<seq<int>>): (l: seq<nat>)
    ensures |l| == |code|
  {
    seq(|code|, k requires 0 <= k < |code| => |code[k]|)
  }

  /** The weights of the items whose code word starts with `bit`. */
  function Starting(w: seq<nat>, code: seq<seq<int>>, bit: int): (v: seq<nat>)
    requires |w| == |code|
    ensures |v| == |w|
  {
    seq(|w|, k requires 0 <= k < |w| => if code[k] != [] && code[k][0] == bit then w[k] else 0)
  }

  function Tails(code: seq<seq<int>>): (t: seq<seq<int>>)
    ensures |t| == |code|
  {
    seq(|code|, k requires 0 <= k < |code| => if code[k] == [] then [] else code[k][1..])
  }

  lemma TailPrefix(c: seq<int>, e: seq<int>, bit: int)
    requires c != [] && e != [] && c[0] == bit && e[0] == bit
    ensures c[1..] <= e[1..] <==> c <= e
  {
    assert c == [bit] + c[1..] && e == [bit] + e[1..];
  }

  lemma StartingIsPrefixCode(w: seq<nat>, code: seq<seq<int>>, bit: int)
    requires IsPrefixCode(w, code)
    ensures IsPrefixCode(Starting(w, code, bit), Tails(code))
  {
    var v, t := Starting(w, code, bit), Tails(code);
    forall a, b | 0 <= a < |v| && 0 <= b < |v| && v[a] > 0 && v[b] > 0 && a != b ensures !(t[a] <= t[b]) {
      TailPrefix(code[a], code[b], bit);
    }
  }

  /** The empty code word leaves no room for any other. */
  lemma EmptyWordIsAlone(w: seq<nat>, code: seq<seq<int>>, i: nat, m: nat)
    requires IsPrefixCode(w, code) && i < |w| && w[i] > 0 && code[i] == []
    ensures Kraft(w, Lengths(code), m) <= Pow2(m)
  {
    forall k | 0 <= k < |w| && k != i ensures w[k] == 0 {
      assert [] <= code[k];
    }
    SumSingle(Shares(w, Lengths(code), m), i);
  }

  /** Without an empty code word, the code splits by first bit into two codes of half the space each. */
  lemma KraftSplits(w: seq<nat>, code: seq<seq<int>>, m: nat)
    requires |w| == |code| && m > 0 && Fits(w, Lengths(code), m)
    requires forall k :: 0 <= k < |w| && w[k] > 0 ==> code[k] != [] && (code[k][0] == 0 || code[k][0] == 1)
    ensures Kraft(w, Lengths(code), m) == Kraft(Starting(w, code, 0), Lengths(Tails(code)), m - 1)
                                        + Kraft(Starting(w, code, 1), Lengths(Tails(code)), m - 1)
  {
    var t := Lengths(Tails(code));
    SumAdd(Shares(Starting(w, code, 0), t, m - 1), Shares(Starting(w, code, 1), t, m - 1), Shares(w, Lengths(code), m));
  }

  /** Kraft's inequality. */
  lemma {:induction false} KraftInequality(w: seq<nat>, code: seq<seq<int>>, m: nat)
    requires IsPrefixCode(w, code) && Fits(w, Lengths(code), m)
    ensures Kraft(w, Lengths(code), m) <= Pow2(m)
    decreases m, 1
  {
    if i :| 0 <= i < |w| && w[i] > 0 && code[i] == [] {
      EmptyWordIsAlone(w, code, i, m);
    } else if m == 0 {
      assert forall k :: 0 <= k < |w| && w[k] > 0 ==> |code[k]| == Lengths(code)[k];
      SumZeros(Shares(w, Lengths(code), m));
    } else {
      forall k | 0 <= k < |w| && w[k] > 0 ensures code[k] != [] && (code[k][0] == 0 || code[k][0] == 1) {
        assert Bits(code[k]);
      }
      KraftSplits(w, code, m);
      HalfKraft(w, code, 0, m);
      HalfKraft(w, code, 1, m);
    }
  }

  lemma {:induction false} HalfKraft(w: seq<nat>, code: seq<seq<int>>, bit: int, m: nat)
    requires m > 0 && IsPrefixCode(w, code) && Fits(w, Lengths(code), m)
    ensures Kraft(Starting(w, code, bit), Lengths(Tails(code)), m - 1) <= Pow2(m - 1)
    decreases m, 0
  {
    StartingIsPrefixCode(w, code, bit);
    forall k | 0 <= k < |w| && Starting(w, code, bit)[k] > 0 ensures Lengths(Tails(code))[k] <= m - 1 {
      assert Lengths(code)[k] == |code[k]|;
    }
    KraftInequality(Starting(w, code, bit), Tails(code), m - 1);
  }
}
