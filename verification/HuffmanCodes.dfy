/**
 * The codes read off the finished forest: their length, and what a decoder can do with them.
 */
module HuffmanCodes {
  import opened SeqSums
  import opened HuffmanTree

  function Depth(up: seq<int>, n: nat): nat
    requires Climbs(up) && n < NODES
    decreases NODES - n
  {
    if up[n] == -1 then 0 else 1 + Depth(up, up[n])
  }

  /** The branch flags from the root down to node `n`: the code, most significant bit first. */
  function Code(up: seq<int>, flag: seq<int>, n: nat): (c: seq<int>)
    requires Climbs(up) && |flag| == NODES && n < NODES
    ensures |c| == Depth(up, n)
    decreases NODES - n
  {
    if up[n] == -1 then [] else Code(up, flag, up[n]) + [flag[n]]
  }

  function Root(up: seq<int>, n: nat): (r: nat)
    requires Climbs(up) && n < NODES
    ensures r < NODES && up[r] == -1
    decreases NODES - n
  {
    if up[n] == -1 then n else Root(up, up[n])
  }

  /** The node `d` links above `n`. */
  function Ancestor(up: seq<int>, n: nat, d: nat): (a: nat)
    requires Climbs(up) && n < NODES && d <= Depth(up, n)
    ensures a < NODES
    decreases d
  {
    if d == 0 then n else Ancestor(up, up[n], d - 1)
  }

  lemma {:induction false} AncestorUp(up: seq<int>, n: nat, d: nat)
    requires Climbs(up) && n < NODES && d < Depth(up, n)
    ensures up[Ancestor(up, n, d)] == Ancestor(up, n, d + 1)
    decreases d
  {
    if d > 0 { AncestorUp(up, up[n], d - 1); }
  }

  lemma {:induction false} AncestorFacts(f: Forest, n: nat, d: nat)
    requires Ok(f, NODES) && n < NODES && d <= Depth(f.up, n) && f.weight[n] > 0
    ensures f.weight[Ancestor(f.up, n, d)] > 0
    ensures Root(f.up, Ancestor(f.up, n, d)) == Root(f.up, n)
    ensures Code(f.up, f.flag, Ancestor(f.up, n, d)) == Code(f.up, f.flag, n)[..Depth(f.up, n) - d]
    ensures d == Depth(f.up, n) ==> Ancestor(f.up, n, d) == Root(f.up, n)
    ensures d > 0 ==> Ancestor(f.up, n, d) >= SYMBOLS
    decreases d
  {
    if d > 0 {
      assert LinkOk(f, NODES, n);
      AncestorFacts(f, f.up[n], d - 1);
    }
  }

  // ---- code length -------------------------------------------------------------------------------

  function Fib(n: nat): nat {
    if n < 2 then n else Fib(n - 1) + Fib(n - 2)
  }

  lemma {:induction false} FibGrows(m: nat, n: nat)
    requires m <= n
    ensures Fib(m) <= Fib(n)
    decreases n
  {
    if m < n {
      FibGrows(m, n - 1);
      if n >= 2 { FibGrows(0, n - 2); }
    }
  }

  lemma Fib25()
    ensures Fib(25) == 75025
  {
    assert Fib(9) == 34 && Fib(10) == 55;
    assert Fib(17) == 1597 && Fib(18) == 2584;
  }

  lemma FibExceeds(n: nat)
    requires Fib(n) < 75025
    ensures n < 25
  {
    hide Fib;
    Fib25();
    if n >= 25 { FibGrows(25, n); }
  }

  /** A parent outweighs its child by at least the weight of any grandchild, and of any unit. */
  lemma ParentOutweighs(f: Forest, p: nat)
    requires Ok(f, NODES) && p < NODES && f.up[p] != -1
    ensures f.weight[f.up[p]] >= f.weight[p] + 1
    ensures forall c :: 0 <= c < NODES && f.up[c] == p ==> f.weight[f.up[p]] >= f.weight[p] + f.weight[c]
  {
    var a := f.up[p];
    assert LinkOk(f, NODES, p) && HasKids(f, a);
    forall c | 0 <= c < NODES && f.up[c] == p ensures f.weight[a] >= f.weight[p] + f.weight[c] {
      assert Outweighs(f, c, p, a);
    }
  }

  /** A node `d` levels above another one weighs at least the Fibonacci number of `d + 2`. */
  lemma {:induction false} HighNodesAreHeavy(f: Forest, n: nat, d: nat)
    requires Ok(f, NODES) && n < NODES && f.weight[n] > 0 && d <= Depth(f.up, n)
    ensures f.weight[Ancestor(f.up, n, d)] >= Fib(d + 2)
    decreases d
  {
    if d > 0 {
      HighNodesAreHeavy(f, n, d - 1);
      AncestorUp(f.up, n, d - 1);
      ParentOutweighs(f, Ancestor(f.up, n, d - 1));
      if d > 1 {
        HighNodesAreHeavy(f, n, d - 2);
        AncestorUp(f.up, n, d - 2);
      }
    }
  }

  const MAX_CODE_LENGTH: nat := 22

  /** No node of a finished forest whose total weight is below Fib(25) lies deeper than 22. */
  lemma DepthBound(f: Forest, n: nat)
    requires Ok(f, NODES) && n < NODES && f.weight[n] > 0 && Sum(f.freq) < 75025
    ensures Depth(f.up, n) <= MAX_CODE_LENGTH
  {
    var d := Depth(f.up, n);
    HighNodesAreHeavy(f, n, d);
    AncestorFacts(f, n, d);
    SumBounds(f.freq);
    assert LinkOk(f, NODES, Root(f.up, n));
    FibExceeds(d + 2);
  }

  // ---- codes and nodes ---------------------------------------------------------------------------

  /** Within one tree a code belongs to one node. */
  lemma {:induction false} CodeIdentifies(f: Forest, n: nat, m: nat)
    requires Ok(f, NODES) && n < NODES && m < NODES && f.weight[n] > 0 && f.weight[m] > 0
    requires Root(f.up, n) == Root(f.up, m)
    requires Code(f.up, f.flag, n) == Code(f.up, f.flag, m)
    ensures n == m
    decreases Depth(f.up, n)
  {
    var c, e := Code(f.up, f.flag, n), Code(f.up, f.flag, m);
    if |c| > 0 {
      var p, q := f.up[n], f.up[m];
      assert LinkOk(f, NODES, n) && LinkOk(f, NODES, m);
      assert Code(f.up, f.flag, p) == c[..|c| - 1] == e[..|e| - 1] == Code(f.up, f.flag, q);
      CodeIdentifies(f, p, q);
      assert f.flag[n] == c[|c| - 1] == e[|e| - 1] == f.flag[m];
    }
  }

  /** Inside one tree no symbol's code begins another symbol's code. */
  lemma NoPrefixInTree(f: Forest, a: nat, b: nat)
    requires Ok(f, NODES) && a < SYMBOLS && b < SYMBOLS && f.weight[a] > 0 && f.weight[b] > 0
    requires Root(f.up, a) == Root(f.up, b) && a != b
    ensures !(Code(f.up, f.flag, a) <= Code(f.up, f.flag, b))
  {
    if Code(f.up, f.flag, a) <= Code(f.up, f.flag, b) {
      var d := Depth(f.up, b) - Depth(f.up, a);
      AncestorFacts(f, b, d);
      CodeIdentifies(f, a, Ancestor(f.up, b, d));
      assert false;
    }
  }

  /** The symbol a decoder reaches from node `n` by following `bits`, or the node where the bits run out. */
  function Walk(kids: seq<(nat, nat)>, n: nat, bits: seq<int>): nat
    decreases bits
  {
    if n < SYMBOLS || bits == [] || n >= |kids| then n
    else Walk(kids, if bits[0] == 0 then kids[n].0 else kids[n].1, bits[1..])
  }

  ghost predicate Bits(s: seq<int>) {
    forall i :: 0 <= i < |s| ==> s[i] == 0 || s[i] == 1
  }

  lemma KidFacts(f: Forest, n: nat, bit: int)
    requires Ok(f, NODES) && SYMBOLS <= n < NODES && f.weight[n] > 0 && (bit == 0 || bit == 1)
    ensures var c := if bit == 0 then f.kids[n].0 else f.kids[n].1;
            c < n && f.up[c] == n && f.weight[c] > 0 && Root(f.up, c) == Root(f.up, n)
            && Code(f.up, f.flag, c) == Code(f.up, f.flag, n) + [bit]
  {
    assert HasKids(f, n);
  }

  /** Walking from `n` lands on a node of the same tree whose code is the code of `n` plus the bits used. */
  lemma {:induction false} WalkFacts(f: Forest, n: nat, bits: seq<int>)
    requires Ok(f, NODES) && n < NODES && f.weight[n] > 0 && Bits(bits)
    ensures var k := Walk(f.kids, n, bits);
            k < NODES && f.weight[k] > 0 && Root(f.up, k) == Root(f.up, n)
            && Code(f.up, f.flag, k) <= Code(f.up, f.flag, n) + bits
            && (k >= SYMBOLS ==> Code(f.up, f.flag, k) == Code(f.up, f.flag, n) + bits)
    decreases bits
  {
    if n >= SYMBOLS && bits != [] {
      KidFacts(f, n, bits[0]);
      var c := if bits[0] == 0 then f.kids[n].0 else f.kids[n].1;
      WalkFacts(f, c, bits[1..]);
      assert Code(f.up, f.flag, n) + [bits[0]] + bits[1..] == Code(f.up, f.flag, n) + bits;
    }
  }

  // ---- the code as a whole -----------------------------------------------------------------------

  ghost predicate IsLiveSymbol(f: Forest, k: int)
    requires Sized(f)
  {
    0 <= k < SYMBOLS && f.weight[k] > 0
  }

  ghost predicate PrefixFree(f: Forest)
    requires Ok(f, NODES)
  {
    forall a, b :: IsLiveSymbol(f, a) && IsLiveSymbol(f, b) && a != b
                   ==> !(Code(f.up, f.flag, a) <= Code(f.up, f.flag, b))
  }

  lemma LiveRoots(f: Forest)
    requires Ok(f, NODES) && Live(f.freq) <= 1
    ensures forall a, b :: 0 <= a < NODES && 0 <= b < NODES && f.weight[a] > 0 && f.weight[b] > 0
              ==> Root(f.up, a) == Root(f.up, b)
  {
    LiveAtMostOne(f.freq, NODES);
    forall a, b | 0 <= a < NODES && 0 <= b < NODES && f.weight[a] > 0 && f.weight[b] > 0
      ensures Root(f.up, a) == Root(f.up, b)
    {
      AncestorFacts(f, a, Depth(f.up, a));
      AncestorFacts(f, b, Depth(f.up, b));
      assert LinkOk(f, NODES, Root(f.up, a)) && LinkOk(f, NODES, Root(f.up, b));
    }
  }

  function Zeros(n: nat): (z: seq<int>)
    ensures |z| == n && Bits(z)
  {
    seq(n, _ => 0)
  }

  /** Every tree has a symbol whose code is all zeros. */
  lemma LeftmostSymbol(f: Forest, r: nat) returns (k: nat)
    requires Ok(f, NODES) && r < NODES && f.weight[r] > 0 && f.up[r] == -1 && Sum(f.freq) < 75025
    ensures IsLiveSymbol(f, k) && Root(f.up, k) == r
    ensures Code(f.up, f.flag, k) <= Zeros(MAX_CODE_LENGTH + 1)
  {
    var z := Zeros(MAX_CODE_LENGTH + 1);
    k := Walk(f.kids, r, z);
    WalkFacts(f, r, z);
    assert Code(f.up, f.flag, r) + z == z;
    DepthBound(f, k);
  }

  /** The codes are prefix-free exactly when one tree is left. */
  lemma PrefixFreeIffOneTree(f: Forest)
    requires Ok(f, NODES) && Sum(f.freq) < 75025
    ensures PrefixFree(f) <==> Live(f.freq) <= 1
  {
    LiveAtMostOne(f.freq, NODES);
    if Live(f.freq) <= 1 {
      LiveRoots(f);
      forall a, b | IsLiveSymbol(f, a) && IsLiveSymbol(f, b) && a != b
        ensures !(Code(f.up, f.flag, a) <= Code(f.up, f.flag, b))
      {
        NoPrefixInTree(f, a, b);
      }
    } else {
      var r, s :| 0 <= r < NODES && 0 <= s < NODES && f.freq[r] > 0 && f.freq[s] > 0 && r != s;
      assert LinkOk(f, NODES, r) && LinkOk(f, NODES, s);
      var a := LeftmostSymbol(f, r);
      var b := LeftmostSymbol(f, s);
      var z := Zeros(MAX_CODE_LENGTH + 1);
      var c, e := Code(f.up, f.flag, a), Code(f.up, f.flag, b);
      assert c == z[..|c|] && e == z[..|e|];
      if |c| <= |e| { assert c <= e; } else { assert e <= c; }
    }
  }

  /** With one tree left, any 22 bits begin with the code of one live symbol and of no other, and the walk finds it. */
  lemma Decodes(f: Forest, r: nat, stream: seq<int>)
    requires Ok(f, NODES) && Sum(f.freq) < 75025 && Live(f.freq) <= 1
    requires r < NODES && f.freq[r] > 0
    requires Bits(stream) && |stream| >= MAX_CODE_LENGTH
    ensures var k := Walk(f.kids, r, stream);
            IsLiveSymbol(f, k) && Code(f.up, f.flag, k) <= stream
            && forall b :: IsLiveSymbol(f, b) && Code(f.up, f.flag, b) <= stream ==> b == k
  {
    var k := Walk(f.kids, r, stream);
    assert LinkOk(f, NODES, r);
    WalkFacts(f, r, stream);
    assert Code(f.up, f.flag, r) + stream == stream;
    if k >= SYMBOLS {
      // the walk ran out of bits on an internal node at depth >= 22, so its child would lie too deep
      assert HasKids(f, k);
      DepthBound(f, f.kids[k].0);
      assert false;
    }
    forall b | IsLiveSymbol(f, b) && Code(f.up, f.flag, b) <= stream ensures b == k {
      PrefixFreeIffOneTree(f);
      var c, e := Code(f.up, f.flag, k), Code(f.up, f.flag, b);
      assert |c| <= |e| ==> c <= e;
      assert |e| <= |c| ==> e <= c;
    }
  }
}
