/**
 * init_vlc of libavcodec/bitstream.c as far as its verdict goes: which code tables it turns down. A code is its bits,
 * most significant first; the multi-level lookup table is represented by the regions its entries cover.
 */
module VlcTable {
  import opened Basics

  datatype Item = Item(sym: nat, code: seq<int>)

  /** One of the two begins the other: some table index belongs to both. */
  predicate Overlap(a: seq<int>, b: seq<int>) { a <= b || b <= a }

  function TotalBits(cs: seq<Item>): nat {
    if cs == [] then 0 else |cs[0].code| + TotalBits(cs[1..])
  }

  predicate NonEmpty(cs: seq<Item>) { forall k :: 0 <= k < |cs| ==> cs[k].code != [] }

  /** Item `k` goes to the same subtable as a code that starts with `prefix`. */
  predicate Joins(it: Item, prefix: seq<int>) { |it.code| > |prefix| && prefix <= it.code }

  /** How many of the items from the front go to the subtable of `prefix`. */
  function Group(cs: seq<Item>, prefix: seq<int>): (n: nat)
    ensures n <= |cs| && forall k :: 0 <= k < n ==> Joins(cs[k], prefix)
    ensures n < |cs| ==> !Joins(cs[n], prefix)
    decreases |cs|
  {
    if cs == [] || !Joins(cs[0], prefix) then 0 else 1 + Group(cs[1..], prefix)
  }

  lemma GroupIsLong(cs: seq<Item>, prefix: seq<int>, j: nat)
    ensures j < Group(cs, prefix) ==> |cs[j].code| > |prefix|
  {
  }

  /** The items with their first `n` bits taken off. */
  function Stripped(cs: seq<Item>, n: nat): (r: seq<Item>)
    requires forall k :: 0 <= k < |cs| ==> |cs[k].code| > n
    ensures |r| == |cs| && NonEmpty(r)
    ensures forall k :: 0 <= k < |cs| ==> r[k] == Item(cs[k].sym, cs[k].code[n..])
  {
    seq(|cs|, k requires 0 <= k < |cs| => Item(cs[k].sym, cs[k].code[n..]))
  }

  function Longest(cs: seq<Item>): nat {
    if cs == [] then 0 else Max(|cs[0].code|, Longest(cs[1..]))
  }

  lemma {:induction false} LongestPositive(cs: seq<Item>)
    requires cs != [] && NonEmpty(cs)
    ensures Longest(cs) > 0
  {
    assert cs[0].code != [];
  }

  lemma {:induction false} StrippedBits(cs: seq<Item>, n: nat, k: nat)
    requires NonEmpty(cs) && 0 < k <= |cs| && n > 0 && forall i :: 0 <= i < k ==> |cs[i].code| > n
    ensures TotalBits(Stripped(cs[..k], n)) < TotalBits(cs)
    decreases k
  {
    var s := Stripped(cs[..k], n);
    assert cs[0].code != [];
    if k == 1 {
      assert s[1..] == [];
      BitsNotNegative(cs[1..]);
    } else {
      assert NonEmpty(cs[1..]) by {
        forall i | 0 <= i < |cs[1..]| ensures cs[1..][i].code != [] { assert cs[i + 1].code != []; }
      }
      StrippedBits(cs[1..], n, k - 1);
      assert s[1..] == Stripped(cs[1..][..k - 1], n);
    }
  }

  lemma BitsNotNegative(cs: seq<Item>)
    ensures TotalBits(cs) >= 0
  {
  }

  lemma {:induction false} TailBits(cs: seq<Item>, k: nat)
    requires NonEmpty(cs) && 0 < k <= |cs|
    ensures TotalBits(cs[k..]) < TotalBits(cs)
    ensures NonEmpty(cs[k..])
    decreases k
  {
    assert cs[0].code != [];
    forall i | 0 <= i < |cs[k..]| ensures cs[k..][i].code != [] { assert cs[k + i].code != []; }
    if k > 1 {
      assert NonEmpty(cs[1..]) by {
        forall i | 0 <= i < |cs[1..]| ensures cs[1..][i].code != [] { assert cs[i + 1].code != []; }
      }
      TailBits(cs[1..], k - 1);
      assert cs[1..][k - 1..] == cs[k..];
    }
  }

  predicate Taken(taken: seq<seq<int>>, code: seq<int>) {
    exists k :: 0 <= k < |taken| && Overlap(taken[k], code)
  }

  /**
   * build_table for a table of `nb` bits: a code that fits fills its region, and fails if any of it is taken; a longer
   * code starts a subtable with those that follow it and share its first bits, and takes that one entry without a
   * check.
   */
  function Builds(cs: seq<Item>, nb: nat, taken: seq<seq<int>>): bool
    requires NonEmpty(cs) && nb > 0
    decreases TotalBits(cs)
  {
    if cs == [] then true else
      var code := cs[0].code;
      TailBits(cs, 1);
      if |code| <= nb then !Taken(taken, code) && Builds(cs[1..], nb, taken + [code])
      else
        var n := Group(cs, code[..nb]);
        StrippedBits(cs, nb, n);
        TailBits(cs, n);
        var sub := Stripped(cs[..n], nb);
        LongestPositive(sub);
        Builds(sub, Min(Longest(sub), nb), []) && Builds(cs[n..], nb, taken + [code[..nb]])
  }

  // ---- codes that do not overlap are accepted ---------------------------------------------------------------

  ghost predicate Apart(cs: seq<Item>) { forall i, j :: 0 <= i < j < |cs| ==> !Overlap(cs[i].code, cs[j].code) }

  /** No code that fits the table lies in a region already taken. */
  ghost predicate Clear(cs: seq<Item>, nb: nat, taken: seq<seq<int>>) {
    forall i, k :: 0 <= i < |cs| && 0 <= k < |taken| && |cs[i].code| <= nb ==> !Overlap(taken[k], cs[i].code)
  }

  lemma {:induction false} ApartBuilds(cs: seq<Item>, nb: nat, taken: seq<seq<int>>)
    requires NonEmpty(cs) && nb > 0 && Apart(cs) && Clear(cs, nb, taken)
    ensures Builds(cs, nb, taken)
    decreases TotalBits(cs)
  {
    if cs != [] {
      var code := cs[0].code;
      TailBits(cs, 1);
      if |code| <= nb {
        assert Clear(cs[1..], nb, taken + [code]) by {
          forall i, k | 0 <= i < |cs[1..]| && 0 <= k < |taken + [code]| && |cs[1..][i].code| <= nb
            ensures !Overlap((taken + [code])[k], cs[1..][i].code)
          {
            assert !Overlap(cs[0].code, cs[i + 1].code);
          }
        }
        ApartBuilds(cs[1..], nb, taken + [code]);
      } else {
        var n := Group(cs, code[..nb]);
        StrippedBits(cs, nb, n);
        TailBits(cs, n);
        var sub := Stripped(cs[..n], nb);
        LongestPositive(sub);
        StrippedApart(cs, code[..nb], n);
        ApartBuilds(sub, Min(Longest(sub), nb), []);
        assert Apart(cs[n..]) by {
          forall i, j | 0 <= i < j < |cs[n..]| ensures !Overlap(cs[n..][i].code, cs[n..][j].code) {
            assert !Overlap(cs[n + i].code, cs[n + j].code);
          }
        }
        RestClear(cs, nb, taken, n);
        ApartBuilds(cs[n..], nb, taken + [code[..nb]]);
      }
    }
  }

  lemma StrippedApart(cs: seq<Item>, prefix: seq<int>, n: nat)
    requires n <= |cs| && Apart(cs) && forall k :: 0 <= k < n ==> Joins(cs[k], prefix) && |cs[k].code| > |prefix|
    ensures Apart(Stripped(cs[..n], |prefix|))
  {
    var p := |prefix|;
    var sub := Stripped(cs[..n], p);
    forall i, j | 0 <= i < j < n ensures !Overlap(sub[i].code, sub[j].code) {
      var a, b := cs[i].code, cs[j].code;
      assert !Overlap(a, b) && Joins(cs[i], prefix) && Joins(cs[j], prefix);
      assert a == prefix + a[p..] && b == prefix + b[p..];
    }
  }

  /** A short code that met the entry of a subtable would begin the code that made it. */
  lemma RestClear(cs: seq<Item>, nb: nat, taken: seq<seq<int>>, n: nat)
    requires 0 < n <= |cs| && |cs[0].code| > nb && Apart(cs) && Clear(cs, nb, taken)
    ensures Clear(cs[n..], nb, taken + [cs[0].code[..nb]])
  {
    var code := cs[0].code;
    forall i, k | 0 <= i < |cs[n..]| && 0 <= k < |taken + [code[..nb]]| && |cs[n..][i].code| <= nb
      ensures !Overlap((taken + [code[..nb]])[k], cs[n..][i].code)
    {
      var c := cs[n + i].code;
      assert !Overlap(cs[0].code, c);
      if k == |taken| { ShortOfPrefix(code, c, nb); }
    }
  }

  lemma ShortOfPrefix(long: seq<int>, short: seq<int>, nb: nat)
    requires |short| <= nb < |long|
    ensures Overlap(long[..nb], short) <==> Overlap(long, short)
  {
    if Overlap(long[..nb], short) { assert short == long[..nb][..|short|] == long[..|short|]; }
  }

  // ---- a short code that overlaps another is refused -----------------------------------------------------------

  /** The code at `j` overlaps a region taken, or a code before it. */
  ghost predicate Meets(cs: seq<Item>, taken: seq<seq<int>>, j: nat)
    requires j < |cs|
  {
    Taken(taken, cs[j].code) || exists i :: 0 <= i < j && Overlap(cs[i].code, cs[j].code)
  }

  /** The first `n` items gone, all in a region now taken, the code at `j` still meets something. */
  lemma MeetsLater(cs: seq<Item>, taken: seq<seq<int>>, j: nat, n: nat, region: seq<int>)
    requires n <= j < |cs| && Meets(cs, taken, j)
    requires forall i :: 0 <= i < n && Overlap(cs[i].code, cs[j].code) ==> Overlap(region, cs[j].code)
    ensures Meets(cs[n..], taken + [region], j - n)
  {
    StillTaken(taken, region, cs[j].code);
    assert cs[n..][j - n] == cs[j];
    if !Taken(taken, cs[j].code) {
      var i :| 0 <= i < j && Overlap(cs[i].code, cs[j].code);
      if i >= n { assert cs[n..][i - n] == cs[i]; }
    }
  }

  lemma {:induction false} OverlapFails(cs: seq<Item>, nb: nat, taken: seq<seq<int>>, j: nat)
    requires NonEmpty(cs) && nb > 0 && j < |cs| && |cs[j].code| <= nb && Meets(cs, taken, j)
    ensures !Builds(cs, nb, taken)
    decreases TotalBits(cs)
  {
    hide Overlap, Taken, TotalBits, Longest;
    var code := cs[0].code;
    TailBits(cs, 1);
    if |code| <= nb {
      if j > 0 {
        MeetsLater(cs, taken, j, 1, code);
        OverlapFails(cs[1..], nb, taken + [code], j - 1);
      }
    } else {
      var n := Group(cs, code[..nb]);
      TailBits(cs, n);
      StrippedBits(cs, nb, n);
      LongestPositive(Stripped(cs[..n], nb));
      GroupIsLong(cs, code[..nb], j);
      forall i | 0 <= i < n && Overlap(cs[i].code, cs[j].code) ensures Overlap(code[..nb], cs[j].code) {
        assert Joins(cs[i], code[..nb]) && cs[i].code[..nb] == code[..nb];
        ShortOfPrefix(cs[i].code, cs[j].code, nb);
      }
      MeetsLater(cs, taken, j, n, code[..nb]);
      OverlapFails(cs[n..], nb, taken + [code[..nb]], j - n);
    }
  }

  lemma StillTaken(taken: seq<seq<int>>, more: seq<int>, code: seq<int>)
    ensures Taken(taken, code) || Overlap(more, code) ==> Taken(taken + [more], code)
  {
    var all := taken + [more];
    assert all[|taken|] == more;
    if Taken(taken, code) {
      var k :| 0 <= k < |taken| && Overlap(taken[k], code);
      assert all[k] == taken[k];
    }
  }

  // ---- the whole table ---------------------------------------------------------------------------------------------

  /** The value of a code as the left-aligned word the sort compares. */
  function Key(code: seq<int>, n: nat): int {
    if n == 0 then 0 else 2 * Key(code, n - 1) + if n <= |code| then code[n - 1] else 0
  }

  function Insert(it: Item, cs: seq<Item>): (r: seq<Item>)
    ensures |r| == |cs| + 1
    decreases |cs|
  {
    if cs == [] || Key(it.code, 32) <= Key(cs[0].code, 32) then [it] + cs else [cs[0]] + Insert(it, cs[1..])
  }

  function Sorted(cs: seq<Item>): (r: seq<Item>)
    ensures |r| == |cs|
  {
    if cs == [] then [] else Insert(cs[|cs| - 1], Sorted(cs[..|cs| - 1]))
  }

  /** The symbols below `n` with a code of more than `nb` bits, or with one of 1 to `nb` bits, in symbol order. */
  function Picked(code: seq<seq<int>>, nb: nat, long: bool, n: nat): seq<Item>
    requires n <= |code|
  {
    if n == 0 then [] else
      var c := code[n - 1];
      Picked(code, nb, long, n - 1) + if c != [] && (long <==> |c| > nb) then [Item(n - 1, c)] else []
  }

  /** The order build_table sees: the long codes sorted, then the short ones. Symbols of length 0 are left out. */
  function Listing(code: seq<seq<int>>, nb: nat): seq<Item> {
    Sorted(Picked(code, nb, true, |code|)) + Picked(code, nb, false, |code|)
  }

  /** Items of distinct symbols, each with its symbol's code. */
  ghost predicate Named(cs: seq<Item>, code: seq<seq<int>>) {
    && (forall i :: 0 <= i < |cs| ==> cs[i].sym < |code| && cs[i].code == code[cs[i].sym] && cs[i].code != [])
    && (forall i, j :: 0 <= i < j < |cs| ==> cs[i].sym != cs[j].sym)
  }

  ghost predicate Has(cs: seq<Item>, sym: nat) { exists i :: 0 <= i < |cs| && cs[i].sym == sym }

  lemma NamedCons(it: Item, cs: seq<Item>, code: seq<seq<int>>)
    requires Named(cs, code) && it.sym < |code| && it.code == code[it.sym] && it.code != [] && !Has(cs, it.sym)
    ensures Named([it] + cs, code)
    ensures forall s :: Has([it] + cs, s) <==> s == it.sym || Has(cs, s)
  {
    var r := [it] + cs;
    forall s ensures Has(r, s) <==> s == it.sym || Has(cs, s) {
      assert r[0] == it;
      if Has(cs, s) { var i :| 0 <= i < |cs| && cs[i].sym == s; assert r[i + 1] == cs[i]; }
    }
  }

  lemma NamedTail(cs: seq<Item>, code: seq<seq<int>>)
    requires cs != [] && Named(cs, code)
    ensures Named(cs[1..], code) && !Has(cs[1..], cs[0].sym)
    ensures forall s :: Has(cs, s) <==> s == cs[0].sym || Has(cs[1..], s)
  {
    NamedCons(cs[0], cs[1..], code);
    assert [cs[0]] + cs[1..] == cs;
  }

  lemma {:induction false} InsertNamed(it: Item, cs: seq<Item>, code: seq<seq<int>>)
    requires Named(cs, code) && it.sym < |code| && it.code == code[it.sym] && it.code != [] && !Has(cs, it.sym)
    ensures Named(Insert(it, cs), code)
    ensures forall s :: Has(Insert(it, cs), s) <==> s == it.sym || Has(cs, s)
    decreases |cs|
  {
    hide Has, Key;
    if cs == [] || Key(it.code, 32) <= Key(cs[0].code, 32) {
      NamedCons(it, cs, code);
    } else {
      NamedTail(cs, code);
      InsertNamed(it, cs[1..], code);
      NamedCons(cs[0], Insert(it, cs[1..]), code);
    }
  }

  lemma NamedSnoc(cs: seq<Item>, it: Item, code: seq<seq<int>>)
    requires Named(cs, code) && it.sym < |code| && it.code == code[it.sym] && it.code != [] && !Has(cs, it.sym)
    ensures Named(cs + [it], code)
    ensures forall s :: Has(cs + [it], s) <==> s == it.sym || Has(cs, s)
  {
    var r := cs + [it];
    assert r[|cs|] == it;
    forall s ensures Has(r, s) <==> s == it.sym || Has(cs, s) {
      if Has(cs, s) { var i :| 0 <= i < |cs| && cs[i].sym == s; assert r[i] == cs[i]; }
    }
  }

  lemma NamedInit(cs: seq<Item>, code: seq<seq<int>>)
    requires cs != [] && Named(cs, code)
    ensures var n := |cs| - 1;
            && Named(cs[..n], code) && !Has(cs[..n], cs[n].sym)
            && forall s :: Has(cs, s) <==> s == cs[n].sym || Has(cs[..n], s)
  {
    var n := |cs| - 1;
    NamedSnoc(cs[..n], cs[n], code);
    assert cs[..n] + [cs[n]] == cs;
  }

  lemma {:induction false} SortedNamed(cs: seq<Item>, code: seq<seq<int>>)
    requires Named(cs, code)
    ensures Named(Sorted(cs), code) && forall s :: Has(Sorted(cs), s) <==> Has(cs, s)
  {
    hide Has, Insert;
    if cs != [] {
      var n := |cs| - 1;
      NamedInit(cs, code);
      SortedNamed(cs[..n], code);
      InsertNamed(cs[n], Sorted(cs[..n]), code);
    }
  }

  lemma NothingHas()
    ensures forall s :: !Has([], s)
  {
  }

  lemma {:induction false} PickedNamed(code: seq<seq<int>>, nb: nat, long: bool, n: nat)
    requires n <= |code|
    ensures Named(Picked(code, nb, long, n), code)
    ensures forall s: nat :: Has(Picked(code, nb, long, n), s) <==> s < n && code[s] != [] && (long <==> |code[s]| > nb)
  {
    hide Has;
    if n == 0 {
      NothingHas();
    } else {
      PickedNamed(code, nb, long, n - 1);
      var c := code[n - 1];
      var before := Picked(code, nb, long, n - 1);
      if c != [] && (long <==> |c| > nb) {
        NamedSnoc(before, Item(n - 1, c), code);
        assert Picked(code, nb, long, n) == before + [Item(n - 1, c)];
      } else {
        assert Picked(code, nb, long, n) == before;
      }
    }
  }

  /** The listing holds every symbol with a code once, the long ones first. */
  lemma ListingNamed(code: seq<seq<int>>, nb: nat)
    ensures Named(Listing(code, nb), code)
    ensures var n := |Picked(code, nb, true, |code|)|;
            && n <= |Listing(code, nb)|
            && (forall i :: 0 <= i < n ==> |Listing(code, nb)[i].code| > nb)
            && (forall i :: n <= i < |Listing(code, nb)| ==> |Listing(code, nb)[i].code| <= nb)
    ensures forall s :: 0 <= s < |code| && code[s] != [] ==> Has(Listing(code, nb), s)
  {
    var longs, shorts := Sorted(Picked(code, nb, true, |code|)), Picked(code, nb, false, |code|);
    PickedNamed(code, nb, true, |code|);
    SortedNamed(Picked(code, nb, true, |code|), code);
    PickedNamed(code, nb, false, |code|);
    forall i | 0 <= i < |longs| ensures |longs[i].code| > nb { assert Has(longs, longs[i].sym); }
    forall i | 0 <= i < |shorts| ensures |shorts[i].code| <= nb { assert Has(shorts, shorts[i].sym); }
    hide Picked, Sorted;
    NamedConcat(longs, shorts, code, nb);
  }

  lemma NamedConcat(longs: seq<Item>, shorts: seq<Item>, code: seq<seq<int>>, nb: nat)
    requires Named(longs, code) && Named(shorts, code)
    requires (forall i :: 0 <= i < |longs| ==> |longs[i].code| > nb)
    requires (forall i :: 0 <= i < |shorts| ==> |shorts[i].code| <= nb)
    ensures Named(longs + shorts, code)
    ensures forall s :: Has(longs, s) || Has(shorts, s) ==> Has(longs + shorts, s)
  {
    var all := longs + shorts;
    forall s | Has(longs, s) || Has(shorts, s) ensures Has(all, s) {
      if Has(longs, s) {
        var i :| 0 <= i < |longs| && longs[i].sym == s;
        assert all[i].sym == s;
      } else {
        var i :| 0 <= i < |shorts| && shorts[i].sym == s;
        assert all[|longs| + i].sym == s;
      }
    }
  }

  lemma NamedNonEmpty(cs: seq<Item>, code: seq<seq<int>>)
    requires Named(cs, code)
    ensures NonEmpty(cs)
  {
  }

  /** init_vlc: no code longer than three tables deep, and build_table goes through. */
  predicate Accepts(code: seq<seq<int>>, nb: nat)
    requires nb > 0
  {
    ListingNamed(code, nb);
    NamedNonEmpty(Listing(code, nb), code);
    (forall s :: 0 <= s < |code| ==> |code[s]| <= 3 * nb) && Builds(Listing(code, nb), nb, [])
  }

  ghost predicate Collide(code: seq<seq<int>>, a: nat, b: nat) {
    a < |code| && b < |code| && a != b && code[a] != [] && code[b] != [] && Overlap(code[a], code[b])
  }

  /** Codes of which none begins another are accepted. */
  lemma ApartAccepted(code: seq<seq<int>>, nb: nat)
    requires nb > 0 && (forall s :: 0 <= s < |code| ==> |code[s]| <= 3 * nb) && forall a, b :: !Collide(code, a, b)
    ensures Accepts(code, nb)
  {
    ListingNamed(code, nb);
    var cs := Listing(code, nb);
    NamedNonEmpty(cs, code);
    forall i, j | 0 <= i < j < |cs| ensures !Overlap(cs[i].code, cs[j].code) {
      assert !Collide(code, cs[i].sym, cs[j].sym);
    }
    ApartBuilds(cs, nb, []);
  }

  /** A code that fits the first table and overlaps another makes it fail. */
  lemma ShortCollisionRefused(code: seq<seq<int>>, nb: nat, a: nat, b: nat)
    requires nb > 0 && Collide(code, a, b) && |code[a]| <= nb
    ensures !Accepts(code, nb)
  {
    ListingNamed(code, nb);
    var cs := Listing(code, nb);
    NamedNonEmpty(cs, code);
    assert Has(cs, a) && Has(cs, b);
    var i :| 0 <= i < |cs| && cs[i].sym == a;
    var j :| 0 <= j < |cs| && cs[j].sym == b;
    var n := |Picked(code, nb, true, |code|)|;
    assert i >= n && (i < j ==> |cs[j].code| <= nb);
    hide Listing, Named, Has, Builds, Picked;
    LaterFails(cs, nb, Min(i, j), Max(i, j));
  }

  lemma LaterFails(cs: seq<Item>, nb: nat, i: nat, j: nat)
    requires NonEmpty(cs) && nb > 0 && i < j < |cs| && |cs[j].code| <= nb && Overlap(cs[i].code, cs[j].code)
    ensures !Builds(cs, nb, [])
  {
    assert Meets(cs, [], j);
    OverlapFails(cs, nb, [], j);
  }
}
