/** Where split_commandline puts every option, and the rendering of its result that splits back to the same result. */
module CmdRoundTrip {
  import opened Basics
  import opened CmdSplit

  // ---- the items of a line --------------------------------------------------------------------------------------

  /** Everything a line says, in order; None if it is rejected. */
  function Items(d: Defs, ts: seq<string>, after: bool): (r: Option<seq<Item>>)
    requires d.groups != []
    decreases |ts|
  {
    if ts == [] then Some([]) else
      match Next(d, ts, after)
      case Dashes => Items(d, ts[1..], true)
      case Fails(_) => None
      case Reads(it, n) =>
        var rest := Items(d, ts[n..], false);
        if rest.None? then None else Some([it] + rest.value)
  }

  ghost predicate InRange(d: Defs, items: seq<Item>) {
    forall k :: 0 <= k < |items| && items[k].End? ==> items[k].group < |d.groups|
  }

  /** The items put where they belong, one after the other. */
  function PlaceFrom(d: Defs, c: Context, items: seq<Item>): (r: Context)
    requires |c.groups| == |d.groups| && InRange(d, items)
    ensures |r.groups| == |d.groups|
    decreases |items|
  {
    if items == [] then c else PlaceFrom(d, Apply(d, c, items[0]), items[1..])
  }

  lemma {:induction false} ItemsInRange(d: Defs, ts: seq<string>, after: bool)
    requires d.groups != [] && Items(d, ts, after).Some?
    ensures InRange(d, Items(d, ts, after).value)
    decreases |ts|
  {
    if ts != [] {
      var t := Next(d, ts, after);
      if t.Dashes? { ItemsInRange(d, ts[1..], true); } else { ItemsInRange(d, ts[t.used..], false); }
    }
  }

  lemma {:induction false} SplitPlaces(d: Defs, ts: seq<string>, after: bool, c: Context)
    requires d.groups != [] && |c.groups| == |d.groups|
    ensures SplitFrom(d, ts, after, c).Done? <==> Items(d, ts, after).Some?
    ensures Items(d, ts, after).Some? ==> InRange(d, Items(d, ts, after).value)
    ensures Items(d, ts, after).Some? ==> SplitFrom(d, ts, after, c).c == PlaceFrom(d, c, Items(d, ts, after).value)
    decreases |ts|
  {
    if ts != [] {
      var t := Next(d, ts, after);
      if t.Dashes? {
        SplitPlaces(d, ts[1..], true, c);
      } else if t.Reads? {
        SplitPlaces(d, ts[t.used..], false, Apply(d, c, t.item));
        var rest := Items(d, ts[t.used..], false);
        if rest.Some? { assert ([t.item] + rest.value)[1..] == rest.value; }
      }
    }
  }

  lemma {:induction false} PlaceConcat(d: Defs, c: Context, a: seq<Item>, b: seq<Item>)
    requires |c.groups| == |d.groups| && InRange(d, a) && InRange(d, b)
    ensures InRange(d, a + b) && PlaceFrom(d, c, a + b) == PlaceFrom(d, PlaceFrom(d, c, a), b)
    decreases |a|
  {
    if a == [] {
      assert a + b == b;
    } else {
      assert (a + b)[1..] == a[1..] + b;
      PlaceConcat(d, Apply(d, c, a[0]), a[1..], b);
    }
  }

  lemma PlaceOne(d: Defs, c: Context, it: Item)
    requires |c.groups| == |d.groups| && InRange(d, [it])
    ensures PlaceFrom(d, c, [it]) == Apply(d, c, it)
  {
    assert [it][0] == it && [it][1..] == [];
  }

  // ---- where everything lands -------------------------------------------------------------------------------------

  predicate IsOwn(d: Defs, it: Item) { it.Opt? && !IsGlobal(d, it) }

  function Globals(d: Defs, items: seq<Item>): seq<Item> {
    if items == [] then [] else
      Globals(d, items[..|items| - 1]) + if IsGlobal(d, items[|items| - 1]) then [items[|items| - 1]] else []
  }

  function Own(d: Defs, items: seq<Item>): seq<Item> {
    if items == [] then [] else
      Own(d, items[..|items| - 1]) + if IsOwn(d, items[|items| - 1]) then [items[|items| - 1]] else []
  }

  function Avs(items: seq<Item>): seq<Item> {
    if items == [] then [] else Avs(items[..|items| - 1]) + if items[|items| - 1].Av? then [items[|items| - 1]] else []
  }

  /** Where the group under way at item `k` began: after the last terminator before it. */
  function Start(items: seq<Item>, k: nat): (s: nat)
    requires k <= |items|
    ensures s <= k && (s > 0 ==> items[s - 1].End?) && forall j :: s <= j < k ==> !items[j].End?
  {
    if k == 0 then 0 else if items[k - 1].End? then k else Start(items, k - 1)
  }

  /** The group a terminator at `k` closes: its argument and the options since the terminator before. */
  function Closed(d: Defs, items: seq<Item>, k: nat, arg: string): Group
    requires k <= |items|
  {
    var s := Start(items, k);
    Group(arg, Own(d, items[s..k]), Avs(items[s..k]))
  }

  /** The groups of kind `i` among the first `n` items, in the order of their terminators. */
  function Groups(d: Defs, items: seq<Item>, i: nat, n: nat): seq<Group>
    requires n <= |items|
  {
    if n == 0 then [] else
      Groups(d, items, i, n - 1)
      + if items[n - 1].End? && items[n - 1].group == i then [Closed(d, items, n - 1, items[n - 1].arg)] else []
  }

  /**
   * Global options in order in the global list, every group with the options since the previous terminator of any kind,
   * groups of a kind in the order they were closed, what follows the last terminator in the trailing group.
   */
  ghost predicate Lands(d: Defs, c: Context, items: seq<Item>, n: nat)
    requires n <= |items|
  {
    && |c.groups| == |d.groups|
    && c.globals == Globals(d, items[..n])
    && c.cur == Closed(d, items, n, "")
    && forall i :: 0 <= i < |d.groups| ==> c.groups[i] == Groups(d, items, i, n)
  }

  lemma {:induction false} LandsInOrder(d: Defs, items: seq<Item>, n: nat)
    requires InRange(d, items) && n <= |items|
    ensures Lands(d, PlaceFrom(d, Empty(d), items[..n]), items, n)
  {
    if n > 0 {
      LandsInOrder(d, items, n - 1);
      var it := items[n - 1];
      var c := PlaceFrom(d, Empty(d), items[..n - 1]);
      assert items[..n] == items[..n - 1] + [it];
      PlaceConcat(d, Empty(d), items[..n - 1], [it]);
      PlaceOne(d, c, it);
      hide Lands, Apply, PlaceFrom;
      LandsStep(d, c, items, n);
    }
  }

  lemma ClosedStep(d: Defs, items: seq<Item>, n: nat)
    requires 0 < n <= |items| && !items[n - 1].End?
    ensures var it, g := items[n - 1], Closed(d, items, n - 1, "");
            Closed(d, items, n, "") == g.(opts := g.opts + if IsOwn(d, it) then [it] else [],
                                          avs := g.avs + if it.Av? then [it] else [])
  {
    hide IsOwn;
    var s := Start(items, n - 1);
    assert Start(items, n) == s;
    assert items[s..n][..n - 1 - s] == items[s..n - 1];
    assert items[s..n][n - 1 - s] == items[n - 1];
  }

  lemma GlobalsStep(d: Defs, items: seq<Item>, n: nat)
    requires 0 < n <= |items|
    ensures var it := items[n - 1];
            Globals(d, items[..n]) == Globals(d, items[..n - 1]) + if IsGlobal(d, it) then [it] else []
  {
    assert items[..n][..n - 1] == items[..n - 1];
  }

  lemma LandsStep(d: Defs, c: Context, items: seq<Item>, n: nat)
    requires InRange(d, items) && 0 < n <= |items| && Lands(d, c, items, n - 1)
    ensures Lands(d, Apply(d, c, items[n - 1]), items, n)
  {
    hide IsGlobal, Closed, Start, Own, Avs, Globals;
    var it, r := items[n - 1], Apply(d, c, items[n - 1]);
    GlobalsStep(d, items, n);
    AvNotGlobal(d, it);
    if it.End? { ClosedAfresh(d, items, n); } else { ClosedStep(d, items, n); }
    assert r.cur == Closed(d, items, n, "");
    forall i | 0 <= i < |d.groups| ensures r.groups[i] == Groups(d, items, i, n) {
      assert c.groups[i] == Groups(d, items, i, n - 1);
    }
  }

  lemma ClosedAfresh(d: Defs, items: seq<Item>, n: nat)
    requires 0 < n <= |items| && items[n - 1].End?
    ensures Closed(d, items, n, "") == NO_GROUP
    ensures Closed(d, items, n - 1, items[n - 1].arg) == Closed(d, items, n - 1, "").(arg := items[n - 1].arg)
  {
    assert items[n..n] == [];
  }

  // ---- rendering ----------------------------------------------------------------------------------------------------

  /** Whether the value of an option came from a token of its own. */
  predicate TakesValue(d: Defs, it: Item)
    requires it.Opt?
  {
    Find(d.options, it.key) == Some(it.po) && it.po < |d.options| && (d.options[it.po].exits || d.options[it.po].hasArg)
  }

  function RenderItem(d: Defs, it: Item): seq<string> {
    match it
    case Opt(po, key, val) => if TakesValue(d, it) && val.Some? then ["-" + key, val.value] else ["-" + key]
    case Av(name, value) => ["-" + name, value]
    case End(g, arg) =>
      if g < |d.groups| && d.groups[g].sep.Some? then ["-" + d.groups[g].sep.value, arg]
      else if Plain(arg) then [arg] else ["--", arg]
  }

  function RenderItems(d: Defs, items: seq<Item>): seq<string>
    decreases |items|
  {
    if items == [] then [] else RenderItem(d, items[0]) + RenderItems(d, items[1..])
  }

  function GroupItems(i: nat, g: Group): seq<Item> { g.opts + g.avs + [End(i, g.arg)] }

  function ListItems(i: nat, gs: seq<Group>): seq<Item> {
    if gs == [] then [] else ListItems(i, gs[..|gs| - 1]) + GroupItems(i, gs[|gs| - 1])
  }

  function AllGroupItems(groups: seq<seq<Group>>, n: nat): seq<Item>
    requires n <= |groups|
  {
    if n == 0 then [] else AllGroupItems(groups, n - 1) + ListItems(n - 1, groups[n - 1])
  }

  /** The result written out again: the global options, the groups kind by kind, what was left over. */
  function ItemsOf(c: Context): seq<Item> {
    c.globals + AllGroupItems(c.groups, |c.groups|) + c.cur.opts + c.cur.avs
  }

  function Render(d: Defs, c: Context): seq<string> { RenderItems(d, ItemsOf(c)) }

  // ---- what reading yields ------------------------------------------------------------------------------------------

  /** The name can follow a dash: the token is neither a file name nor "--". */
  predicate Dashable(name: string) { name != [] && name != "-" }

  /** An item that some tokens say. */
  predicate Sayable(d: Defs, it: Item) {
    match it
    case Opt(po, key, val) =>
      && Dashable(key) && Match(d.groups, key).None? && po < |d.options|
      && (if Find(d.options, key).Some?
          then Find(d.options, key).value == po
               && (if d.options[po].exits then true else if d.options[po].hasArg then val.Some? else val == Some("1"))
          else Negated(d, key) == Some(po) && val == Some("0"))
    case Av(name, value) =>
      && Dashable(name) && Match(d.groups, name).None? && Find(d.options, name).None?
      && d.known(name) && !d.bad(name, value)
    case End(g, arg) =>
      && g < |d.groups|
      && (if g == 0 && d.groups[0].sep.None? then arg != "--"
          else var sep := d.groups[g].sep; sep.Some? && Dashable(sep.value) && Match(d.groups, sep.value) == Some(g))
  }

  /**
   * A sayable item whose rendering means the same whatever follows: not an exit option that came last without its
   * argument, and not a -nofoo whose name is also an AVOption.
   */
  predicate Steady(d: Defs, it: Item) {
    it.Opt? ==> it.val.Some? && (Find(d.options, it.key).None? ==> !d.known(it.key))
  }

  /** The files are a kind of their own, as in ffmpeg, whose table has no separator for group 0. */
  predicate Usable(d: Defs) { d.groups != [] && d.groups[0].sep.None? }

  lemma NextSayable(d: Defs, ts: seq<string>, after: bool)
    requires Usable(d) && ts != [] && Next(d, ts, after).Reads?
    ensures Sayable(d, Next(d, ts, after).item)
  {
  }

  lemma DashToken(name: string)
    requires Dashable(name)
    ensures ("-" + name)[1..] == name && !Plain("-" + name) && "-" + name != "--"
  {
    assert ("-" + name)[1..] == name && "--"[1..] == "-";
  }

  /** A rendered item reads back as itself and leaves the rest to be read. */
  lemma RenderedReads(d: Defs, it: Item, rest: seq<string>)
    requires Usable(d) && Sayable(d, it) && Steady(d, it)
    ensures var r := Items(d, rest, false);
            Items(d, RenderItem(d, it) + rest, false) == if r.None? then None else Some([it] + r.value)
  {
    var ts := RenderItem(d, it) + rest;
    match it
    case Opt(po, key, val) =>
      DashToken(key);
      if TakesValue(d, it) {
        assert ts[0] == "-" + key && ts[1..][0] == val.value && ts[2..] == rest;
      } else {
        assert ts[0] == "-" + key && ts[1..] == rest;
      }
    case Av(name, value) =>
      DashToken(name);
      assert ts[0] == "-" + name && ts[1..][0] == value && ts[2..] == rest;
    case End(g, arg) =>
      if g == 0 {
        if Plain(arg) {
          assert ts[0] == arg && ts[1..] == rest;
        } else {
          assert ts[0] == "--" && ts[1..][0] == arg && ts[1..][1..] == rest;
          assert Next(d, ts[1..], true) == Reads(End(0, arg), 1);
        }
      } else {
        DashToken(d.groups[g].sep.value);
        assert ts[0] == "-" + d.groups[g].sep.value && ts[1..][0] == arg && ts[2..] == rest;
      }
  }

  /**
   * The guard is exact: a rendered option with more tokens behind it reads back as itself if and only if it is steady.
   * An exit option that came last would take the next token as its argument, an AVOption name would be tried with it.
   */
  lemma ReadsBackIffSteady(d: Defs, it: Item, rest: seq<string>)
    requires Sayable(d, it) && it.Opt? && rest != []
    ensures Next(d, RenderItem(d, it) + rest, false) == Reads(it, |RenderItem(d, it)|) <==> Steady(d, it)
  {
    var ts := RenderItem(d, it) + rest;
    DashToken(it.key);
    assert ts[0] == "-" + it.key;
    if TakesValue(d, it) && it.val.Some? {
      assert ts[1..][0] == it.val.value;
    } else {
      assert ts[1..] == rest;
    }
  }

  ghost predicate AllSayable(d: Defs, items: seq<Item>) { forall k :: 0 <= k < |items| ==> Sayable(d, items[k]) }

  /** Every item with another one behind it is steady. */
  ghost predicate SteadyButLast(d: Defs, items: seq<Item>) { forall k :: 0 <= k < |items| - 1 ==> Steady(d, items[k]) }

  /** Rendered last, any item reads back as itself. */
  lemma LastReads(d: Defs, it: Item)
    requires Usable(d) && Sayable(d, it)
    ensures Items(d, RenderItem(d, it), false) == Some([it])
  {
    var ts := RenderItem(d, it);
    assert ts + [] == ts && [it] + [] == [it];
    if Steady(d, it) {
      RenderedReads(d, it, []);
    } else {
      DashToken(it.key);
      assert ts == ["-" + it.key] && ts[1..] == [];
    }
  }

  lemma RenderNotEmpty(d: Defs, items: seq<Item>)
    requires items != []
    ensures RenderItems(d, items) != []
  {
  }

  /** Rendered items read back as themselves if and only if every one with another behind it is steady. */
  lemma {:induction false} ReadBackIff(d: Defs, items: seq<Item>)
    requires Usable(d) && AllSayable(d, items)
    ensures Items(d, RenderItems(d, items), false) == Some(items) <==> SteadyButLast(d, items)
    decreases |items|
  {
    hide RenderItem, Steady, Sayable, Next;
    if items != [] {
      var it, rest := items[0], RenderItems(d, items[1..]);
      assert [it] + items[1..] == items;
      if |items| == 1 {
        assert items[1..] == [] && items == [it];
        assert RenderItem(d, it) + rest == RenderItem(d, it);
        LastReads(d, it);
      } else {
        RenderNotEmpty(d, items[1..]);
        ReadBackIff(d, items[1..]);
        assert SteadyButLast(d, items) <==> Steady(d, it) && SteadyButLast(d, items[1..]) by {
          if Steady(d, it) && SteadyButLast(d, items[1..]) {
            forall k | 0 <= k < |items| - 1 ensures Steady(d, items[k]) {
              if k > 0 { assert items[k] == items[1..][k - 1]; }
            }
          }
          if SteadyButLast(d, items) {
            forall k | 0 <= k < |items[1..]| - 1 ensures Steady(d, items[1..][k]) {
              assert items[1..][k] == items[k + 1];
            }
          }
        }
        if Steady(d, it) {
          RenderedReads(d, it, rest);
        } else {
          UnsteadyReadsElse(d, it, rest);
        }
      }
    }
  }

  /** With more behind it, an unsteady item is read as something else. */
  lemma UnsteadyReadsElse(d: Defs, it: Item, rest: seq<string>)
    requires Sayable(d, it) && !Steady(d, it) && rest != [] && d.groups != []
    ensures var r := Items(d, RenderItem(d, it) + rest, false); r.Some? ==> r.value != [] && r.value[0] != it
  {
    var ts := RenderItem(d, it) + rest;
    ReadsBackIffSteady(d, it, rest);
    DashToken(it.key);
    assert ts[0] == "-" + it.key && ts[1..] == rest;
  }

  // ---- nothing is lost ----------------------------------------------------------------------------------------------

  /** How often an item occurs. */
  function Count(items: seq<Item>, x: Item): nat {
    if items == [] then 0 else Count(items[..|items| - 1], x) + if items[|items| - 1] == x then 1 else 0
  }

  lemma {:induction false} CountConcat(a: seq<Item>, b: seq<Item>, x: Item)
    ensures Count(a + b, x) == Count(a, x) + Count(b, x)
  {
    if b == [] {
      assert a + b == a;
    } else {
      assert (a + b)[..|a| + |b| - 1] == a + b[..|b| - 1];
      CountConcat(a, b[..|b| - 1], x);
    }
  }

  lemma {:induction false} CountIn(items: seq<Item>, x: Item)
    ensures Count(items, x) > 0 <==> x in items
  {
    if items != [] {
      CountIn(items[..|items| - 1], x);
      assert items == items[..|items| - 1] + [items[|items| - 1]];
    }
  }

  lemma {:induction false} GroupAdded(groups: seq<seq<Group>>, n: nat, g: nat, y: Group, x: Item)
    requires g < |groups| && n <= |groups|
    ensures Count(AllGroupItems(groups[g := groups[g] + [y]], n), x)
         == Count(AllGroupItems(groups, n), x) + (if g < n then Count(GroupItems(g, y), x) else 0)
  {
    hide Count, GroupItems;
    if n > 0 {
      var added := groups[g := groups[g] + [y]];
      GroupAdded(groups, n - 1, g, y, x);
      CountConcat(AllGroupItems(added, n - 1), ListItems(n - 1, added[n - 1]), x);
      CountConcat(AllGroupItems(groups, n - 1), ListItems(n - 1, groups[n - 1]), x);
      if n - 1 == g {
        assert (groups[g] + [y])[..|groups[g]|] == groups[g];
        CountConcat(ListItems(g, groups[g]), GroupItems(g, y), x);
      }
    }
  }

  lemma CountParts(c: Context, x: Item)
    ensures Count(ItemsOf(c), x) == Count(c.globals, x) + Count(AllGroupItems(c.groups, |c.groups|), x)
                                    + Count(c.cur.opts, x) + Count(c.cur.avs, x)
  {
    hide Count, AllGroupItems;
    var all := AllGroupItems(c.groups, |c.groups|);
    CountConcat(c.globals, all, x);
    CountConcat(c.globals + all, c.cur.opts, x);
    CountConcat(c.globals + all + c.cur.opts, c.cur.avs, x);
  }

  lemma CountGroup(i: nat, g: Group, x: Item)
    ensures Count(GroupItems(i, g), x) == Count(g.opts, x) + Count(g.avs, x) + if x == End(i, g.arg) then 1 else 0
  {
    CountConcat(g.opts, g.avs, x);
    CountConcat(g.opts + g.avs, [End(i, g.arg)], x);
  }

  lemma CountOne(it: Item, x: Item)
    ensures Count([it], x) == (if it == x then 1 else 0) && Count([], x) == 0
  {
    assert [it][..0] == [];
  }

  lemma CloseConserves(d: Defs, c: Context, it: Item, x: Item)
    requires it.End? && it.group < |c.groups|
    ensures Count(ItemsOf(Apply(d, c, it)), x) == Count(ItemsOf(c), x) + if it == x then 1 else 0
  {
    CountParts(c, x);
    CountParts(Apply(d, c, it), x);
    hide AllGroupItems, ItemsOf, IsGlobal, GroupItems, Count;
    CountOne(it, x);
    GroupAdded(c.groups, |c.groups|, it.group, c.cur.(arg := it.arg), x);
    CountGroup(it.group, c.cur.(arg := it.arg), x);
  }

  lemma AddConserves(d: Defs, c: Context, it: Item, x: Item)
    requires !it.End?
    ensures Count(ItemsOf(Apply(d, c, it)), x) == Count(ItemsOf(c), x) + if it == x then 1 else 0
  {
    var r := Apply(d, c, it);
    CountParts(c, x);
    CountParts(r, x);
    CountOne(it, x);
    hide AllGroupItems, ItemsOf, IsGlobal, Count;
    assert r.groups == c.groups;
    if it.Av? {
      CountConcat(c.cur.avs, [it], x);
    } else if IsGlobal(d, it) {
      CountConcat(c.globals, [it], x);
    } else {
      CountConcat(c.cur.opts, [it], x);
    }
  }

  /** Every item ends in exactly one place: putting one away adds it once and loses nothing. */
  lemma ApplyConserves(d: Defs, c: Context, it: Item, x: Item)
    requires it.End? ==> it.group < |c.groups|
    ensures Count(ItemsOf(Apply(d, c, it)), x) == Count(ItemsOf(c), x) + if it == x then 1 else 0
  {
    hide Apply, Count, ItemsOf;
    if it.End? { CloseConserves(d, c, it, x); } else { AddConserves(d, c, it, x); }
  }

  /** The lists of a result hold what their names say. */
  ghost predicate Formed(d: Defs, c: Context) {
    && |c.groups| == |d.groups| && c.cur.arg == ""
    && (forall k :: 0 <= k < |c.globals| ==> IsGlobal(d, c.globals[k]))
    && OwnGroup(d, c.cur)
    && forall i, j :: 0 <= i < |c.groups| && 0 <= j < |c.groups[i]| ==> OwnGroup(d, c.groups[i][j])
  }

  ghost predicate OwnGroup(d: Defs, g: Group) {
    && (forall k :: 0 <= k < |g.opts| ==> IsOwn(d, g.opts[k]))
    && (forall k :: 0 <= k < |g.avs| ==> g.avs[k].Av?)
  }

  lemma ApplyForms(d: Defs, c: Context, it: Item)
    requires Formed(d, c) && (it.End? ==> it.group < |c.groups|)
    ensures Formed(d, Apply(d, c, it))
  {
    hide IsGlobal;
  }

  lemma {:induction false} PlaceForms(d: Defs, c: Context, items: seq<Item>)
    requires Formed(d, c) && InRange(d, items)
    ensures Formed(d, PlaceFrom(d, c, items))
    decreases |items|
  {
    if items != [] {
      ApplyForms(d, c, items[0]);
      hide Formed, Apply;
      PlaceForms(d, Apply(d, c, items[0]), items[1..]);
    }
  }

  lemma {:induction false} PlaceConserves(d: Defs, c: Context, items: seq<Item>, x: Item)
    requires |c.groups| == |d.groups| && InRange(d, items)
    ensures Count(ItemsOf(PlaceFrom(d, c, items)), x) == Count(ItemsOf(c), x) + Count(items, x)
    decreases |items|
  {
    if items != [] {
      ApplyConserves(d, c, items[0], x);
      CountConcat([items[0]], items[1..], x);
      assert items == [items[0]] + items[1..];
      assert Count([items[0]], x) == if items[0] == x then 1 else 0;
      hide ItemsOf, Apply, Count;
      PlaceConserves(d, Apply(d, c, items[0]), items[1..], x);
    }
  }

  // ---- splitting the rendering --------------------------------------------------------------------------------------

  lemma {:induction false} PlaceGlobals(d: Defs, c: Context, s: seq<Item>)
    requires |c.groups| == |d.groups| && forall k :: 0 <= k < |s| ==> IsGlobal(d, s[k])
    ensures InRange(d, s) && PlaceFrom(d, c, s) == c.(globals := c.globals + s)
    decreases |s|
  {
    if s != [] {
      PlaceGlobals(d, Apply(d, c, s[0]), s[1..]);
      assert c.globals + [s[0]] + s[1..] == c.globals + s;
    }
  }

  lemma {:induction false} PlaceOwn(d: Defs, c: Context, s: seq<Item>)
    requires |c.groups| == |d.groups| && forall k :: 0 <= k < |s| ==> IsOwn(d, s[k])
    ensures InRange(d, s) && PlaceFrom(d, c, s) == c.(cur := c.cur.(opts := c.cur.opts + s))
    decreases |s|
  {
    if s != [] {
      PlaceOwn(d, Apply(d, c, s[0]), s[1..]);
      assert c.cur.opts + [s[0]] + s[1..] == c.cur.opts + s;
    }
  }

  lemma {:induction false} PlaceAvs(d: Defs, c: Context, s: seq<Item>)
    requires |c.groups| == |d.groups| && forall k :: 0 <= k < |s| ==> s[k].Av?
    ensures InRange(d, s) && PlaceFrom(d, c, s) == c.(cur := c.cur.(avs := c.cur.avs + s))
    decreases |s|
  {
    if s != [] {
      PlaceAvs(d, Apply(d, c, s[0]), s[1..]);
      assert c.cur.avs + [s[0]] + s[1..] == c.cur.avs + s;
    }
  }

  /** What a group collected, read from an empty group. */
  lemma PlaceCollected(d: Defs, c: Context, g: Group)
    requires |c.groups| == |d.groups| && c.cur == NO_GROUP && OwnGroup(d, g)
    ensures InRange(d, g.opts + g.avs) && PlaceFrom(d, c, g.opts + g.avs) == c.(cur := Group("", g.opts, g.avs))
  {
    PlaceOwn(d, c, g.opts);
    PlaceAvs(d, PlaceFrom(d, c, g.opts), g.avs);
    PlaceConcat(d, c, g.opts, g.avs);
    assert [] + g.opts == g.opts && [] + g.avs == g.avs;
  }

  lemma PlaceGroup(d: Defs, c: Context, i: nat, g: Group)
    requires |c.groups| == |d.groups| && i < |d.groups| && c.cur == NO_GROUP && OwnGroup(d, g)
    ensures InRange(d, GroupItems(i, g))
    ensures PlaceFrom(d, c, GroupItems(i, g)) == c.(groups := c.groups[i := c.groups[i] + [g]])
  {
    PlaceCollected(d, c, g);
    PlaceConcat(d, c, g.opts + g.avs, [End(i, g.arg)]);
    PlaceOne(d, PlaceFrom(d, c, g.opts + g.avs), End(i, g.arg));
  }

  lemma {:induction false} PlaceList(d: Defs, c: Context, i: nat, gs: seq<Group>)
    requires |c.groups| == |d.groups| && i < |d.groups| && c.cur == NO_GROUP
    requires forall j :: 0 <= j < |gs| ==> OwnGroup(d, gs[j])
    ensures InRange(d, ListItems(i, gs))
    ensures PlaceFrom(d, c, ListItems(i, gs)) == c.(groups := c.groups[i := c.groups[i] + gs])
    decreases |gs|
  {
    if gs != [] {
      var n := |gs| - 1;
      assert gs == gs[..n] + [gs[n]];
      PlaceList(d, c, i, gs[..n]);
      var e := PlaceFrom(d, c, ListItems(i, gs[..n]));
      PlaceGroup(d, e, i, gs[n]);
      PlaceConcat(d, c, ListItems(i, gs[..n]), GroupItems(i, gs[n]));
      assert c.groups[i] + gs[..n] + [gs[n]] == c.groups[i] + gs;
      assert c.groups[i := c.groups[i] + gs[..n]][i := c.groups[i] + gs] == c.groups[i := c.groups[i] + gs];
    } else {
      assert c.groups[i] + [] == c.groups[i];
      assert c.groups[i := c.groups[i]] == c.groups;
    }
  }

  lemma NextFrom(a: seq<seq<Group>>, b: seq<seq<Group>>, n: nat)
    requires n < |a| == |b| && b[n] == []
    ensures var mixed := a[..n] + b[n..];
            mixed[n] + a[n] == a[n] && mixed[n := mixed[n] + a[n]] == a[..n + 1] + b[n + 1..]
  {
    assert [] + a[n] == a[n];
  }

  lemma {:induction false} PlaceAllGroups(d: Defs, c: Context, groups: seq<seq<Group>>, n: nat)
    requires |c.groups| == |d.groups| == |groups| && n <= |groups| && c.cur == NO_GROUP
    requires forall i :: 0 <= i < |groups| ==> c.groups[i] == []
    requires forall i, j :: 0 <= i < |groups| && 0 <= j < |groups[i]| ==> OwnGroup(d, groups[i][j])
    ensures InRange(d, AllGroupItems(groups, n))
    ensures PlaceFrom(d, c, AllGroupItems(groups, n)) == c.(groups := groups[..n] + c.groups[n..])
  {
    if n > 0 {
      PlaceAllGroups(d, c, groups, n - 1);
      hide PlaceFrom, ListItems, OwnGroup, InRange;
      var e := PlaceFrom(d, c, AllGroupItems(groups, n - 1));
      PlaceList(d, e, n - 1, groups[n - 1]);
      PlaceConcat(d, c, AllGroupItems(groups, n - 1), ListItems(n - 1, groups[n - 1]));
      NextFrom(groups, c.groups, n - 1);
    } else {
      assert groups[..0] + c.groups[0..] == c.groups;
    }
  }

  /** Reading the items of a result puts them back where they were. */
  lemma PlaceItemsOf(d: Defs, c: Context)
    requires Formed(d, c)
    ensures InRange(d, ItemsOf(c)) && PlaceFrom(d, Empty(d), ItemsOf(c)) == c
  {
    var all := AllGroupItems(c.groups, |c.groups|);
    PlaceGlobals(d, Empty(d), c.globals);
    var a := Empty(d).(globals := c.globals);
    assert [] + c.globals == c.globals;
    PlaceAllGroups(d, a, c.groups, |c.groups|);
    var b := a.(groups := c.groups);
    assert c.groups[..|c.groups|] + a.groups[|c.groups|..] == c.groups;
    PlaceCollected(d, b, c.cur);
    PlaceConcat(d, Empty(d), c.globals, all);
    PlaceConcat(d, Empty(d), c.globals + all, c.cur.opts + c.cur.avs);
    assert ItemsOf(c) == c.globals + all + (c.cur.opts + c.cur.avs);
  }

  // ---- the round trip -----------------------------------------------------------------------------------------------

  /** The rendering of a result has no unsteady item but perhaps its last. */
  ghost predicate CanRender(d: Defs, c: Context) { SteadyButLast(d, ItemsOf(c)) }

  lemma {:induction false} ItemsSayable(d: Defs, ts: seq<string>, after: bool)
    requires Usable(d) && Items(d, ts, after).Some?
    ensures forall it :: it in Items(d, ts, after).value ==> Sayable(d, it)
    decreases |ts|
  {
    if ts != [] {
      hide Sayable;
      var t := Next(d, ts, after);
      if t.Reads? { NextSayable(d, ts, after); }
      if t.Dashes? { ItemsSayable(d, ts[1..], true); } else { ItemsSayable(d, ts[t.used..], false); }
    }
  }

  /** Every item of an accepted line is in the result as often as it was said, and nothing else is. */
  lemma EachOnce(d: Defs, ts: seq<string>, x: Item)
    requires d.groups != [] && Split(d, ts).Done?
    ensures Items(d, ts, false).Some? && Formed(d, Split(d, ts).c)
    ensures Count(ItemsOf(Split(d, ts).c), x) == Count(Items(d, ts, false).value, x)
  {
    SplitPlaces(d, ts, false, Empty(d));
    EmptyHolds(d);
    PlaceForms(d, Empty(d), Items(d, ts, false).value);
    PlaceConserves(d, Empty(d), Items(d, ts, false).value, x);
  }

  lemma EmptyHolds(d: Defs)
    ensures Formed(d, Empty(d)) && ItemsOf(Empty(d)) == []
  {
    EmptyGroups(Empty(d).groups, |d.groups|);
  }

  lemma {:induction false} EmptyGroups(groups: seq<seq<Group>>, n: nat)
    requires n <= |groups| && forall i :: 0 <= i < |groups| ==> groups[i] == []
    ensures AllGroupItems(groups, n) == []
  {
    if n > 0 { EmptyGroups(groups, n - 1); }
  }

  const NO_ITEM := Opt(0, "", None)

  /** Round trip: the result of an accepted line, rendered to tokens and split again, is the same result. */
  lemma RoundTrip(d: Defs, ts: seq<string>)
    requires Usable(d) && Split(d, ts).Done? && CanRender(d, Split(d, ts).c)
    ensures Split(d, Render(d, Split(d, ts).c)) == Split(d, ts)
  {
    var c := Split(d, ts).c;
    EachOnce(d, ts, NO_ITEM);
    ItemsSayable(d, ts, false);
    var items := ItemsOf(c);
    forall k | 0 <= k < |items| ensures Sayable(d, items[k]) {
      EachOnce(d, ts, items[k]);
      CountIn(items, items[k]);
      CountIn(Items(d, ts, false).value, items[k]);
    }
    PlaceItemsOf(d, c);
    ReadBackIff(d, items);
    SplitPlaces(d, Render(d, c), false, Empty(d));
  }

  // ---- flags and errors ---------------------------------------------------------------------------------------------

  /**
   * Where an option said lands: with the global ones if and only if its table entry is for no file, takes no stream
   * specifier and is no offset or duration; with the group it was said for otherwise.
   */
  lemma FlagsDecide(d: Defs, ts: seq<string>, it: Item)
    requires Usable(d) && Split(d, ts).Done?
    requires it.Opt? && Items(d, ts, false).Some? && it in Items(d, ts, false).value
    ensures it.po < |d.options| && it in ItemsOf(Split(d, ts).c)
    ensures var def := d.options[it.po];
            it in Split(d, ts).c.globals <==> !def.perFile && !def.spec && !def.offset
  {
    hide Split, Items, ItemsOf, Find, Match, Negated;
    var c := Split(d, ts).c;
    ItemsSayable(d, ts, false);
    EachOnce(d, ts, it);
    SaidOrNot(d, ts, it);
    var k :| 0 <= k < |ItemsOf(c)| && ItemsOf(c)[k] == it;
    GlobalsInFront(d, c, k);
    if it in c.globals {
      var j :| 0 <= j < |c.globals| && c.globals[j] == it;
      GlobalsAreItems(c);
      GlobalsInFront(d, c, j);
    }
  }

  /** Which tokens are rejected, and why. */
  lemma RejectedExactly(d: Defs, key: string, rest: seq<string>)
    requires Dashable(key)
    ensures var t, g, po := Next(d, ["-" + key] + rest, false), Match(d.groups, key), Find(d.options, key);
            var asValue := rest != [] && d.known(key);
            && (t == Fails(MissingArgument(key)) <==>
                rest == []
                && (g.Some? || (po.Some? && d.options[po.value].hasArg && !d.options[po.value].exits)))
            && (t == Fails(AvRejected(key)) <==> g.None? && po.None? && asValue && d.bad(key, rest[0]))
            && (t == Fails(Unrecognized(key)) <==> g.None? && po.None? && !asValue && Negated(d, key).None?)
            && (t.Fails? ==> t.error in {MissingArgument(key), AvRejected(key), Unrecognized(key)})
  {
    var ts := ["-" + key] + rest;
    DashToken(key);
    hide Find, Match, Negated;
    assert ts[0][1..] == key && ts[1..] == rest;
  }

  // ---- which lines come back --------------------------------------------------------------------------------------

  /** Exit options are global, as in the tables of all the programs, and no -nofoo is the name of an AVOption. */
  ghost predicate PlainTable(d: Defs) {
    && (forall k :: 0 <= k < |d.options| && d.options[k].exits ==>
          !d.options[k].perFile && !d.options[k].spec && !d.options[k].offset)
    && forall key :: Negated(d, key).Some? ==> !d.known(key)
  }

  /** An exit option that came last, without an argument. */
  predicate Bare(it: Item) { it.Opt? && it.val.None? }

  lemma UnsteadyIsBare(d: Defs, it: Item)
    requires PlainTable(d) && Sayable(d, it)
    ensures Steady(d, it) <==> !Bare(it)
    ensures Bare(it) ==> IsGlobal(d, it) && d.options[it.po].exits && Find(d.options, it.key) == Some(it.po)
  {
  }

  lemma {:induction false} OnlyLastBare(d: Defs, ts: seq<string>, after: bool)
    requires d.groups != [] && Items(d, ts, after).Some?
    ensures var items := Items(d, ts, after).value; forall k :: 0 <= k < |items| - 1 ==> !Bare(items[k])
    decreases |ts|
  {
    if ts != [] {
      var t := Next(d, ts, after);
      if t.Dashes? {
        OnlyLastBare(d, ts[1..], true);
      } else {
        OnlyLastBare(d, ts[t.used..], false);
        if Bare(t.item) { assert ts[t.used..] == []; }
      }
    }
  }

  /** If every item said is steady, the result can be rendered. */
  lemma SteadyLineRenders(d: Defs, ts: seq<string>)
    requires d.groups != [] && Split(d, ts).Done?
    requires Items(d, ts, false).Some? && forall it :: it in Items(d, ts, false).value ==> Steady(d, it)
    ensures CanRender(d, Split(d, ts).c)
  {
    var items := ItemsOf(Split(d, ts).c);
    forall k | 0 <= k < |items| - 1 ensures Steady(d, items[k]) { SaidOrNot(d, ts, items[k]); }
  }

  lemma SaidOrNot(d: Defs, ts: seq<string>, x: Item)
    requires d.groups != [] && Split(d, ts).Done?
    ensures Items(d, ts, false).Some? && (x in ItemsOf(Split(d, ts).c) <==> x in Items(d, ts, false).value)
  {
    EachOnce(d, ts, x);
    CountIn(ItemsOf(Split(d, ts).c), x);
    CountIn(Items(d, ts, false).value, x);
  }

  ghost predicate NoneGlobal(d: Defs, s: seq<Item>) { forall k :: 0 <= k < |s| ==> !IsGlobal(d, s[k]) }

  /** Only the front of a rendering is global. */
  lemma GlobalsInFront(d: Defs, c: Context, k: nat)
    requires Formed(d, c) && k < |ItemsOf(c)|
    ensures k < |c.globals| <==> IsGlobal(d, ItemsOf(c)[k])
    ensures k < |c.globals| ==> ItemsOf(c)[k] == c.globals[k]
  {
    hide IsGlobal, IsOwn;
    var all := AllGroupItems(c.groups, |c.groups|);
    var items := ItemsOf(c);
    assert items == c.globals + (all + (c.cur.opts + c.cur.avs));
    if k >= |c.globals| {
      NoGlobalGroups(d, c.groups, |c.groups|);
      AvNotGlobal(d, items[k]);
      var i, j := k - |c.globals|, k - |c.globals| - |all|;
      if i < |all| {
        assert items[k] == all[i];
      } else if j < |c.cur.opts| {
        assert items[k] == c.cur.opts[j] && IsOwn(d, c.cur.opts[j]);
      } else {
        assert items[k] == c.cur.avs[j - |c.cur.opts|];
      }
    }
  }

  lemma AvNotGlobal(d: Defs, it: Item)
    ensures !it.Opt? ==> !IsGlobal(d, it)
    ensures IsOwn(d, it) ==> !IsGlobal(d, it)
  {
  }

  lemma {:induction false} NoGlobalList(d: Defs, i: nat, gs: seq<Group>)
    requires forall j :: 0 <= j < |gs| ==> OwnGroup(d, gs[j])
    ensures NoneGlobal(d, ListItems(i, gs))
  {
    hide IsGlobal;
    if gs != [] {
      var g := gs[|gs| - 1];
      NoGlobalList(d, i, gs[..|gs| - 1]);
      forall k | 0 <= k < |GroupItems(i, g)| ensures !IsGlobal(d, GroupItems(i, g)[k]) {
        AvNotGlobal(d, GroupItems(i, g)[k]);
      }
      NoneInEither(d, ListItems(i, gs[..|gs| - 1]), GroupItems(i, g));
    }
  }

  lemma {:induction false} NoGlobalGroups(d: Defs, groups: seq<seq<Group>>, n: nat)
    requires n <= |groups|
    requires forall i, j :: 0 <= i < |groups| && 0 <= j < |groups[i]| ==> OwnGroup(d, groups[i][j])
    ensures NoneGlobal(d, AllGroupItems(groups, n))
  {
    hide IsGlobal, OwnGroup, ListItems, NoneGlobal;
    if n == 0 {
      assert NoneGlobal(d, []) by { NothingGlobal(d); }
    } else {
      NoGlobalGroups(d, groups, n - 1);
      NoGlobalList(d, n - 1, groups[n - 1]);
      NoneInEither(d, AllGroupItems(groups, n - 1), ListItems(n - 1, groups[n - 1]));
    }
  }

  lemma NothingGlobal(d: Defs)
    ensures NoneGlobal(d, [])
  {
  }

  lemma NoneInEither(d: Defs, a: seq<Item>, b: seq<Item>)
    requires NoneGlobal(d, a) && NoneGlobal(d, b)
    ensures NoneGlobal(d, a + b)
  {
    hide IsGlobal;
  }

  /** Rendered items up to the first bare one with something behind it read back; that one gets an argument. */
  lemma {:induction false} BareReadsMore(d: Defs, items: seq<Item>, k: nat)
    requires Usable(d) && AllSayable(d, items) && PlainTable(d) && k < |items| - 1
    requires Bare(items[k]) && forall j :: 0 <= j < k ==> Steady(d, items[j])
    ensures var r := Items(d, RenderItems(d, items), false);
            r.Some? ==> |r.value| > k && r.value[..k] == items[..k]
                        && r.value[k].Opt? && r.value[k].po == items[k].po && r.value[k] != items[k]
    decreases |items|
  {
    hide RenderItem, Steady, PlainTable, Sayable;
    var it, rest := items[0], RenderItems(d, items[1..]);
    RenderNotEmpty(d, items[1..]);
    if k == 0 {
      BareTakesNext(d, it, rest);
    } else {
      RenderedReads(d, it, rest);
      BareReadsMore(d, items[1..], k - 1);
      var r := Items(d, rest, false);
      if r.Some? {
        assert ([it] + r.value)[..k] == [it] + r.value[..k - 1] == [it] + items[1..][..k - 1] == items[..k];
      }
    }
  }

  lemma BareTakesNext(d: Defs, it: Item, rest: seq<string>)
    requires Sayable(d, it) && PlainTable(d) && Bare(it) && rest != [] && d.groups != []
    ensures var r := Items(d, RenderItem(d, it) + rest, false);
            r.Some? ==> r.value != [] && r.value[0] == Opt(it.po, it.key, Some(rest[0]))
  {
    UnsteadyIsBare(d, it);
    var ts := RenderItem(d, it) + rest;
    DashToken(it.key);
    assert ts[0] == "-" + it.key && ts[1..] == rest;
    hide PlainTable, Find, Match, RenderItem;
    assert Next(d, ts, false) == Reads(Opt(it.po, it.key, Some(rest[0])), 2);
  }

  lemma {:induction false} GlobalsKept(d: Defs, c: Context, items: seq<Item>)
    requires |c.groups| == |d.groups| && InRange(d, items)
    ensures c.globals <= PlaceFrom(d, c, items).globals
    decreases |items|
  {
    if items != [] { GlobalsKept(d, Apply(d, c, items[0]), items[1..]); }
  }

  /** Items that start with global ones put exactly those at the front of the global list. */
  lemma GlobalFront(d: Defs, items: seq<Item>, n: nat)
    requires InRange(d, items) && n <= |items| && forall k :: 0 <= k < n ==> IsGlobal(d, items[k])
    ensures items[..n] <= PlaceFrom(d, Empty(d), items).globals
  {
    var front, rest := items[..n], items[n..];
    assert front + rest == items && [] + front == front;
    PlaceGlobals(d, Empty(d), front);
    PlaceConcat(d, Empty(d), front, rest);
    GlobalsKept(d, PlaceFrom(d, Empty(d), front), rest);
  }

  /** With a bare option and something behind it the line does not come back: the option takes the next token. */
  lemma BareIsLost(d: Defs, ts: seq<string>, k: nat)
    requires Usable(d) && PlainTable(d) && Split(d, ts).Done?
    requires var items := ItemsOf(Split(d, ts).c);
             k < |items| - 1 && Bare(items[k]) && forall j :: 0 <= j < k ==> !Bare(items[j])
    ensures Split(d, Render(d, Split(d, ts).c)) != Split(d, ts)
  {
    hide Find, Negated, PlainTable, Sayable, IsGlobal, Next, PlaceFrom, Items, RenderItems;
    var c := Split(d, ts).c;
    var items := ItemsOf(c);
    EachOnce(d, ts, NO_ITEM);
    SayableResult(d, ts);
    forall j | 0 <= j <= k ensures Steady(d, items[j]) <==> !Bare(items[j]) { UnsteadyIsBare(d, items[j]); }
    UnsteadyIsBare(d, items[k]);
    GlobalsInFront(d, c, k);
    BareReadsMore(d, items, k);
    SplitPlaces(d, Render(d, c), false, Empty(d));
    var r := Items(d, Render(d, c), false);
    if r.Some? {
      forall j | 0 <= j <= k ensures IsGlobal(d, r.value[j]) {
        if j < k {
          assert r.value[j] == r.value[..k][j] == items[j];
          GlobalsInFront(d, c, j);
        } else {
          SameEntry(d, r.value[k], items[k]);
        }
      }
      GlobalFront(d, r.value, k + 1);
      assert PlaceFrom(d, Empty(d), r.value).globals[k] == r.value[..k + 1][k] == r.value[k];
    }
  }

  lemma SameEntry(d: Defs, a: Item, b: Item)
    requires a.Opt? && b.Opt? && a.po == b.po
    ensures IsGlobal(d, a) == IsGlobal(d, b)
  {
  }

  lemma SayableResult(d: Defs, ts: seq<string>)
    requires Usable(d) && Split(d, ts).Done?
    ensures AllSayable(d, ItemsOf(Split(d, ts).c))
  {
    var items := ItemsOf(Split(d, ts).c);
    EachOnce(d, ts, NO_ITEM);
    ItemsSayable(d, ts, false);
    forall k | 0 <= k < |items| ensures Sayable(d, items[k]) { SaidOrNot(d, ts, items[k]); }
  }

  /** With such a table, a line comes back if and only if its result can be rendered. */
  lemma RoundTripIff(d: Defs, ts: seq<string>)
    requires Usable(d) && PlainTable(d) && Split(d, ts).Done?
    ensures Split(d, Render(d, Split(d, ts).c)) == Split(d, ts) <==> CanRender(d, Split(d, ts).c)
  {
    hide Split, Render, PlainTable, Sayable, Steady;
    var items := ItemsOf(Split(d, ts).c);
    if CanRender(d, Split(d, ts).c) {
      RoundTrip(d, ts);
    } else {
      SayableResult(d, ts);
      var n :| 0 <= n < |items| - 1 && !Steady(d, items[n]);
      UnsteadyIsBare(d, items[n]);
      var k := FirstBare(items, n);
      BareIsLost(d, ts, k);
    }
  }

  lemma FirstBare(items: seq<Item>, n: nat) returns (k: nat)
    requires n < |items| && Bare(items[n])
    ensures k <= n && Bare(items[k]) && forall j :: 0 <= j < k ==> !Bare(items[j])
  {
    k := 0;
    while !Bare(items[k])
      invariant k <= n && forall j :: 0 <= j < k ==> !Bare(items[j])
      decreases n - k
    {
      k := k + 1;
    }
  }

  /** What is said of a line: it ends with an exit option without its argument, and has something that is not global. */
  ghost predicate Swallows(d: Defs, items: seq<Item>) {
    items != [] && Bare(items[|items| - 1]) && exists it :: it in items && !IsGlobal(d, it)
  }

  lemma {:induction false} AllGlobal(d: Defs, items: seq<Item>)
    ensures |Globals(d, items)| <= |items|
    ensures (forall it :: it in items ==> IsGlobal(d, it)) ==> Globals(d, items) == items
  {
    if items != [] {
      AllGlobal(d, items[..|items| - 1]);
      assert items == items[..|items| - 1] + [items[|items| - 1]];
    }
  }

  /** A bare option that ends the line is rendered last exactly when all else is global too. */
  lemma BareLineRenders(d: Defs, ts: seq<string>)
    requires Usable(d) && PlainTable(d) && Split(d, ts).Done? && Items(d, ts, false).Some?
    requires var items := Items(d, ts, false).value; items != [] && Bare(items[|items| - 1])
    ensures CanRender(d, Split(d, ts).c) <==> forall it :: it in Items(d, ts, false).value ==> IsGlobal(d, it)
  {
    hide Split, Items, IsGlobal, Sayable, Steady, PlainTable, ItemsOf, Find, Next;
    var said, c := Items(d, ts, false).value, Split(d, ts).c;
    var items, n := ItemsOf(c), |said| - 1;
    EachOnce(d, ts, NO_ITEM);
    hide Formed;
    SayableResult(d, ts);
    SaidOrNot(d, ts, said[n]);
    var k :| 0 <= k < |items| && items[k] == said[n];
    UnsteadyIsBare(d, items[k]);
    if forall it :: it in said ==> IsGlobal(d, it) {
      RenderedIsSaid(d, ts);
      OnlyLastBare(d, ts, false);
      forall j | 0 <= j < |items| - 1 ensures Steady(d, items[j]) { UnsteadyIsBare(d, items[j]); }
    } else {
      var it :| it in said && !IsGlobal(d, it);
      SaidOrNot(d, ts, it);
      var j :| 0 <= j < |items| && items[j] == it;
      GlobalsInFront(d, c, j);
      GlobalsInFront(d, c, k);
    }
  }

  lemma SaidGlobals(d: Defs, ts: seq<string>)
    requires d.groups != [] && Split(d, ts).Done? && Items(d, ts, false).Some?
    ensures Split(d, ts).c.globals == Globals(d, Items(d, ts, false).value)
  {
    hide Split, Items, Globals;
    SplitLands(d, ts);
    var said := Items(d, ts, false).value;
    assert said[..|said|] == said;
  }

  /** A line of global items only is rendered as it was said. */
  lemma RenderedIsSaid(d: Defs, ts: seq<string>)
    requires d.groups != [] && Split(d, ts).Done? && Items(d, ts, false).Some?
    requires forall it :: it in Items(d, ts, false).value ==> IsGlobal(d, it)
    ensures ItemsOf(Split(d, ts).c) == Items(d, ts, false).value
  {
    hide Split, Items, IsGlobal, ItemsOf, Formed, Globals;
    var said, c := Items(d, ts, false).value, Split(d, ts).c;
    var items := ItemsOf(c);
    SaidGlobals(d, ts);
    AllGlobal(d, said);
    EachOnce(d, ts, NO_ITEM);
    GlobalsAreItems(c);
    forall j | 0 <= j < |items| ensures j < |said| && items[j] == said[j] {
      SaidOrNot(d, ts, items[j]);
      GlobalsInFront(d, c, j);
    }
    assert items != [] ==> items[|items| - 1] == said[|items| - 1];
  }

  lemma GlobalsAreItems(c: Context)
    ensures |ItemsOf(c)| >= |c.globals|
  {
  }

  /**
   * Which accepted lines come back: all but those that end with an exit option without its argument and have anything
   * that is not a global option. Rendered, that option would have something behind it to take.
   */
  lemma LineRoundTripIff(d: Defs, ts: seq<string>)
    requires Usable(d) && PlainTable(d) && Split(d, ts).Done?
    ensures Items(d, ts, false).Some?
    ensures Split(d, Render(d, Split(d, ts).c)) == Split(d, ts) <==> !Swallows(d, Items(d, ts, false).value)
  {
    hide Split, Render, Items, Steady, Sayable, CanRender, IsGlobal, PlainTable;
    EachOnce(d, ts, NO_ITEM);
    RoundTripIff(d, ts);
    var said := Items(d, ts, false).value;
    if said != [] && Bare(said[|said| - 1]) {
      BareLineRenders(d, ts);
    } else {
      OnlyLastBare(d, ts, false);
      ItemsSayable(d, ts, false);
      forall it | it in said ensures Steady(d, it) { UnsteadyIsBare(d, it); }
      SteadyLineRenders(d, ts);
    }
  }

  /**
   * Such a line, whatever the rest of the table: a file and an exit option after it, which then takes the file's name.
   */
  lemma ExitOptionTakesFile(d: Defs, f: string, key: string, po: nat)
    requires Usable(d) && Plain(f) && Dashable(key) && Match(d.groups, key).None?
    requires Find(d.options, key) == Some(po) && d.options[po].exits && IsGlobal(d, Opt(po, key, None))
    ensures Split(d, [f, "-" + key]).Done?
    ensures Split(d, Render(d, Split(d, [f, "-" + key]).c)) != Split(d, [f, "-" + key])
  {
    var t, opt, end := "-" + key, Opt(po, key, None), End(0, f);
    var ts := [f, t];
    DashToken(key);
    hide Find, Match, IsGlobal, Dashable;
    assert ts[1..] == [t] && [t][1..] == [];
    var c := Apply(d, Empty(d), end);
    var e := c.(globals := [opt]);
    assert [] + [opt] == [opt];
    assert Next(d, ts, false) == Reads(end, 1) && Next(d, [t], false) == Reads(opt, 1);
    assert Apply(d, c, opt) == e;
    assert SplitFrom(d, [t], false, c) == Done(e);
    assert Split(d, ts) == Done(e);
    ExitFirst(d, e, f, key, po);
  }

  lemma ExitFirst(d: Defs, e: Context, f: string, key: string, po: nat)
    requires Usable(d) && Plain(f) && Dashable(key) && Match(d.groups, key).None?
    requires Find(d.options, key) == Some(po) && d.options[po].exits && IsGlobal(d, Opt(po, key, None))
    requires e == Apply(d, Empty(d), End(0, f)).(globals := [Opt(po, key, None)])
    ensures Split(d, Render(d, e)) != Done(e)
  {
    hide Find, Match, Plain, Apply, Render, Next, IsGlobal, Dashable, Usable, Empty;
    FileBehind(d, e, f, key, po);
    TakesFile(d, f, key, po);
  }

  lemma FileBehind(d: Defs, e: Context, f: string, key: string, po: nat)
    requires Usable(d) && Plain(f) && e == Apply(d, Empty(d), End(0, f)).(globals := [Opt(po, key, None)])
    ensures Render(d, e) == ["-" + key, f]
  {
    var opt, end := Opt(po, key, None), End(0, f);
    OneFileItems(d, f);
    assert ItemsOf(e) == [opt, end];
    hide Find, Plain, Apply, Empty, ItemsOf;
    assert RenderItem(d, end) == [f] && RenderItem(d, opt) == ["-" + key];
    assert RenderItems(d, [end]) == [f] by { assert [end][1..] == []; }
    assert RenderItems(d, [opt, end]) == ["-" + key] + RenderItems(d, [end]) by { assert [opt, end][1..] == [end]; }
  }

  lemma TakesFile(d: Defs, f: string, key: string, po: nat)
    requires Usable(d) && Dashable(key) && Match(d.groups, key).None?
    requires Find(d.options, key) == Some(po) && d.options[po].exits && IsGlobal(d, Opt(po, key, None))
    ensures Split(d, ["-" + key, f]).Done? && Split(d, ["-" + key, f]).c.globals == [Opt(po, key, Some(f))]
  {
    var ts, taken := ["-" + key, f], Opt(po, key, Some(f));
    DashToken(key);
    SameEntry(d, taken, Opt(po, key, None));
    hide IsGlobal, Find, Match, Dashable;
    assert ts[1..] == [f] && ts[2..] == [] && [] + [taken] == [taken];
    assert Next(d, ts, false) == Reads(taken, 2);
    hide Next;
    var r := Apply(d, Empty(d), taken);
    assert SplitFrom(d, [], false, r) == Done(r);
    assert SplitFrom(d, ts, false, Empty(d)) == SplitFrom(d, ts[2..], false, r);
  }

  lemma OneFileItems(d: Defs, f: string)
    requires Usable(d)
    ensures var g := Apply(d, Empty(d), End(0, f)).groups; AllGroupItems(g, |g|) == [End(0, f)]
  {
    EmptyHolds(d);
    var g := Empty(d).groups;
    assert [] + [Group(f, [], [])] == [Group(f, [], [])];
    assert Apply(d, Empty(d), End(0, f)).groups == g[0 := [Group(f, [], [])]];
    OneGroup(g, f, |g|);
  }

  lemma {:induction false} OneGroup(g: seq<seq<Group>>, f: string, n: nat)
    requires n <= |g| && forall k :: 0 <= k < |g| ==> g[k] == []
    ensures g != [] ==> AllGroupItems(g[0 := [Group(f, [], [])]], n) == if n == 0 then [] else [End(0, f)]
  {
    if n > 0 {
      OneGroup(g, f, n - 1);
      var list := g[0 := [Group(f, [], [])]][n - 1];
      if n > 1 {
        assert ListItems(n - 1, list) == [];
      } else if g != [] {
        assert list == [Group(f, [], [])] && list[..0] == [];
        assert ListItems(0, list) == [End(0, f)];
      }
    }
  }

  /**
   * A plain table is needed: with -nofoo both an AVOption and the negation of a global option, "-nofoo -nofoo -nofoo"
   * sets the AVOption first and the option last. Rendered, the option comes first and is read as the AVOption, and yet
   * the line splits to the same result.
   */
  lemma UnsteadyLineRoundTrips(d: Defs, key: string, po: nat) returns (ts: seq<string>)
    requires Usable(d) && Dashable(key) && Match(d.groups, key).None? && Find(d.options, key).None?
    requires Negated(d, key) == Some(po) && d.known(key) && !d.bad(key, "-" + key)
    requires IsGlobal(d, Opt(po, key, Some("0")))
    ensures Split(d, ts).Done? && !CanRender(d, Split(d, ts).c)
    ensures Render(d, Split(d, ts).c) == ts && Split(d, Render(d, Split(d, ts).c)) == Split(d, ts)
  {
    var t := "-" + key;
    var opt, av := Opt(po, key, Some("0")), Av(key, t);
    ts := [t, t, t];
    DashToken(key);
    hide Find, Match, Negated, IsGlobal, Dashable;
    assert ts[1..][0] == t && ts[2..] == [t] && [t][1..] == [];
    assert Next(d, ts, false) == Reads(av, 2);
    assert Next(d, [t], false) == Reads(opt, 1);
    var c := Empty(d).(cur := Group("", [], [av]));
    var e := c.(globals := [opt]);
    assert [] + [av] == [av] && [] + [opt] == [opt];
    assert SplitFrom(d, [t], false, c) == Done(e);
    assert SplitFrom(d, ts, false, Empty(d)) == SplitFrom(d, [t], false, c);
    hide SplitFrom, Next;
    OptionFirst(d, e, opt, av);
  }

  /** Rendered, a lone global option and an AVOption give the tokens of the option before those of the AVOption. */
  lemma OptionFirst(d: Defs, e: Context, opt: Item, av: Item)
    requires e == Empty(d).(globals := [opt], cur := Group("", [], [av])) && av.Av?
    requires opt.Opt? && Find(d.options, opt.key).None? && d.known(opt.key)
    ensures ItemsOf(e) == [opt, av] && Render(d, e) == ["-" + opt.key, "-" + av.name, av.value] && !CanRender(d, e)
  {
    hide Find;
    EmptyHolds(d);
    EmptyGroups(e.groups, |e.groups|);
    assert ItemsOf(e) == [opt, av];
    assert RenderItems(d, [av]) == ["-" + av.name, av.value] by { assert [av][1..] == []; }
    assert RenderItems(d, [opt, av]) == RenderItem(d, opt) + RenderItems(d, [av]) by { assert [opt, av][1..] == [av]; }
    assert !Steady(d, ItemsOf(e)[0]);
  }

  /** Split from an empty context, every option lands where Lands says. */
  lemma SplitLands(d: Defs, ts: seq<string>)
    requires d.groups != [] && Split(d, ts).Done?
    ensures Items(d, ts, false).Some?
    ensures Lands(d, Split(d, ts).c, Items(d, ts, false).value, |Items(d, ts, false).value|)
  {
    SplitPlaces(d, ts, false, Empty(d));
    var items := Items(d, ts, false).value;
    LandsInOrder(d, items, |items|);
    assert items[..|items|] == items;
  }
}
