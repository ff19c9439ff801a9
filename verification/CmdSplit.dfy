/**
 * The command-line splitter of fftools/cmdutils.c: what each token means, where split_commandline puts every option,
 * and a rendering of the result that splits back to it.
 */
module CmdSplit {
  import opened Basics

  // ---- the tables ----------------------------------------------------------------------------------------------

  /** An entry of the option table with the flags the splitter looks at. */
  datatype OptionDef = OptionDef(name: string, hasArg: bool, isBool: bool, exits: bool, perFile: bool, spec: bool,
                                 offset: bool)

  /** A kind of group; `sep` is None for the groups a plain file name ends. */
  datatype GroupDef = GroupDef(name: string, sep: Option<string>)

  /** `known`: the names opt_default finds; `bad`: the known names and arguments it rejects. */
  datatype Defs = Defs(options: seq<OptionDef>, groups: seq<GroupDef>, known: string -> bool,
                       bad: (string, string) -> bool)

  /** `name` is the option's name, alone or followed by a stream specifier. */
  predicate Names(def: OptionDef, name: string) {
    def.name <= name && (|name| == |def.name| || name[|def.name|] == ':')
  }

  /** find_option: the first entry that `name` names. */
  function Find(options: seq<OptionDef>, name: string): (r: Option<nat>)
    ensures r.Some? ==> r.value < |options| && Names(options[r.value], name)
    ensures r.Some? ==> forall k :: 0 <= k < r.value ==> !Names(options[k], name)
    ensures r.None? ==> forall k :: 0 <= k < |options| ==> !Names(options[k], name)
  {
    FindFrom(options, name, 0)
  }

  function FindFrom(options: seq<OptionDef>, name: string, i: nat): (r: Option<nat>)
    requires i <= |options| && forall k :: 0 <= k < i ==> !Names(options[k], name)
    ensures r.Some? ==> r.value < |options| && Names(options[r.value], name)
    ensures r.Some? ==> forall k :: 0 <= k < r.value ==> !Names(options[k], name)
    ensures r.None? ==> forall k :: 0 <= k < |options| ==> !Names(options[k], name)
    decreases |options| - i
  {
    if i == |options| then None else if Names(options[i], name) then Some(i) else FindFrom(options, name, i + 1)
  }

  /** match_group_separator: the first group whose separator is `name`. */
  function MatchFrom(groups: seq<GroupDef>, name: string, i: nat): (r: Option<nat>)
    requires i <= |groups| && forall k :: 0 <= k < i ==> groups[k].sep != Some(name)
    ensures r.Some? ==> r.value < |groups| && groups[r.value].sep == Some(name)
    ensures r.Some? ==> forall k :: 0 <= k < r.value ==> groups[k].sep != Some(name)
    ensures r.None? ==> forall k :: 0 <= k < |groups| ==> groups[k].sep != Some(name)
    decreases |groups| - i
  {
    if i == |groups| then None else if groups[i].sep == Some(name) then Some(i) else MatchFrom(groups, name, i + 1)
  }

  function Match(groups: seq<GroupDef>, name: string): (r: Option<nat>)
    ensures r.Some? ==> r.value < |groups| && groups[r.value].sep == Some(name)
    ensures r.None? ==> forall k :: 0 <= k < |groups| ==> groups[k].sep != Some(name)
  {
    MatchFrom(groups, name, 0)
  }

  // ---- tokens -------------------------------------------------------------------------------------------------------

  /**
   * What one or two tokens say: an option, the end of a group, or an AVOption. `val` None: an exit option that came
   * last.
   */
  datatype Item = Opt(po: nat, key: string, val: Option<string>)
                | End(group: nat, arg: string)
                | Av(name: string, value: string)

  datatype Error = MissingArgument(key: string) | AvRejected(key: string) | Unrecognized(key: string)

  datatype Token = Dashes | Reads(item: Item, used: nat) | Fails(error: Error)

  /** The token is a file name by itself: it does not start with a dash, or is one. */
  predicate Plain(opt: string) { opt == [] || opt[0] != '-' || |opt| == 1 }

  /** The name of a -nofoo token whose foo is a boolean option. */
  function Negated(d: Defs, key: string): Option<nat> {
    if 2 <= |key| && key[0] == 'n' && key[1] == 'o' then
      var po := Find(d.options, key[2..]);
      if po.Some? && d.options[po.value].isBool then po else None
    else None
  }

  /** An entry of the option table. */
  function ReadOption(d: Defs, po: nat, key: string, rest: seq<string>): (t: Token)
    requires po < |d.options|
  {
    if d.options[po].exits then
      if rest == [] then Reads(Opt(po, key, None), 1) else Reads(Opt(po, key, Some(rest[0])), 2)
    else if d.options[po].hasArg then
      if rest == [] then Fails(MissingArgument(key)) else Reads(Opt(po, key, Some(rest[0])), 2)
    else Reads(Opt(po, key, Some("1")), 1)
  }

  /** A token with a dash and more: a separator, an option, an AVOption, a negated boolean, or nothing known. */
  function ReadNamed(d: Defs, key: string, rest: seq<string>): (t: Token) {
    var g := Match(d.groups, key);
    var po := Find(d.options, key);
    if g.Some? then (if rest == [] then Fails(MissingArgument(key)) else Reads(End(g.value, rest[0]), 2))
    else if po.Some? then ReadOption(d, po.value, key, rest)
    else if rest != [] && d.known(key) then
      if d.bad(key, rest[0]) then Fails(AvRejected(key)) else Reads(Av(key, rest[0]), 2)
    else
      var no := Negated(d, key);
      if no.Some? then Reads(Opt(no.value, key, Some("0")), 1) else Fails(Unrecognized(key))
  }

  /** The next item; `after`: the token before was "--". */
  function Next(d: Defs, ts: seq<string>, after: bool): (t: Token)
    requires ts != []
    ensures t.Reads? ==> 1 <= t.used <= |ts|
  {
    if ts[0] == "--" then Dashes
    else if Plain(ts[0]) || after then Reads(End(0, ts[0]), 1)
    else ReadNamed(d, ts[0][1..], ts[1..])
  }

  // ---- the context --------------------------------------------------------------------------------------------------

  datatype Group = Group(arg: string, opts: seq<Item>, avs: seq<Item>)

  /** OptionParseContext; `cur` collects what the next terminator will take, its `arg` unused. */
  datatype Context = Context(globals: seq<Item>, groups: seq<seq<Group>>, cur: Group)

  const NO_GROUP := Group("", [], [])

  function Empty(d: Defs): Context { Context([], seq(|d.groups|, _ => []), NO_GROUP) }

  predicate IsGlobal(d: Defs, it: Item) {
    it.Opt? && it.po < |d.options|
    && !(d.options[it.po].perFile || d.options[it.po].spec || d.options[it.po].offset)
  }

  /** add_opt, finish_group and the AVOption dictionaries. */
  function Apply(d: Defs, c: Context, it: Item): (r: Context)
    requires it.End? ==> it.group < |c.groups|
    ensures |r.groups| == |c.groups|
  {
    match it
    case Opt(_, _, _) =>
      if IsGlobal(d, it) then c.(globals := c.globals + [it]) else c.(cur := c.cur.(opts := c.cur.opts + [it]))
    case Av(_, _) => c.(cur := c.cur.(avs := c.cur.avs + [it]))
    case End(g, arg) => c.(groups := c.groups[g := c.groups[g] + [c.cur.(arg := arg)]], cur := NO_GROUP)
  }

  datatype Result = Done(c: Context) | Failed(error: Error)

  /** split_commandline from a token on. */
  function SplitFrom(d: Defs, ts: seq<string>, after: bool, c: Context): Result
    requires d.groups != [] && |c.groups| == |d.groups|
    decreases |ts|
  {
    if ts == [] then Done(c) else
      match Next(d, ts, after)
      case Dashes => SplitFrom(d, ts[1..], true, c)
      case Fails(e) => Failed(e)
      case Reads(it, n) => SplitFrom(d, ts[n..], false, Apply(d, c, it))
  }

  function Split(d: Defs, ts: seq<string>): Result
    requires d.groups != []
  {
    SplitFrom(d, ts, false, Empty(d))
  }
}
