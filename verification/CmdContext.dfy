/** split_commandline of fftools/cmdutils.c in place on its context, proved against CmdSplit.Split. */
module CmdContext {
  import opened Basics
  import opened CmdSplit

  method FindOption(options: seq<OptionDef>, name: string) returns (po: Option<nat>)
    ensures po == Find(options, name)
  {
    var i := 0;
    while i < |options|
      invariant i <= |options| && forall k :: 0 <= k < i ==> !Names(options[k], name)
      invariant FindFrom(options, name, i) == Find(options, name)
    {
      if options[i].name <= name && (|name| == |options[i].name| || name[|options[i].name|] == ':') { return Some(i); }
      i := i + 1;
    }
    po := None;
  }

  method MatchGroupSeparator(groups: seq<GroupDef>, opt: string) returns (g: int)
    ensures g == if Match(groups, opt).Some? then Match(groups, opt).value else -1
  {
    var i := 0;
    while i < |groups|
      invariant i <= |groups| && forall k :: 0 <= k < i ==> groups[k].sep != Some(opt)
      invariant MatchFrom(groups, opt, i) == Match(groups, opt)
    {
      if groups[i].sep.Some? && groups[i].sep.value == opt { return i; }
      i := i + 1;
    }
    g := -1;
  }

  /** What split_commandline returns. */
  datatype Outcome = Fine | Error(error: CmdSplit.Error)

  class OptionParseContext {
    const defs: Defs
    var globalOpts: seq<Item>
    var groups: seq<seq<Group>>
    var curGroup: Group

    constructor (defs: Defs)
      ensures this.defs == defs && View() == Empty(defs)
    {
      this.defs := defs;
      globalOpts, groups, curGroup := [], seq(|defs.groups|, _ => []), NO_GROUP;
    }

    ghost function View(): Context
      reads this
    {
      Context(globalOpts, groups, curGroup)
    }

    method FinishGroup(g: nat, arg: string)
      requires g < |groups|
      modifies this`groups, this`curGroup
      ensures View() == Apply(defs, old(View()), End(g, arg))
    {
      groups := groups[g := groups[g] + [curGroup.(arg := arg)]];
      curGroup := NO_GROUP;
    }

    method AddOpt(po: nat, key: string, val: Option<string>)
      requires po < |defs.options|
      modifies this`globalOpts, this`curGroup
      ensures View() == Apply(defs, old(View()), Opt(po, key, val))
    {
      var def := defs.options[po];
      var it := Opt(po, key, val);
      if !(def.perFile || def.spec || def.offset) {
        globalOpts := globalOpts + [it];
      } else {
        curGroup := curGroup.(opts := curGroup.opts + [it]);
      }
    }

    method AddAvOption(name: string, value: string)
      modifies this`curGroup
      ensures View() == Apply(defs, old(View()), Av(name, value))
    {
      curGroup := curGroup.(avs := curGroup.avs + [Av(name, value)]);
    }

    /**
     * The part of a round that deals with a token that has a dash and more; `next` is argv[optindex], if there is one.
     */
    method ReadDashed(opt: string, next: Option<string>, ghost rest: seq<string>) returns (out: Outcome, used: nat)
      requires |groups| == |defs.groups|
      requires next == if rest == [] then None else Some(rest[0])
      modifies this
      ensures |groups| == |defs.groups|
      ensures match ReadNamed(defs, opt, rest)
              case Dashes => false
              case Fails(e) => out == Error(e)
              case Reads(it, n) => out.Fine? && used == n && (it.End? ==> it.group < |defs.groups|)
                                   && View() == Apply(defs, old(View()), it)
    {
      hide Apply, IsGlobal;
      var g := MatchGroupSeparator(defs.groups, opt);
      if g >= 0 {
        if next.None? { return Error(MissingArgument(opt)), 0; }
        FinishGroup(g, next.value);
        return Fine, 2;
      }
      var po := FindOption(defs.options, opt);
      if po.Some? {
        var def := defs.options[po.value];
        if def.exits {
          AddOpt(po.value, opt, next);
          return Fine, if next.None? then 1 else 2;
        } else if def.hasArg {
          if next.None? { return Error(MissingArgument(opt)), 0; }
          AddOpt(po.value, opt, next);
          return Fine, 2;
        }
        AddOpt(po.value, opt, Some("1"));
        return Fine, 1;
      }
      if next.Some? && defs.known(opt) {
        if defs.bad(opt, next.value) { return Error(AvRejected(opt)), 0; }
        AddAvOption(opt, next.value);
        return Fine, 2;
      }
      if 2 <= |opt| && opt[0] == 'n' && opt[1] == 'o' {
        var no := FindOption(defs.options, opt[2..]);
        if no.Some? && defs.options[no.value].isBool {
          AddOpt(no.value, opt, Some("0"));
          return Fine, 1;
        }
      }
      return Error(Unrecognized(opt)), 0;
    }

    /** split_commandline on argv[0..], whose first entry is the program. */
    method SplitCommandline(argv: seq<string>) returns (out: Outcome)
      requires |argv| >= 1 && defs.groups != [] && View() == Empty(defs)
      modifies this
      ensures match Split(defs, argv[1..])
              case Done(c) => out.Fine? && View() == c
              case Failed(e) => out == Error(e)
    {
      hide Apply, ReadNamed, IsGlobal;
      var optindex, dashdash := 1, -2;
      while optindex < |argv|
        invariant 1 <= optindex <= |argv| && dashdash <= optindex && |groups| == |defs.groups|
        invariant SplitFrom(defs, argv[optindex..], dashdash == optindex, View()) == Split(defs, argv[1..])
      {
        ghost var ts := argv[optindex..];
        var opt := argv[optindex];
        optindex := optindex + 1;
        assert ts[0] == opt && ts[1..] == argv[optindex..];
        if opt == "--" {
          dashdash := optindex;
          continue;
        }
        if opt == [] || opt[0] != '-' || |opt| == 1 || dashdash + 1 == optindex {
          FinishGroup(0, opt);
          continue;
        }
        var next := if optindex < |argv| then Some(argv[optindex]) else None;
        var used;
        out, used := ReadDashed(opt[1..], next, argv[optindex..]);
        if out.Error? { return; }
        assert ts[used..] == argv[optindex + used - 1..];
        optindex := optindex + used - 1;
      }
      assert argv[optindex..] == [];
      out := Fine;
    }
  }
}
